/** The linear congruential generator behind the shuffle: it runs through all of its 2^31 states
    before it repeats one. */
module RandomPeriod {
  import opened Bits
  import opened Bytes
  import opened Common
  import opened Shuffle

  const MULTIPLIER: nat := 1103515245
  const INCREMENT: nat := 12345

  /** The state after n draws. */
  function StateAt(seed: Word, n: nat): Word {
    if n == 0 then seed else NextState(StateAt(seed, n - 1))
  }

  /** 1 + a + ... + a^(n - 1). */
  function Geometric(a: nat, n: nat): nat {
    if n == 0 then 0 else a * Geometric(a, n - 1) + 1
  }

  lemma RemainderTwice(x: nat, m: nat)
    requires m > 0
    ensures x % (2 * m) % m == x % m
  {
    var q, r := x / (2 * m), x % (2 * m);
    assert x == (2 * m) * q + r == m * (2 * q) + r;
    var q', r' := r / m, r % m;
    assert m * (2 * q + q') == m * (2 * q) + m * q';
    QuotientIs(x, m, 2 * q + q', r');
  }

  lemma NextIsLinear(state: Word)
    ensures NextState(state) == (MULTIPLIER * state + INCREMENT) % 0x8000_0000
  {
    RemainderTwice(MULTIPLIER * state + INCREMENT, 0x8000_0000);
  }

  /** From one state to the next number, the successor advances by the multiplier. */
  lemma SuccessorsAdvance(state: nat)
    requires state + 1 < 0x1_0000_0000
    ensures NextState(0) == 12345
    ensures NextState(state + 1) == (NextState(state) + 1103515245) % 0x8000_0000
  {
    hide NextState;
    NextIsLinear(0);
    NextIsLinear(state);
    NextIsLinear(state + 1);
    SumOfRemainder(MULTIPLIER * state + INCREMENT, MULTIPLIER, 0x8000_0000);
  }

  lemma SumOfRemainder(x: nat, y: nat, m: nat)
    requires m > 0
    ensures (x % m + y) % m == (x + y) % m
  {
    var z := x % m + y;
    assert x + y == m * (x / m) + z;
    assert m * (x / m + z / m) == m * (x / m) + m * (z / m);
    QuotientIs(x + y, m, x / m + z / m, z % m);
  }

  // ---------------------------------------------------------------------------
  // States in closed form
  // ---------------------------------------------------------------------------

  lemma SameRemainders(x: nat, a: nat, c: nat, m: nat)
    requires m > 0
    ensures (a * (x % m) + c) % m == (a * x + c) % m
  {
    var q, r := x / m, x % m;
    var z := a * r + c;
    assert a * x + c == m * (a * q) + z by {
      assert x == m * q + r;
      assert a * (m * q + r) == a * (m * q) + a * r && a * (m * q) == m * (a * q);
    }
    assert m * (a * q + z / m) == m * (a * q) + m * (z / m);
    QuotientIs(a * x + c, m, a * q + z / m, z % m);
  }

  /** How far n draws move the state, modulo 2^31. */
  function Moved(seed: nat, n: nat): nat {
    Geometric(MULTIPLIER, n) * ((MULTIPLIER - 1) * seed + INCREMENT)
  }

  lemma {:induction false} ClosedForm(seed: Word, n: nat)
    ensures StateAt(seed, n) % 0x8000_0000 == (seed + Moved(seed, n)) % 0x8000_0000
  {
    hide NextState, Moved;
    if n == 0 {
      assert Geometric(MULTIPLIER, 0) == 0;
      NothingMoved(seed);
    } else {
      var before, moved := StateAt(seed, n - 1), seed + Moved(seed, n - 1);
      ClosedForm(seed, n - 1);
      NextIsLinear(before);
      SameRemainders(before, MULTIPLIER, INCREMENT, 0x8000_0000);
      SameRemainders(moved, MULTIPLIER, INCREMENT, 0x8000_0000);
      MovedOnce(seed, n);
    }
  }

  lemma NothingMoved(seed: nat)
    ensures Moved(seed, 0) == 0
  {
  }

  lemma MovedOnce(seed: nat, n: nat)
    requires n > 0
    ensures seed + Moved(seed, n) == MULTIPLIER * (seed + Moved(seed, n - 1)) + INCREMENT
  {
    hide Geometric;
    var g := Geometric(MULTIPLIER, n - 1);
    assert Geometric(MULTIPLIER, n) == MULTIPLIER * g + 1 by {
      GeometricStep(MULTIPLIER, n);
    }
    MovedArithmetic(seed, MULTIPLIER, INCREMENT, g);
  }

  lemma GeometricStep(a: nat, n: nat)
    requires n > 0
    ensures Geometric(a, n) == a * Geometric(a, n - 1) + 1
  {
  }

  lemma MovedArithmetic(x: int, a: int, c: int, g: int)
    ensures x + (a * g + 1) * ((a - 1) * x + c) == a * (x + g * ((a - 1) * x + c)) + c
  {
    var w := (a - 1) * x + c;
    assert (a * g + 1) * w == a * (g * w) + w;
    assert a * (x + g * w) == a * x + a * (g * w);
  }

  // ---------------------------------------------------------------------------
  // Divisibility by powers of two
  // ---------------------------------------------------------------------------

  /** 2^k divides x. */
  predicate Halves(x: nat, k: nat) {
    k == 0 || (x % 2 == 0 && Halves(x / 2, k - 1))
  }

  lemma {:induction false} HalvesIsRemainder(x: nat, k: nat)
    ensures Halves(x, k) <==> x % Pow2(k) == 0
  {
    if k > 0 {
      var p := Pow2(k - 1);
      HalvesIsRemainder(x / 2, k - 1);
      var q, r := x / 2 / p, x / 2 % p;
      assert x == (2 * p) * q + (2 * r + x % 2) by {
        assert x / 2 == p * q + r;
      }
      QuotientIs(x, 2 * p, q, 2 * r + x % 2);
    }
  }

  lemma OddTimes(a: nat, x: nat)
    requires a % 2 == 1
    ensures (a * x) % 2 == x % 2
  {
    assert a * x == 2 * (a / 2 * x) + x;
  }

  /** An odd factor does not matter. */
  lemma {:induction false} OddFactor(u: nat, x: nat, k: nat)
    requires u % 2 == 1
    ensures Halves(u * x, k) <==> Halves(x, k)
  {
    if k > 0 {
      OddTimes(u, x);
      if x % 2 == 0 {
        OddFactor(u, x / 2, k - 1);
        assert u * x == 2 * (u * (x / 2));
      }
    }
  }

  lemma {:induction false} GeometricOfSum(a: nat, m: nat, n: nat)
    requires a > 0
    ensures Geometric(a, m + n) == Geometric(a, m) + Geometric(a, n) + (a - 1) * (Geometric(a, m) * Geometric(a, n))
  {
    if m > 0 {
      hide Geometric;
      GeometricOfSum(a, m - 1, n);
      GeometricStep(a, m + n);
      GeometricStep(a, m);
      SumStep(a, Geometric(a, m - 1), Geometric(a, n));
    }
  }

  lemma SumStep(a: int, x: int, y: int)
    ensures a * (x + y + (a - 1) * (x * y)) + 1 == (a * x + 1) + y + (a - 1) * ((a * x + 1) * y)
  {
    assert (a * x + 1) * y == a * (x * y) + y;
    assert (a - 1) * (a * (x * y) + y) == a * ((a - 1) * (x * y)) + (a - 1) * y;
    assert a * (x + y + (a - 1) * (x * y)) == a * x + a * y + a * ((a - 1) * (x * y));
  }

  lemma {:induction false} GeometricParity(a: nat, n: nat)
    requires a % 2 == 1
    ensures Geometric(a, n) % 2 == n % 2
  {
    if n > 0 {
      hide Geometric;
      GeometricParity(a, n - 1);
      OddTimes(a, Geometric(a, n - 1));
      GeometricStep(a, n);
      NextParity(a * Geometric(a, n - 1), n - 1);
    }
  }

  lemma NextParity(x: int, n: int)
    requires x % 2 == n % 2
    ensures (x + 1) % 2 == (n + 1) % 2
  {
  }

  /** A sum of twice as many terms is twice the sum, times an odd number. */
  lemma GeometricOfDouble(a: nat, h: nat) returns (u: nat)
    requires a % 4 == 1
    ensures u % 2 == 1 && Geometric(a, 2 * h) == 2 * (u * Geometric(a, h))
  {
    hide Geometric;
    var g, b := Geometric(a, h), a / 4;
    GeometricOfSum(a, h, h);
    u := 1 + 2 * (b * g);
    DoubleArithmetic(b, g);
  }

  lemma DoubleArithmetic(b: int, g: int)
    ensures g + g + 4 * b * (g * g) == 2 * ((1 + 2 * (b * g)) * g)
  {
    assert b * (g * g) == b * g * g;
  }

  /** When a is one more than a multiple of four, the sum is divisible by exactly the powers of two
      that divide the number of its terms. */
  lemma {:induction false} GeometricHalves(a: nat, n: nat, k: nat)
    requires a % 4 == 1
    ensures Halves(Geometric(a, n), k) <==> Halves(n, k)
  {
    hide Geometric;
    GeometricParity(a, n);
    if k > 0 && n % 2 == 0 {
      var u := GeometricOfDouble(a, n / 2);
      OddFactor(u, Geometric(a, n / 2), k - 1);
      GeometricHalves(a, n / 2, k - 1);
    }
  }

  lemma MovedHalves(seed: nat, n: nat)
    ensures Moved(seed, n) % 0x8000_0000 == 0 <==> n % 0x8000_0000 == 0
  {
    hide Geometric, Halves, Pow2;
    var w, g := (MULTIPLIER - 1) * seed + INCREMENT, Geometric(MULTIPLIER, n);
    assert w * g == Moved(seed, n);
    OddFactor(w, g, 31);
    GeometricHalves(MULTIPLIER, n, 31);
    HalvesIsRemainder(w * g, 31);
    HalvesIsRemainder(n, 31);
    Pow2Of31();
  }

  lemma Pow2Of31()
    ensures Pow2(31) == 0x8000_0000
  {
    Pow2Values();
    assert Pow2(32) == 2 * Pow2(31);
  }

  // ---------------------------------------------------------------------------
  // The period
  // ---------------------------------------------------------------------------

  lemma {:induction false} DrawsCompose(seed: Word, m: nat, n: nat)
    ensures StateAt(seed, m + n) == StateAt(StateAt(seed, m), n)
  {
    if n > 0 {
      DrawsCompose(seed, m, n - 1);
    }
  }

  /** A state comes back after 2^31 draws, and no earlier. */
  lemma Period(state: Word, n: nat)
    requires state < 0x8000_0000
    ensures StateAt(state, n) == state <==> n % 0x8000_0000 == 0
  {
    hide Moved, NextState;
    ClosedForm(state, n);
    MovedHalves(state, n);
    SumOfRemainder(Moved(state, n), state, 0x8000_0000);
    assert StateAt(state, n) < 0x8000_0000;
  }

  lemma StatesAreBelow(seed: Word, n: nat)
    requires n > 0
    ensures StateAt(seed, n) < 0x8000_0000
  {
  }

  /** After any seed, two draws leave the same state exactly when they are a multiple of 2^31 apart. */
  lemma StatesDiffer(seed: Word, i: nat, j: nat)
    requires 0 < i <= j
    ensures StateAt(seed, i) == StateAt(seed, j) <==> (j - i) % 0x8000_0000 == 0
  {
    hide StateAt;
    StatesAreBelow(seed, i);
    DrawsCompose(seed, i, j - i);
    Period(StateAt(seed, i), j - i);
  }

  lemma NoMultipleBelow(d: nat)
    requires 0 < d < 0x8000_0000
    ensures d % 0x8000_0000 != 0
  {
  }

  ghost function Seen(seed: Word, n: nat): set<int> {
    if n == 0 then {} else Seen(seed, n - 1) + {StateAt(seed, n)}
  }

  lemma {:induction false} SeenIff(seed: Word, n: nat, x: int)
    ensures x in Seen(seed, n) <==> exists i :: 1 <= i <= n && StateAt(seed, i) == x
  {
    if n > 0 {
      hide StateAt;
      SeenIff(seed, n - 1, x);
      if x == StateAt(seed, n) {
        assert exists i :: 1 <= i <= n && StateAt(seed, i) == x;
      }
    }
  }

  lemma {:induction false} SeenCount(seed: Word, n: nat)
    requires n <= 0x8000_0000
    ensures |Seen(seed, n)| == n
  {
    if n > 0 {
      hide StateAt;
      SeenCount(seed, n - 1);
      SeenIff(seed, n - 1, StateAt(seed, n));
      forall i | 1 <= i < n ensures StateAt(seed, i) != StateAt(seed, n) {
        StatesDiffer(seed, i, n);
        NoMultipleBelow(n - i);
      }
    }
  }

  ghost function Below(n: nat): (s: set<int>)
    ensures |s| == n && forall x :: x in s <==> 0 <= x < n
  {
    if n == 0 then {} else Below(n - 1) + {n - 1}
  }

  lemma FullSubset(s: set<int>, t: set<int>)
    requires s <= t && |s| == |t|
    ensures s == t
  {
    assert t == s + (t - s) && |t - s| == 0;
  }

  /** From any seed, the first 2^31 draws of the widest range give every number of it once. */
  lemma EveryStateIsReached(seed: Word, x: nat) returns (n: nat)
    requires x < 0x8000_0000
    ensures 1 <= n <= 0x8000_0000 && StateAt(seed, n) == x
    ensures forall i :: 1 <= i <= 0x8000_0000 && StateAt(seed, i) == x ==> i == n
  {
    hide StateAt, Below;
    var all := Below(0x8000_0000);
    SeenCount(seed, 0x8000_0000);
    forall y | y in Seen(seed, 0x8000_0000) ensures y in all {
      SeenIff(seed, 0x8000_0000, y);
      var i :| 1 <= i <= 0x8000_0000 && StateAt(seed, i) == y;
      StatesAreBelow(seed, i);
    }
    FullSubset(Seen(seed, 0x8000_0000), all);
    SeenIff(seed, 0x8000_0000, x);
    n :| 1 <= n <= 0x8000_0000 && StateAt(seed, n) == x;
    forall i | 1 <= i <= 0x8000_0000 && StateAt(seed, i) == x ensures i == n {
      StatesDiffer(seed, if i <= n then i else n, if i <= n then n else i);
    }
  }
}
