/**
  What the operations on 32-bit words and the functions and constants of SHA-1 do, bit by bit.
 */
module WordBits {
  import opened Bits
  import opened Bytes
  import opened Common
  import opened Sha1Standard

  /** The bit of x with i bits to its right. */
  function Bit(x: nat, i: nat): (b: nat)
    ensures b < 2
  {
    (x / Pow2(i)) % 2
  }

  lemma BitShift(x: nat, i: nat)
    ensures Bit(x, i + 1) == Bit(x / 2, i)
  {
    HalveAndDivide(x, Pow2(i));
  }

  lemma HalveAndDivide(x: nat, p: nat)
    requires p > 0
    ensures x / 2 / p == x / (2 * p)
  {
    var q, r := x / 2 / p, (x / 2) % p;
    assert x / 2 == p * q + r;
    assert (2 * p) * q == 2 * (p * q);
    QuotientIs(x, 2 * p, q, 2 * r + x % 2);
  }

  lemma ZeroBits(x: nat, i: nat)
    requires x < Pow2(i)
    ensures Bit(x, i) == 0
  {
    QuotientIs(x, Pow2(i), 0, x);
  }

  // ---------------------------------------------------------------------------
  // Bitwise operations
  // ---------------------------------------------------------------------------

  lemma {:induction false} BitwiseOperations(x: nat, y: nat, i: nat)
    ensures Bit(And(x, y), i) == Bit(x, i) * Bit(y, i)
    ensures Bit(Or(x, y), i) == if Bit(x, i) + Bit(y, i) > 0 then 1 else 0
    ensures Bit(Xor(x, y), i) == (Bit(x, i) + Bit(y, i)) % 2
  {
    ZeroHasNoBits(i);
    if x == 0 || y == 0 {
    } else if i == 0 {
      assert Pow2(0) == 1;
    } else {
      BitShift(x, i - 1);
      BitShift(y, i - 1);
      BitShift(And(x, y), i - 1);
      BitShift(Or(x, y), i - 1);
      BitShift(Xor(x, y), i - 1);
      assert And(x, y) / 2 == And(x / 2, y / 2) && Or(x, y) / 2 == Or(x / 2, y / 2) && Xor(x, y) / 2 == Xor(x / 2, y / 2);
      BitwiseOperations(x / 2, y / 2, i - 1);
    }
  }

  lemma ZeroHasNoBits(i: nat)
    ensures Bit(0, i) == 0
  {
    ZeroBits(0, i);
  }

  lemma {:induction false} ComplementBits(x: nat, n: nat, i: nat)
    requires x < Pow2(n) && i < n
    ensures Bit(Pow2(n) - 1 - x, i) == 1 - Bit(x, i)
  {
    var c := Pow2(n) - 1 - x;
    assert c / 2 == Pow2(n - 1) - 1 - x / 2 && c % 2 == 1 - x % 2;
    if i == 0 {
      assert Pow2(0) == 1;
    } else {
      BitShift(x, i - 1);
      BitShift(c, i - 1);
      ComplementBits(x / 2, n - 1, i - 1);
    }
  }

  lemma {:induction false} ShiftedBits(x: nat, n: nat, i: nat)
    ensures Bit(x * Pow2(n), i) == if i < n then 0 else Bit(x, i - n)
  {
    if n == 0 {
      assert x * Pow2(0) == x;
    } else {
      var y := x * Pow2(n - 1);
      assert x * Pow2(n) == 2 * y;
      if i == 0 {
        assert Pow2(0) == 1;
      } else {
        BitShift(2 * y, i - 1);
        ShiftedBits(x, n - 1, i - 1);
      }
    }
  }

  lemma {:induction false} LowBits(x: nat, n: nat, i: nat)
    requires i < n
    ensures Bit(x % Pow2(n), i) == Bit(x, i)
  {
    RemainderHalves(x, Pow2(n - 1));
    var r := x % Pow2(n);
    if i == 0 {
      assert Pow2(0) == 1;
    } else {
      BitShift(x, i - 1);
      BitShift(r, i - 1);
      LowBits(x / 2, n - 1, i - 1);
    }
  }

  lemma RemainderHalves(x: nat, p: nat)
    requires p > 0
    ensures (x % (2 * p)) / 2 == (x / 2) % p && (x % (2 * p)) % 2 == x % 2
  {
    var q, r := x / 2 / p, (x / 2) % p;
    assert x / 2 == p * q + r;
    assert (2 * p) * q == 2 * (p * q);
    QuotientIs(x, 2 * p, q, 2 * r + x % 2);
  }

  lemma {:induction false} HighBits(x: nat, n: nat, y: nat, i: nat)
    requires y == x / Pow2(n)
    ensures Bit(y, i) == Bit(x, i + n)
    decreases n
  {
    if n == 0 {
      assert Pow2(0) == 1 && y == x;
    } else {
      HalveAndDivide(x, Pow2(n - 1));
      HighBits(x / 2, n - 1, y, i);
      BitShift(x, i + n - 1);
    }
  }

  // ---------------------------------------------------------------------------
  // Words
  // ---------------------------------------------------------------------------

  lemma WordOperations(x: Word, y: Word, i: nat)
    requires i < 32
    ensures Bit(And32(x, y), i) == Bit(x, i) * Bit(y, i)
    ensures Bit(Or32(x, y), i) == if Bit(x, i) + Bit(y, i) > 0 then 1 else 0
    ensures Bit(Xor32(x, y), i) == (Bit(x, i) + Bit(y, i)) % 2
    ensures Bit(Not32(x), i) == 1 - Bit(x, i)
  {
    hide Bit, And, Or, Xor;
    BitwiseOperations(x, y, i);
    Pow2Values();
    ComplementBits(x, 32, i);
  }

  /** The sum of two words, less 2^32 if it does not fit. */
  lemma WordSum(x: Word, y: Word)
    ensures Add32(x, y) == if x + y < 0x1_0000_0000 then x + y else x + y - 0x1_0000_0000
  {
  }

  /** The circular shift moves every bit n places to the left, and the last ones round. */
  lemma RotatedBits(n: nat, x: Word, i: nat)
    requires 0 < n < 32 && i < 32
    ensures Bit(RotL(n, x), i) == Bit(x, (i + 32 - n) % 32)
  {
    hide Bit, Or32, Pow2;
    Pow2Values();
    ShiftedBits(x, n, i);
    LowBits(x * Pow2(n), 32, i);
    HighBits(x, 32 - n, ShiftRight32(x, 32 - n), i);
    WordOperations(ShiftLeft32(x, n), ShiftRight32(x, 32 - n), i);
    if i >= n {
      NoHighBits(x, i + 32 - n);
    }
  }

  lemma NoHighBits(x: Word, i: nat)
    requires i >= 32
    ensures Bit(x, i) == 0
  {
    hide Pow2;
    Pow2Values();
    QuotientIs(x, 0x1_0000_0000, 0, x);
    HighBits(x, 32, 0, i - 32);
    ZeroHasNoBits(i - 32);
  }

  // ---------------------------------------------------------------------------
  // The functions and constants of FIPS PUB 180-1
  // ---------------------------------------------------------------------------

  /** Bit by bit: a choice by b, a parity, a majority, and a parity. */
  lemma LogicalFunctions(t: nat, b: Word, c: Word, d: Word, i: nat)
    requires i < 32
    ensures t < 20 ==> Bit(F(t, b, c, d), i) == if Bit(b, i) == 1 then Bit(c, i) else Bit(d, i)
    ensures 20 <= t < 40 || 60 <= t ==> Bit(F(t, b, c, d), i) == (Bit(b, i) + Bit(c, i) + Bit(d, i)) % 2
    ensures 40 <= t < 60 ==> Bit(F(t, b, c, d), i) == if Bit(b, i) + Bit(c, i) + Bit(d, i) >= 2 then 1 else 0
  {
    hide Bit, And32, Or32, Xor32, Not32;
    BitRange(b, i);
    BitRange(c, i);
    BitRange(d, i);
    WordOperations(b, c, i);
    WordOperations(b, d, i);
    WordOperations(c, d, i);
    WordOperations(Not32(b), d, i);
    WordOperations(And32(b, c), And32(Not32(b), d), i);
    WordOperations(And32(b, c), And32(b, d), i);
    WordOperations(Or32(And32(b, c), And32(b, d)), And32(c, d), i);
    WordOperations(Xor32(b, c), d, i);
  }

  lemma BitRange(x: nat, i: nat)
    ensures Bit(x, i) == 0 || Bit(x, i) == 1
  {
  }

  /** The constants are the whole parts of 2^30 times the square roots of 2, 3, 5 and 10. */
  lemma Constants(t: nat)
    ensures var n := if t < 20 then 2 else if t < 40 then 3 else if t < 60 then 5 else 10;
      K(t) * K(t) <= n * 0x1000_0000_0000_0000 < (K(t) + 1) * (K(t) + 1)
  {
  }

  /** The initial words hold the octets 01 to EF and FE to 10, each with its low octet first,
      and then F0, E1, D2 and C3. */
  lemma InitialOctets()
    ensures INITIAL == Chain(WordOf(0x67, 0x45, 0x23, 0x01), WordOf(0xEF, 0xCD, 0xAB, 0x89),
                             WordOf(0x98, 0xBA, 0xDC, 0xFE), WordOf(0x10, 0x32, 0x54, 0x76),
                             WordOf(0xC3, 0xD2, 0xE1, 0xF0))
  {
  }
}
