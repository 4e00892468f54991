/**
  The prime tables of the googletest samples: trial division, a sieve, and the table that uses
  the sieve with trial division to fall back on. Numbers are mathematical integers.
 */
module PrimeTables {
  import opened Common

  // ---------------------------------------------------------------------------
  // Primes
  // ---------------------------------------------------------------------------

  /** n has a divisor other than 1 and n that is smaller than bound. */
  ghost predicate HasFactorBelow(n: int, bound: int) {
    exists d :: 2 <= d < bound && d < n && n % d == 0
  }

  ghost predicate Prime(n: int) {
    n >= 2 && !HasFactorBelow(n, n)
  }

  /** r is the smallest prime greater than p. */
  ghost predicate IsNextPrime(p: int, r: int) {
    p < r && Prime(r) && forall n :: p < n < r ==> !Prime(n)
  }

  lemma MultipleHasRemainderZero(d: int, k: nat)
    requires d > 0
    ensures (d * k) % d == 0
  {
    RemainderOfSum(d, k, 0);
  }

  lemma RemainderOfSum(d: int, k: int, r: int)
    requires 0 <= r < d
    ensures (d * k + r) % d == r
  {
    QuotientIs(d * k + r, d, k, r);
  }

  lemma DivisorsCompose(a: int, b: int, c: int)
    requires a > 0 && b > 0 && c >= 0 && b % a == 0 && c % b == 0
    ensures c % a == 0
  {
    var j, k := b / a, c / b;
    assert c == (a * j) * k == a * (j * k);
    MultipleHasRemainderZero(a, j * k);
  }

  /** The other factor of a composite number. */
  lemma Cofactor(n: int, d: int)
    requires 2 <= d < n && n % d == 0
    ensures n == d * (n / d) && 2 <= n / d < n && n % (n / d) == 0
  {
    var q := n / d;
    assert n == d * q;
    assert q >= 2;
    MultipleHasRemainderZero(q, d);
  }

  /** It is enough to look for factors up to the square root. */
  lemma SquareRootSuffices(n: int, i: int)
    requires 2 <= i && n < i * i
    ensures HasFactorBelow(n, i) <==> HasFactorBelow(n, n)
  {
    if HasFactorBelow(n, n) {
      var d :| 2 <= d < n && n % d == 0;
      Cofactor(n, d);
      if d >= i {
        var q := n / d;
        SmallerFactor(d, q, i, n);
        assert 2 <= q < i && q < n && n % q == 0;
      }
    }
  }

  lemma SmallerFactor(d: int, q: int, i: int, n: int)
    requires 2 <= i <= d && n == d * q && n < i * i
    ensures q < i
  {
    if q >= i {
      ProductAtLeast(d, q, i, i);
    }
  }

  // ---------------------------------------------------------------------------
  // There is always a larger prime
  // ---------------------------------------------------------------------------

  lemma {:induction false} FactorialDivisible(n: nat, d: int)
    requires 1 <= d <= n
    ensures Factorial(n) % d == 0
  {
    if d == n {
      MultipleHasRemainderZero(d, Factorial(n - 1));
    } else {
      FactorialDivisible(n - 1, d);
      var k := Factorial(n - 1) / d;
      assert Factorial(n) == n * (d * k) == d * (n * k);
      MultipleHasRemainderZero(d, n * k);
    }
  }

  lemma {:induction false} PrimeFactor(n: int) returns (q: int)
    requires n >= 2
    ensures Prime(q) && q <= n && n % q == 0
    decreases n
  {
    if Prime(n) {
      MultipleHasRemainderZero(n, 1);
      q := n;
    } else {
      var d :| 2 <= d < n && n % d == 0;
      q := PrimeFactor(d);
      DivisorsCompose(q, d, n);
    }
  }

  lemma LargerPrime(p: nat) returns (q: int)
    ensures Prime(q) && q > p
  {
    var f := Factorial(p);
    q := PrimeFactor(f + 1);
    if q <= p {
      FactorialDivisible(p, q);
      var k := f / q;
      assert f == q * k;
      RemainderOfSum(q, k, 1);
    }
  }

  /** Below a prime there is a first one. */
  lemma {:induction false} FirstPrime(p: int, q: int) returns (r: int)
    requires Prime(q) && p < q
    ensures IsNextPrime(p, r)
    decreases q - p
  {
    if m :| p < m < q && Prime(m) {
      r := FirstPrime(p, m);
    } else {
      r := q;
    }
  }

  /** The smallest prime greater than p. */
  ghost function NextPrime(p: int): (r: int)
    ensures IsNextPrime(p, r)
  {
    NextPrimeExists(p);
    var r :| IsNextPrime(p, r);
    r
  }

  lemma NextPrimeExists(p: int)
    ensures exists r :: IsNextPrime(p, r)
  {
    var q := LargerPrime(if p < 0 then 0 else p);
    var r := FirstPrime(p, q);
  }

  lemma NextPrimeIsUnique(p: int, r: int)
    requires IsNextPrime(p, r)
    ensures r == NextPrime(p)
  {
  }

  // ---------------------------------------------------------------------------
  // What the tables answer
  // ---------------------------------------------------------------------------

  ghost function OnTheFlyNext(p: int): int {
    if p < 0 then -1 else NextPrime(p)
  }

  /** A table of the numbers up to max. For arguments below -1 it reads before its array, and
      has no answer. */
  ghost function PreCalculatedNext(max: int, p: int): Option<int> {
    if p < -1 then None else if NextPrime(p) <= max then Some(NextPrime(p)) else Some(-1)
  }

  /** The table up to max, when there is one, and otherwise trial division. */
  ghost function HybridNext(cached: bool, max: int, p: int): Option<int> {
    if cached && p < max && PreCalculatedNext(max, p) != Some(-1) then PreCalculatedNext(max, p)
    else Some(OnTheFlyNext(p))
  }

  /** When the hybrid table agrees with trial division, for all integers. With a table it has no
      answer below -1, and for -1 it answers 2 if it holds a prime, where trial division
      answers -1. Only a table for max >= 1 can be built, and then p >= max says nothing more. */
  lemma HybridAgrees(cached: bool, max: int, p: int)
    ensures HybridNext(cached, max, p) == Some(OnTheFlyNext(p)) <==>
            !cached || p >= 0 || p >= max || (p == -1 && max < 2)
    ensures max >= 1 ==>
      (HybridNext(cached, max, p) == Some(OnTheFlyNext(p)) <==> !cached || p >= 0 || (p == -1 && max < 2))
    ensures cached && p == -1 && max >= 2 ==> HybridNext(cached, max, p) == Some(2)
    ensures cached && p < -1 && p < max ==> HybridNext(cached, max, p) == None
  {
    assert Prime(2);
    if p == -1 {
      NextPrimeIsUnique(-1, 2);
    }
  }

  // ---------------------------------------------------------------------------
  // Trial division
  // ---------------------------------------------------------------------------

  class OnTheFlyPrimeTable {
    constructor () {
    }

    method IsPrime(n: int) returns (r: bool)
      ensures r <==> Prime(n)
    {
      if n <= 1 {
        return false;
      }
      var i := 2;
      while i * i <= n
        invariant 2 <= i && !HasFactorBelow(n, i)
        decreases n - i
      {
        SquareIsLarger(i);
        if n % i == 0 {
          assert HasFactorBelow(n, n);
          return false;
        }
        i := i + 1;
      }
      SquareRootSuffices(n, i);
      return true;
    }

    method GetNextPrime(p: int) returns (r: int)
      ensures r == OnTheFlyNext(p)
    {
      if p < 0 {
        return -1;
      }
      ghost var q := LargerPrime(p);
      var n := p + 1;
      while true
        invariant p < n <= q && forall m :: p < m < n ==> !Prime(m)
        decreases q - n
      {
        var prime := IsPrime(n);
        if prime {
          NextPrimeIsUnique(p, n);
          return n;
        }
        n := n + 1;
      }
    }
  }

  lemma SquareIsLarger(i: int)
    requires i >= 2
    ensures i * i > i
  {
  }

  // ---------------------------------------------------------------------------
  // The sieve
  // ---------------------------------------------------------------------------

  /** Striking out the multiples of a prime i from i * i on strikes out all of them that still
      stand. */
  lemma FactorsUpTo(n: int, i: int)
    requires n >= 2 && i >= 2 && !HasFactorBelow(i, i)
    ensures HasFactorBelow(n, i + 1) <==> HasFactorBelow(n, i) || (i * i <= n && n % i == 0)
  {
    SquareIsLarger(i);
    if i * i <= n && n % i == 0 {
      assert 2 <= i < i + 1 && i < n;
    }
    if i < n && n % i == 0 {
      Cofactor(n, i);
      var q := n / i;
      if q < i {
        assert 2 <= q < i && q < n && n % q == 0;
      } else {
        ProductAtLeast(i, q, i, i);
      }
    }
  }

  /** The multiples of a composite i have a smaller factor. */
  lemma NoNewFactors(n: int, i: int)
    requires n >= 2 && i >= 2 && HasFactorBelow(i, i)
    ensures HasFactorBelow(n, i + 1) <==> HasFactorBelow(n, i)
  {
    if i < n && n % i == 0 {
      var d :| 2 <= d < i && i % d == 0;
      DivisorsCompose(d, i, n);
      assert 2 <= d < i && d < n && n % d == 0;
    }
  }

  class PreCalculatedPrimeTable {
    const isPrimeSize: int
    const isPrime: array<bool>
    /** Whether the constructor stayed inside the array. */
    var built: bool

    /** The table tells the primes from the other numbers. */
    ghost predicate Valid()
      reads this, isPrime
    {
      && built && isPrimeSize == isPrime.Length >= 2
      && forall n :: 0 <= n < isPrimeSize ==> (isPrime[n] <==> Prime(n))
    }

    /** The sieve writes the entry of 1, which a table for max < 1 does not have. */
    constructor (max: int)
      ensures isPrimeSize == isPrime.Length == (if max >= 0 then max + 1 else 1) && fresh(isPrime)
      ensures built <==> max >= 1
      ensures built ==> Valid()
    {
      isPrimeSize := if 1 < max + 1 then max + 1 else 1;
      isPrime := new bool[if 1 < max + 1 then max + 1 else 1];
      new;
      built := CalculatePrimesUpTo(isPrimeSize - 1);
    }

    method IsPrime(n: int) returns (r: bool)
      requires Valid()
      ensures r <==> n < isPrimeSize && Prime(n)
    {
      return 0 <= n && n < isPrimeSize && isPrime[n];
    }

    /** No answer means a read before the array. */
    method GetNextPrime(p: int) returns (r: Option<int>)
      requires Valid()
      ensures r == PreCalculatedNext(isPrimeSize - 1, p)
    {
      var n := p + 1;
      while n < isPrimeSize
        invariant p < n && (p < -1 ==> n == p + 1)
        invariant forall m :: p < m < n && m < isPrimeSize ==> !Prime(m)
      {
        if n < 0 {
          return None;
        }
        if isPrime[n] {
          NextPrimeIsUnique(p, n);
          return Some(n);
        }
        n := n + 1;
      }
      return Some(-1);
    }

    method CalculatePrimesUpTo(max: int) returns (inside: bool)
      requires isPrimeSize == isPrime.Length == max + 1
      modifies isPrime
      ensures inside <==> max >= 1
      ensures inside ==> forall n :: 0 <= n < isPrimeSize ==> (isPrime[n] <==> Prime(n))
    {
      hide Sieved;
      for k := 0 to isPrimeSize
        invariant forall n :: 0 <= n < k ==> isPrime[n]
      {
        isPrime[k] := true;
      }
      if isPrime.Length < 2 {
        return false;
      }
      isPrime[0] := false;
      isPrime[1] := false;
      NotYetSieved();
      var i := 2;
      while i * i <= max
        invariant 2 <= i && (i == 2 || i % 2 == 1)
        invariant !isPrime[0] && !isPrime[1]
        invariant Sieved(i)
        decreases max - i
      {
        SquareIsLarger(i);
        if isPrime[i] {
          StrikeOut(i, max);
        } else {
          SkipComposite(i);
        }
        if i % 2 == 1 {
          SkipEven(i + 1);
        }
        i := i + i % 2 + 1;
      }
      SievedFully(i);
      return true;
    }

    /** Before the first candidate nothing has been struck out. */
    lemma NotYetSieved()
      requires forall n :: 2 <= n < isPrime.Length ==> isPrime[n]
      ensures Sieved(2)
    {
    }

    lemma SkipComposite(i: int)
      requires 2 <= i < isPrime.Length && Sieved(i) && !isPrime[i]
      ensures Sieved(i + 1)
    {
      forall n | 2 <= n < isPrime.Length ensures HasFactorBelow(n, i + 1) <==> HasFactorBelow(n, i) {
        NoNewFactors(n, i);
      }
    }

    lemma SievedFully(i: int)
      requires i >= 2 && Sieved(i) && isPrime.Length <= i * i
      ensures forall n :: 2 <= n < isPrime.Length ==> (isPrime[n] <==> Prime(n))
    {
      forall n | 2 <= n < isPrime.Length ensures isPrime[n] <==> Prime(n) {
        SquareRootSuffices(n, i);
      }
    }

    /** Exactly the numbers with a factor below i have been struck out. */
    ghost predicate Sieved(i: int)
      reads isPrime
    {
      forall n :: 2 <= n < isPrime.Length ==> (isPrime[n] <==> !HasFactorBelow(n, i))
    }

    /** The inner loop of the sieve. */
    method StrikeOut(i: int, max: int)
      requires isPrime.Length == max + 1 && 2 <= i < isPrime.Length && isPrime[i] && Sieved(i)
      modifies isPrime
      ensures Sieved(i + 1) && isPrime[0] == old(isPrime[0]) && isPrime[1] == old(isPrime[1])
    {
      SquareIsLarger(i);
      var j := i * i;
      ghost var k := i;
      while j <= max
        invariant j == i * k && i <= k && i * i <= j
        invariant forall n :: 0 <= n <= max ==> (isPrime[n] <==> old(isPrime[n]) && !(i * i <= n < j && n % i == 0))
        decreases max - j
      {
        MultipleHasRemainderZero(i, k);
        NextMultiple(i, k);
        isPrime[j] := false;
        j := j + i;
        k := k + 1;
      }
      forall n | 2 <= n <= max ensures isPrime[n] <==> !HasFactorBelow(n, i + 1) {
        FactorsUpTo(n, i);
      }
    }

    lemma SkipEven(e: int)
      requires e >= 4 && e % 2 == 0
      requires Sieved(e)
      ensures Sieved(e + 1)
    {
      forall n | 2 <= n < isPrime.Length ensures HasFactorBelow(n, e + 1) <==> HasFactorBelow(n, e) {
        if e < n && n % e == 0 {
          DivisorsCompose(2, e, n);
          assert 2 <= 2 < e && 2 < n && n % 2 == 0;
        }
      }
    }
  }

  /** There is one multiple of i from i * k up to the next. */
  lemma NextMultiple(i: int, k: int)
    requires i >= 2
    ensures i * (k + 1) == i * k + i
    ensures forall n :: i * k <= n < i * k + i && n % i == 0 ==> n == i * k
  {
    forall n | i * k <= n < i * k + i && n % i == 0 ensures n == i * k {
      var q := n / i;
      assert n == i * q;
      if q > k {
        GapAtLeast(i, q, k);
      } else if q < k {
        GapAtLeast(i, k, q);
      }
    }
  }

  lemma GapAtLeast(i: int, a: int, b: int)
    requires i >= 2 && a > b
    ensures i * a >= i * b + i
  {
    ProductAtLeast(i, a - b, i, 1);
    assert i * (a - b) == i * a - i * b;
  }

  // ---------------------------------------------------------------------------
  // The hybrid table
  // ---------------------------------------------------------------------------

  /** A table of the numbers up to the maximum, when there is one, and trial division. */
  class HybridPrimeTable {
    const onTheFlyImpl: OnTheFlyPrimeTable
    const precalcImpl: PreCalculatedPrimeTable?
    const maxPrecalculated: int

    ghost predicate Valid()
      reads if precalcImpl == null then {} else {precalcImpl, precalcImpl.isPrime}
    {
      precalcImpl != null ==> precalcImpl.Valid() && precalcImpl.isPrimeSize == maxPrecalculated + 1
    }

    constructor (forceOnTheFly: bool, max: int)
      ensures maxPrecalculated == max && (precalcImpl == null <==> forceOnTheFly)
      ensures Valid() <==> forceOnTheFly || max >= 1
    {
      onTheFlyImpl := new OnTheFlyPrimeTable();
      maxPrecalculated := max;
      if forceOnTheFly {
        precalcImpl := null;
      } else {
        precalcImpl := new PreCalculatedPrimeTable(max);
      }
    }

    method IsPrime(n: int) returns (r: bool)
      requires Valid()
      ensures r <==> Prime(n)
    {
      if precalcImpl != null && n < maxPrecalculated {
        r := precalcImpl.IsPrime(n);
      } else {
        r := onTheFlyImpl.IsPrime(n);
      }
    }

    /** No answer means a read before the array of the table. */
    method GetNextPrime(p: int) returns (r: Option<int>)
      requires Valid()
      ensures r == HybridNext(precalcImpl != null, maxPrecalculated, p)
    {
      var nextPrime := Some(-1);
      if precalcImpl != null && p < maxPrecalculated {
        nextPrime := precalcImpl.GetNextPrime(p);
      }
      if nextPrime != Some(-1) {
        return nextPrime;
      }
      var onTheFly := onTheFlyImpl.GetNextPrime(p);
      return Some(onTheFly);
    }
  }
}
