/** Definitions that several of the modules share. */
module Common {

  datatype Option<T> = None | Some(value: T)

  function Factorial(n: nat): (f: nat)
    ensures f > 0
  {
    if n == 0 then 1 else n * Factorial(n - 1)
  }

  lemma ProductAtLeast(a: int, b: int, c: int, d: int)
    requires 0 <= c <= a && 0 <= d <= b
    ensures a * b >= c * d
  {
    assert a * b >= c * b >= c * d;
  }

  /** Quotient and remainder are determined by the range of the remainder. */
  lemma QuotientIs(v: int, d: int, q: int, r: int)
    requires v == d * q + r && 0 <= r < d
    ensures v / d == q && v % d == r
  {
    var p := v / d;
    assert d * (p - q) == d * p - d * q && d * (q - p) == d * q - d * p;
    if p > q {
      ProductAtLeast(d, p - q, d, 1);
    } else if p < q {
      ProductAtLeast(d, q - p, d, 1);
    }
  }
}
