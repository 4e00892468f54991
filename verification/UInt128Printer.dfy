/** Decimal numerals, and their printing by long division on two 64-bit halves. */
module Decimal {

  function Digit(d: nat): (c: char)
    requires d < 10
    ensures '0' <= c <= '9'
  {
    '0' + d as char
  }

  /** The decimal numeral of v. */
  function Numeral(v: nat): (s: string)
    ensures |s| > 0
  {
    if v < 10 then [Digit(v)] else Numeral(v / 10) + [Digit(v % 10)]
  }

  function SignedNumeral(v: int): string {
    if v < 0 then "-" + Numeral(-v) else Numeral(v)
  }

  function Value(s: string): nat
    requires forall i :: 0 <= i < |s| ==> '0' <= s[i] <= '9'
  {
    if s == "" then 0 else 10 * Value(s[..|s| - 1]) + (s[|s| - 1] - '0') as nat
  }

  /** A numeral has the value it is written for, and no leading zero. */
  lemma {:induction false} NumeralValue(v: nat)
    ensures forall i :: 0 <= i < |Numeral(v)| ==> '0' <= Numeral(v)[i] <= '9'
    ensures Value(Numeral(v)) == v
    ensures v > 0 ==> Numeral(v)[0] != '0'
  {
    if v >= 10 {
      NumeralValue(v / 10);
      assert Numeral(v)[..|Numeral(v)| - 1] == Numeral(v / 10);
    } else {
      assert Value([Digit(v)]) == 10 * Value([]) + v;
    }
  }

  lemma SignedNumeralCharacters(v: int)
    ensures forall c :: c in SignedNumeral(v) ==> c == '-' || '0' <= c <= '9'
  {
    NumeralValue(if v < 0 then -v else v);
  }

  /** Different numbers have different numerals. */
  lemma SignedNumeralIsUnambiguous(v: int, w: int)
    requires SignedNumeral(v) == SignedNumeral(w)
    ensures v == w
  {
    NumeralValue(if v < 0 then -v else v);
    NumeralValue(if w < 0 then -w else w);
    if v < 0 {
      assert SignedNumeral(v)[0] == '-' && SignedNumeral(v)[1..] == Numeral(-v);
    }
    if w < 0 {
      assert SignedNumeral(w)[0] == '-' && SignedNumeral(w)[1..] == Numeral(-w);
    }
  }

  function Pow10(n: nat): nat {
    if n == 0 then 1 else 10 * Pow10(n - 1)
  }
}

module UInt128Printer {
  import opened Bytes
  import opened Decimal

  const TWO_TO_128: int := 0x1_0000_0000_0000_0000_0000_0000_0000_0000

  type UInt64 = x: int | 0 <= x < TWO_TO_64

  /** Unsigned 64-bit arithmetic wraps around. */
  function Add64(x: UInt64, y: UInt64): UInt64 { (x + y) % TWO_TO_64 }

  function Mul64(x: UInt64, y: UInt64): UInt64 { (x * y) % TWO_TO_64 }

  const QUOTIENT: UInt64 := 1844674407370955161

  /** One step of the long division by ten, on numbers. */
  function NextLow(highMod: nat, low: nat): nat {
    low / 10 + highMod * QUOTIENT + (6 * highMod + low % 10) / 10
  }

  /** The step divides the 128-bit value by ten, the carry holds the remainder, and none of
      the sums and products overflows 64 bits. */
  lemma DivisionStep(high: UInt64, low: UInt64)
    ensures var highMod := high % 10;
      && (TWO_TO_64 * high + low) / 10 == TWO_TO_64 * (high / 10) + NextLow(highMod, low)
      && (TWO_TO_64 * high + low) % 10 == (6 * highMod + low % 10) % 10
      && NextLow(highMod, low) < TWO_TO_64
      && highMod * QUOTIENT < TWO_TO_64 && low / 10 + highMod * QUOTIENT < TWO_TO_64
  {
    var h, m, q, r := high / 10, high % 10, low / 10, low % 10;
    var carry := 6 * m + r;
    assert TWO_TO_64 == 10 * QUOTIENT + 6;
    assert TWO_TO_64 * high + low == 10 * (TWO_TO_64 * h + m * QUOTIENT + q) + carry;
    assert carry == 10 * (carry / 10) + carry % 10;
    if m == 9 && q >= QUOTIENT {
      assert r <= 5;
    }
  }

  /** The same for the wrapping operations of the code. */
  lemma WrappedStep(high: UInt64, low: UInt64)
    ensures var highMod := high % 10;
      var carry := Add64(Mul64(6, highMod), low % 10);
      var low' := Add64(Add64(low / 10, Mul64(highMod, QUOTIENT)), carry / 10);
      && (TWO_TO_64 * high + low) / 10 == TWO_TO_64 * (high / 10) + low'
      && (TWO_TO_64 * high + low) % 10 == carry % 10
  {
    hide Add64, Mul64;
    DivisionStep(high, low);
    var highMod := high % 10;
    NoWrap(6, highMod);
    NoWrap(6 * highMod, low % 10);
    NoWrap(highMod, QUOTIENT);
    NoWrap(low / 10, highMod * QUOTIENT);
    NoWrap(low / 10 + highMod * QUOTIENT, (6 * highMod + low % 10) / 10);
  }

  lemma NoWrap(x: UInt64, y: UInt64)
    ensures x + y < TWO_TO_64 ==> Add64(x, y) == x + y
    ensures x * y < TWO_TO_64 ==> Mul64(x, y) == x * y
  {
    if x * y < TWO_TO_64 {
      SmallProduct(x * y);
    }
  }

  lemma SmallProduct(z: int)
    requires 0 <= z < TWO_TO_64
    ensures z % TWO_TO_64 == z
  {
  }

  /** The largest value the low half takes is reached. */
  lemma LowHalfIsTight()
    ensures NextLow(9, TWO_TO_64 - 1) == TWO_TO_64 - 1
  {
  }

  method PrintUInt128(v: nat) returns (text: string)
    requires v < TWO_TO_128
    ensures text == Numeral(v)
  {
    hide Numeral, Pow10, Add64, Mul64;
    if v == 0 {
      ZeroNumeral();
      return "0";
    }
    var buf := new char[40];
    var p := buf.Length;
    var high: UInt64, low: UInt64 := v / TWO_TO_64, v % TWO_TO_64;
    p := p - 1;
    buf[p] := '\0';
    ghost var n := v;
    FitsBuffer(v);
    while high != 0 || low != 0
      invariant 0 <= p <= 39 && buf[39] == '\0'
      invariant n == TWO_TO_64 * high + low < Pow10(p)
      invariant n > 0 ==> Numeral(v) == Numeral(n) + buf[p..39]
      invariant n == 0 ==> Numeral(v) == buf[p..39]
      decreases n
    {
      WrappedStep(high, low);
      PositiveBelowPower(n, p);
      NumeralStep(n);
      var highMod := high % 10;
      high := high / 10;
      var carry := Add64(Mul64(6, highMod), low % 10);
      low := Add64(Add64(low / 10, Mul64(highMod, QUOTIENT)), carry / 10);
      var digit := carry % 10;
      ghost var after := buf[p..39];
      p := p - 1;
      buf[p] := Digit(digit);
      assert buf[p..39] == [Digit(digit)] + after;
      n := n / 10;
    }
    text := buf[p..39];
  }

  lemma ZeroNumeral()
    ensures Numeral(0) == "0"
  {
  }

  lemma FitsBuffer(v: nat)
    requires v < TWO_TO_128
    ensures v < Pow10(39) && v < TWO_TO_64 * TWO_TO_64 == TWO_TO_128
  {
    assert Pow10(10) == 10_000_000_000 && Pow10(20) == 100_000_000_000_000_000_000;
    assert Pow10(30) == 1_000_000_000_000_000_000_000_000_000_000;
    assert Pow10(39) == 1_000_000_000_000_000_000_000_000_000_000_000_000_000;
  }

  lemma PositiveBelowPower(n: nat, p: nat)
    requires 0 < n < Pow10(p)
    ensures p > 0 && n / 10 < Pow10(p - 1)
  {
  }

  lemma NumeralStep(n: nat)
    ensures n >= 10 ==> Numeral(n) == Numeral(n / 10) + [Digit(n % 10)]
    ensures n < 10 ==> n / 10 == 0 && Numeral(n) == [Digit(n % 10)]
  {
  }

  lemma TwosComplement(v: int)
    requires -TWO_TO_128 / 2 <= v < TWO_TO_128 / 2
    ensures v >= 0 ==> v % TWO_TO_128 == v
    ensures v < 0 ==> v % TWO_TO_128 == TWO_TO_128 + v && (TWO_TO_128 - v % TWO_TO_128) % TWO_TO_128 == -v
  {
  }

  /** The signed printer negates modulo 2^128. */
  method PrintInt128(v: int) returns (text: string)
    requires -TWO_TO_128 / 2 <= v < TWO_TO_128 / 2
    ensures text == SignedNumeral(v)
  {
    TwosComplement(v);
    var uv := v % TWO_TO_128;
    text := "";
    if v < 0 {
      text := "-";
      uv := (TWO_TO_128 - uv) % TWO_TO_128;
    }
    var digits := PrintUInt128(uv);
    text := text + digits;
  }
}
