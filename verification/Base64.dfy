/**
  Base64: the encoding of section 4 of RFC 4648, the two encoders of the websocket handler,
  and gmock's decoder.
 */
module Base64 {
  import opened Bytes
  import opened Bits
  import opened Common

  const CAPITALS: string := ("ABCDEFGH" + "IJKLMNOP") + ("QRSTUVWX" + "YZ")

  const SMALL_LETTERS: string := ("abcdefgh" + "ijklmnop") + ("qrstuvwx" + "yz")

  const LETTERS_AND_DIGITS: string := CAPITALS + SMALL_LETTERS + "0123456789"

  const ALPHABET: string := LETTERS_AND_DIGITS + "+/"

  const URL_ALPHABET: string := LETTERS_AND_DIGITS + "-_"

  type Sextet = v: int | 0 <= v < 64

  /** The lookup in base64_chars. */
  function Symbol(v: Sextet): char { ALPHABET[v] }

  /** The same for the URL and filename safe alphabet. */
  function UrlSymbol(v: Sextet): char { URL_ALPHABET[v] }

  // ---------------------------------------------------------------------------
  // The encoding
  // ---------------------------------------------------------------------------

  /** The four 6-bit groups of a 24-bit number. */
  function Quartet(v: nat): (q: seq<Sextet>)
    requires v < 0x100_0000
    ensures |q| == 4
  {
    [v / 0x4_0000, (v / 0x1000) % 64, (v / 0x40) % 64, v % 64]
  }

  function Number(b0: Byte, b1: Byte, b2: Byte): (v: nat)
    ensures v < 0x100_0000
  {
    0x1_0000 * b0 + 0x100 * b1 + b2
  }

  function Symbols(q: seq<Sextet>): (s: string)
    ensures |s| == |q|
  {
    seq(|q|, i requires 0 <= i < |q| => Symbol(q[i]))
  }

  function Encode(d: seq<Byte>): string {
    if d == [] then []
    else if |d| == 1 then Symbols(Quartet(Number(d[0], 0, 0))[..2]) + "=="
    else if |d| == 2 then Symbols(Quartet(Number(d[0], d[1], 0))[..3]) + "="
    else Symbols(Quartet(Number(d[0], d[1], d[2]))) + Encode(d[3..])
  }

  lemma {:induction false} EncodedLength(d: seq<Byte>)
    ensures |Encode(d)| == 4 * ((|d| + 2) / 3)
  {
    hide Quartet, Number;
    if |d| >= 3 {
      EncodedLength(d[3..]);
      assert |Encode(d)| == 4 + |Encode(d[3..])|;
    }
  }

  /** Whole groups can be encoded separately. */
  lemma {:induction false} EncodeAppend(c: seq<Byte>, d: seq<Byte>, k: nat)
    requires |c| == 3 * k
    ensures Encode(c + d) == Encode(c) + Encode(d)
  {
    if c == [] {
      assert c + d == d;
    } else {
      assert (c + d)[3..] == c[3..] + d;
      EncodeAppend(c[3..], d, k - 1);
    }
  }

  // ---------------------------------------------------------------------------
  // Masks and shifts
  // ---------------------------------------------------------------------------

  /** x with n zero bits appended. */
  function Shifted(x: nat, n: nat): nat
    decreases n
  {
    if n == 0 then x else 2 * Shifted(x, n - 1)
  }

  /** And works separately on the high and the low bits. */
  lemma {:induction false} AndSplit(xh: nat, xl: nat, yh: nat, yl: nat, n: nat)
    requires xl < Pow2(n) && yl < Pow2(n)
    ensures And(Shifted(xh, n) + xl, Shifted(yh, n) + yl) == Shifted(And(xh, yh), n) + And(xl, yl)
  {
    if n > 0 {
      AndSplit(xh, xl / 2, yh, yl / 2, n - 1);
      AndDouble(Shifted(xh, n - 1), Shifted(yh, n - 1), Shifted(And(xh, yh), n - 1), xl, yl);
    }
  }

  lemma AndDouble(x: nat, y: nat, z: nat, xl: nat, yl: nat)
    requires And(x + xl / 2, y + yl / 2) == z + And(xl / 2, yl / 2)
    ensures And(2 * x + xl, 2 * y + yl) == 2 * z + And(xl, yl)
  {
    assert (2 * x + xl) / 2 == x + xl / 2 && (2 * y + yl) / 2 == y + yl / 2;
    AndHalves(2 * x + xl, 2 * y + yl);
    AndHalves(xl, yl);
  }

  lemma AndHalves(x: nat, y: nat)
    ensures And(x, y) == 2 * And(x / 2, y / 2) + (if x % 2 == 1 && y % 2 == 1 then 1 else 0)
  {
  }

  lemma {:induction false} AndOnes(x: nat, n: nat)
    requires x < Pow2(n)
    ensures And(x, Pow2(n) - 1) == x
  {
    if n > 0 && x > 0 {
      AndOnes(x / 2, n - 1);
    }
  }

  /** The masks of the encoders. */
  lemma Masks(b: Byte)
    ensures And(b, 0x03) == b % 4 && And(b, 0x0f) == b % 16 && And(b, 0x3f) == b % 64
    ensures And(b, 0xfc) / 4 == b / 4 && And(b, 0xf0) / 16 == b / 16 && And(b, 0xc0) / 64 == b / 64
  {
    Mask2(b / 4, b % 4);
    Mask4(b / 16, b % 16);
    Mask6(b / 64, b % 64);
  }

  lemma Mask2(h: nat, l: nat)
    requires l < 4 && h < 64
    ensures And(4 * h + l, 0x03) == l && And(4 * h + l, 0xfc) == 4 * h
  {
    hide And;
    assert Pow2(2) == 4 && Pow2(6) == 64 && Shifted(h, 2) == 4 * h && Shifted(63, 2) == 0xfc;
    MaskAt(h, l, 2, 6);
  }

  lemma Mask4(h: nat, l: nat)
    requires l < 16 && h < 16
    ensures And(16 * h + l, 0x0f) == l && And(16 * h + l, 0xf0) == 16 * h
  {
    hide And;
    assert Pow2(4) == 16 && Shifted(h, 4) == 16 * h && Shifted(15, 4) == 0xf0;
    MaskAt(h, l, 4, 4);
  }

  lemma Mask6(h: nat, l: nat)
    requires l < 64 && h < 4
    ensures And(64 * h + l, 0x3f) == l && And(64 * h + l, 0xc0) == 64 * h
  {
    hide And;
    assert Pow2(6) == 64 && Pow2(2) == 4 && Shifted(h, 6) == 64 * h && Shifted(3, 6) == 0xc0;
    MaskAt(h, l, 6, 2);
  }

  /** An octet made of h and l masked by the low and by the high bits. */
  lemma MaskAt(h: nat, l: nat, n: nat, m: nat)
    requires l < Pow2(n) && h < Pow2(m)
    ensures And(Shifted(h, n) + l, Pow2(n) - 1) == l
    ensures And(Shifted(h, n) + l, Shifted(Pow2(m) - 1, n)) == Shifted(h, n)
  {
    AndSplit(h, l, 0, Pow2(n) - 1, n);
    AndOnes(l, n);
    AndSplit(h, l, Pow2(m) - 1, 0, n);
    AndOnes(h, m);
    ShiftedZero(n);
  }

  lemma {:induction false} ShiftedZero(n: nat)
    ensures Shifted(0, n) == 0
  {
    if n > 0 {
      ShiftedZero(n - 1);
    }
  }

  // ---------------------------------------------------------------------------
  // The encoders
  // ---------------------------------------------------------------------------

  /** The symbols of a group computed with masks and shifts. */
  lemma QuartetByMasks(b0: Byte, b1: Byte, b2: Byte)
    ensures var q := Quartet(Number(b0, b1, b2));
      && And(b0, 0xfc) / 4 == b0 / 4 == q[0]
      && And(b0, 0x03) * 16 + And(b1, 0xf0) / 16 == Or(And(b0, 0x03) * 16, And(b1, 0xf0) / 16) == q[1]
      && And(b1, 0x0f) * 4 + And(b2, 0xc0) / 64 == Or(And(b1, 0x0f) * 4, And(b2, 0xc0) / 64) == q[2]
      && And(b2, 0x3f) == q[3]
  {
    hide And, Or;
    Masks(b0);
    Masks(b1);
    Masks(b2);
    OrBits(b0, b1, b2);
    QuartetDigits(b0, b1, b2);
  }

  lemma OrBits(b0: Byte, b1: Byte, b2: Byte)
    ensures Or((b0 % 4) * 16, b1 / 16) == (b0 % 4) * 16 + b1 / 16
    ensures Or((b1 % 16) * 4, b2 / 64) == (b1 % 16) * 4 + b2 / 64
  {
    hide Or;
    assert Pow2(2) == 4 && Pow2(4) == 16;
    OrOfDisjoint(b0 % 4, b1 / 16, 4);
    OrOfDisjoint(b1 % 16, b2 / 64, 2);
  }

  lemma QuartetDigits(b0: Byte, b1: Byte, b2: Byte)
    ensures Quartet(Number(b0, b1, b2)) == [b0 / 4, (b0 % 4) * 16 + b1 / 16, (b1 % 16) * 4 + b2 / 64, b2 % 64]
  {
    QuartetOf(b0 / 4, (b0 % 4) * 16 + b1 / 16, (b1 % 16) * 4 + b2 / 64, b2 % 64);
  }

  lemma QuartetOf(x: Sextet, y: Sextet, z: Sextet, w: Sextet)
    ensures Quartet(0x4_0000 * x + 0x1000 * y + 0x40 * z + w) == [x, y, z, w]
  {
    var v := 0x4_0000 * x + 0x1000 * y + 0x40 * z + w;
    assert v / 0x1000 == 64 * x + y;
    assert v / 0x40 == 64 * (64 * x + y) + z;
  }

  /** One group of three octets, or the one or two octets that are left. */
  function Group(b0: Byte, b1: Byte, b2: Byte, n: nat): (s: string)
    requires 1 <= n
    ensures |s| == 4
  {
    var q := Symbols(Quartet(Number(b0, b1, b2)));
    if n == 1 then q[..2] + "==" else if n == 2 then q[..3] + "=" else q
  }

  lemma GroupSymbols(b0: Byte, b1: Byte, b2: Byte, n: nat)
    requires 1 <= n
    ensures var q := Quartet(Number(b0, b1, b2));
      Group(b0, b1, b2, n) ==
        [Symbol(q[0]), Symbol(q[1]), if n > 1 then Symbol(q[2]) else '=', if n > 2 then Symbol(q[3]) else '=']
  {
    hide Quartet, Number;
  }

  /** The encoding of a prefix of whole groups is extended by the next group. */
  lemma EncodeNextGroup(d: seq<Byte>, k: nat)
    requires 3 * k < |d|
    ensures var i, n := 3 * k, |d| - 3 * k;
      && (n >= 3 ==> Encode(d[..i + 3]) == Encode(d[..i]) + Group(d[i], d[i + 1], d[i + 2], n))
      && (n < 3 ==> Encode(d) == Encode(d[..i]) + Group(d[i], if n > 1 then d[i + 1] else 0, 0, n))
  {
    hide Encode, Group;
    var i := 3 * k;
    if |d| - i >= 3 {
      EncodeSlice(d, k, i + 3);
      EncodeGroup(d[i..i + 3], |d| - i);
    } else {
      EncodeSlice(d, k, |d|);
      EncodeGroup(d[i..], |d| - i);
      assert d[..|d|] == d;
    }
  }

  lemma EncodeSlice(d: seq<Byte>, k: nat, end: nat)
    requires 3 * k <= end <= |d|
    ensures Encode(d[..end]) == Encode(d[..3 * k]) + Encode(d[3 * k..end])
  {
    hide Encode;
    EncodeAppend(d[..3 * k], d[3 * k..end], k);
    assert d[..3 * k] + d[3 * k..end] == d[..end];
  }

  lemma EncodeGroup(g: seq<Byte>, n: nat)
    requires 1 <= |g| <= 3 && (|g| == n || (|g| == 3 && n > 3))
    ensures Encode(g) == Group(g[0], if n > 1 then g[1] else 0, if n > 2 then g[2] else 0, n)
  {
    hide Quartet, Number;
    var q := Quartet(Number(g[0], if n > 1 then g[1] else 0, if n > 2 then g[2] else 0));
    assert Symbols(q)[..2] == Symbols(q[..2]) && Symbols(q)[..3] == Symbols(q[..3]);
    if n >= 3 {
      assert g[3..] == [];
    }
  }

  /** The strided encoder. Its counter is an unsigned int; no result means that the counter has
      wrapped around, after which the loop never ends. */
  method Base64Encode(data: seq<Byte>) returns (result: Option<string>)
    ensures result == if |data| < TWO_TO_32 then Some(Encode(data)) else None
  {
    hide Encode, Group, Quartet, Number, Symbol, And, Or;
    var output: string := [];
    var i := 0;
    ghost var k := 0;
    EmptyEncoding(data);
    while i < |data|
      invariant i == 3 * k < TWO_TO_32
      invariant output == Encode(if i <= |data| then data[..i] else data)
      decreases |data| - i
    {
      var bytesLeft := |data| - i;
      var b0 := data[i];
      var b1 := if bytesLeft > 1 then data[i + 1] else 0;
      var b2 := if bytesLeft > 2 then data[i + 2] else 0;
      QuartetByMasks(b0, b1, b2);
      EncodeNextGroup(data, k);
      ghost var before := output;
      GroupSymbols(b0, b1, b2, bytesLeft);
      output := output + [Symbol(b0 / 4)];
      output := output + [Symbol(Or(And(b0, 0x03) * 16, And(b1, 0xf0) / 16))];
      output := output + [if bytesLeft > 1 then Symbol(Or(And(b1, 0x0f) * 4, And(b2, 0xc0) / 64)) else '='];
      output := output + [if bytesLeft > 2 then Symbol(And(b2, 0x3f)) else '='];
      assert output == before + Group(b0, b1, b2, bytesLeft);
      if i + 3 >= TWO_TO_32 {
        return None;
      }
      i := (i + 3) % TWO_TO_32;
      k := k + 1;
    }
    assert data[..|data|] == data;
    return Some(output);
  }

  lemma EmptyEncoding(d: seq<Byte>)
    ensures Encode(d[..0]) == []
  {
  }

  /** The counter passes the length if and only if the length is below 2^32: the strided
      encoder does not terminate on longer input. */
  lemma CounterPassesLength(length: nat)
    ensures (exists k: nat :: Counter(k) >= length) <==> length < TWO_TO_32
  {
    if length < TWO_TO_32 {
      var k := (length + 2) / 3;
      assert 3 * k < TWO_TO_32;
      CounterValue(k);
    }
  }

  /** The counter after k rounds. */
  function Counter(k: nat): (c: nat)
    ensures c < TWO_TO_32
  {
    if k == 0 then 0 else (Counter(k - 1) + 3) % TWO_TO_32
  }

  lemma {:induction false} CounterValue(k: nat)
    requires 3 * k < TWO_TO_32
    ensures Counter(k) == 3 * k
  {
    if k > 0 {
      CounterValue(k - 1);
    }
  }

  /** The encoder with a three-octet accumulator. */
  method B64(data: seq<Byte>) returns (result: string)
    ensures result == Encode(data)
  {
    hide Encode, Group, Quartet, Number, Symbol, And;
    result := [];
    var byteArray3 := new Byte[3];
    var i := 0;
    ghost var k := 0;
    EmptyEncoding(data);
    for idx := 0 to |data|
      invariant idx == 3 * k + i && i < 3
      invariant byteArray3[..i] == data[3 * k..idx]
      invariant result == Encode(data[..3 * k])
    {
      byteArray3[i] := data[idx];
      i := i + 1;
      assert byteArray3[..i] == data[3 * k..idx + 1];
      if i == 3 {
        assert byteArray3[..3][0] == data[3 * k] && byteArray3[..3][1] == data[3 * k + 1] && byteArray3[..3][2] == data[3 * k + 2];
        var byteArray4 := FourSextets(byteArray3);
        EncodeNextGroup(data, k);
        GroupSymbols(data[3 * k], data[3 * k + 1], data[3 * k + 2], |data| - 3 * k);
        result := AppendSymbols(result, byteArray4, 4);
        WholeGroup(data, k);
        i := 0;
        k := k + 1;
      }
    }
    if i > 0 {
      result := LastGroup(result, byteArray3, i, data, k);
    } else {
      assert data[..3 * k] == data;
    }
  }

  /** The last part of B64, for one or two octets that are left. */
  method LastGroup(before: string, byteArray3: array<Byte>, i: nat, ghost data: seq<Byte>, ghost k: nat)
    returns (result: string)
    requires 0 < i < 3 && byteArray3.Length == 3 && |data| == 3 * k + i
    requires byteArray3[..i] == data[3 * k..] && before == Encode(data[..3 * k])
    modifies byteArray3
    ensures result == Encode(data)
  {
    hide Encode, Group, Quartet, Number, Symbol, And;
    for j := i to 3
      invariant byteArray3[..i] == data[3 * k..]
      invariant forall l :: i <= l < j ==> byteArray3[l] == 0
    {
      byteArray3[j] := 0;
    }
    assert byteArray3[..i][0] == data[3 * k] && (i > 1 ==> byteArray3[..i][1] == data[3 * k + 1]);
    var byteArray4 := FourSextets(byteArray3);
    EncodeNextGroup(data, k);
    GroupSymbols(data[3 * k], if i > 1 then data[3 * k + 1] else 0, 0, i);
    EncodedLength(data[..3 * k]);
    result := AppendSymbols(before, byteArray4, i + 1);
    ghost var c := 0;
    while |result| % 4 != 0
      invariant |result| == 4 * k + i + 1 + c <= 4 * k + 4
      invariant result == before + Symbols(byteArray4[..i + 1]) + seq(c, _ => '=')
      decreases 4 * k + 4 - |result|
    {
      result := result + ['='];
      c := c + 1;
    }
    assert result == before + Group(data[3 * k], if i > 1 then data[3 * k + 1] else 0, 0, i);
  }

  lemma WholeGroup(d: seq<Byte>, k: nat)
    requires 3 * k + 3 <= |d|
    ensures Group(d[3 * k], d[3 * k + 1], d[3 * k + 2], |d| - 3 * k) == Symbols(Quartet(Number(d[3 * k], d[3 * k + 1], d[3 * k + 2])))
  {
  }

  /** The four 6-bit values of the accumulator of B64. */
  method FourSextets(byteArray3: array<Byte>) returns (byteArray4: array<Sextet>)
    requires byteArray3.Length == 3
    ensures fresh(byteArray4) && byteArray4.Length == 4
    ensures byteArray4[..] == Quartet(Number(byteArray3[0], byteArray3[1], byteArray3[2]))
  {
    hide And, Or, Quartet;
    QuartetByMasks(byteArray3[0], byteArray3[1], byteArray3[2]);
    byteArray4 := new Sextet[4];
    byteArray4[0] := And(byteArray3[0], 0xfc) / 4;
    byteArray4[1] := And(byteArray3[0], 0x03) * 16 + And(byteArray3[1], 0xf0) / 16;
    byteArray4[2] := And(byteArray3[1], 0x0f) * 4 + And(byteArray3[2], 0xc0) / 64;
    byteArray4[3] := And(byteArray3[2], 0x3f);
  }

  /** The inner loops of B64: appends the first n symbols. */
  method AppendSymbols(s: string, byteArray4: array<Sextet>, n: nat) returns (result: string)
    requires n <= byteArray4.Length
    ensures result == s + Symbols(byteArray4[..n])
  {
    hide Symbol;
    result := s;
    for j := 0 to n
      invariant result == s + Symbols(byteArray4[..j])
    {
      result := result + [Symbol(byteArray4[j])];
    }
  }

  // ---------------------------------------------------------------------------
  // The decoder
  // ---------------------------------------------------------------------------

  function UndoWebSafeEncoding(c: char): char {
    if c == '-' then '+' else if c == '_' then '/' else c
  }

  function UnBase64Impl(c: char, base64: string, carry: nat): nat {
    if base64 == "" then 65
    else if base64[0] == c then carry
    else UnBase64Impl(c, base64[1..], carry + 1)
  }

  /** The entry of the decoding table for c. */
  function UnBase64(c: char): nat {
    UnBase64Impl(UndoWebSafeEncoding(c), ALPHABET, 0)
  }

  predicate IsSpace(c: char) {
    c == ' ' || '\t' <= c <= '\r'
  }

  /** Tab, line feed, vertical tab, form feed, carriage return and space. */
  predicate IsBlank(c: char) {
    c as int in [9, 10, 11, 12, 13, 32]
  }

  /** The values of the characters in the alphabets of sections 4 and 5 of RFC 4648; all other
      characters have the value 65. */
  function ValueOf(c: char): (v: nat)
    ensures v < 64 || v == 65
  {
    if 'A' <= c <= 'Z' then c as int - 65
    else if 'a' <= c <= 'z' then c as int - 71
    else if '0' <= c <= '9' then c as int + 4
    else if c == '+' || c == '-' then 62
    else if c == '/' || c == '_' then 63
    else 65
  }

  /** The values of the characters of s other than white space and padding, if all have one. */
  function Sextets(s: string): Option<seq<Sextet>> {
    if s == "" then Some([])
    else if IsBlank(s[0]) || s[0] == '=' then Sextets(s[1..])
    else if ValueOf(s[0]) >= 64 then None
    else match Sextets(s[1..])
      case None => None
      case Some(q) => Some([ValueOf(s[0])] + q)
  }

  /** The three octets of a 24-bit number. */
  function Triple(q0: Sextet, q1: Sextet, q2: Sextet, q3: Sextet): (t: seq<Byte>)
    ensures |t| == 3
  {
    BigEndian(0x4_0000 * q0 + 0x1000 * q1 + 0x40 * q2 + q3, 3)
  }

  /** The octets that a sequence of 6-bit groups fills. */
  function FromSextets(q: seq<Sextet>): seq<Byte> {
    if |q| < 2 then []
    else if |q| == 2 then Triple(q[0], q[1], 0, 0)[..1]
    else if |q| == 3 then Triple(q[0], q[1], q[2], 0)[..2]
    else Triple(q[0], q[1], q[2], q[3]) + FromSextets(q[4..])
  }

  /** The scan from position k finds c at its first position there, or yields 65. */
  lemma {:induction false} TableScan(c: char, table: string, k: nat)
    requires k <= |table|
    ensures var t := UnBase64Impl(c, table[k..], k);
      if c in table[k..] then k <= t < |table| && table[t] == c else t == 65
    decreases |table| - k
  {
    if k == |table| {
      assert table[k..] == "";
    } else {
      assert table[k..] == [table[k]] + table[k + 1..];
      assert table[k..][0] == table[k] && table[k..][1..] == table[k + 1..];
      if table[k] != c {
        TableScan(c, table, k + 1);
      }
    }
  }

  /** The symbol values in closed form. */
  lemma SymbolCode(v: Sextet)
    ensures Symbol(v) as int ==
      if v < 26 then 65 + v else if v < 52 then 71 + v else if v < 62 then v - 4 else if v == 62 then 43 else 47
  {
    hide Symbol;
    AlphabetParts(v);
    if v < 62 {
      LetterOrDigit(v);
    }
  }

  /** The two alphabets differ in their last two symbols. */
  lemma AlphabetParts(v: Sextet)
    ensures |LETTERS_AND_DIGITS| == 62
    ensures v < 62 ==> Symbol(v) == UrlSymbol(v) == LETTERS_AND_DIGITS[v]
    ensures v == 62 ==> Symbol(v) == '+' && UrlSymbol(v) == '-'
    ensures v == 63 ==> Symbol(v) == '/' && UrlSymbol(v) == '_'
  {
  }

  lemma LetterOrDigit(v: nat)
    requires v < 62 && |LETTERS_AND_DIGITS| == 62
    ensures LETTERS_AND_DIGITS[v] as int == if v < 26 then 65 + v else if v < 52 then 71 + v else v - 4
  {
    LetterCounts();
    if v < 26 {
      Capital(v);
    } else if v < 52 {
      SmallLetter(v - 26);
    }
  }

  lemma LetterCounts()
    ensures |CAPITALS| == |SMALL_LETTERS| == 26
  {
  }

  lemma Capital(v: nat)
    requires v < 26 && |CAPITALS| == 26
    ensures CAPITALS[v] as int == 65 + v
  {
    match v {
      case 0 =>
      case 1 =>
      case 2 =>
      case 3 =>
      case 4 =>
      case 5 =>
      case 6 =>
      case 7 =>
      case 8 =>
      case 9 =>
      case 10 =>
      case 11 =>
      case 12 =>
      case 13 =>
      case 14 =>
      case 15 =>
      case 16 =>
      case 17 =>
      case 18 =>
      case 19 =>
      case 20 =>
      case 21 =>
      case 22 =>
      case 23 =>
      case 24 =>
      case 25 =>
    }
  }

  lemma SmallLetter(v: nat)
    requires v < 26 && |SMALL_LETTERS| == 26
    ensures SMALL_LETTERS[v] as int == 97 + v
  {
    match v {
      case 0 =>
      case 1 =>
      case 2 =>
      case 3 =>
      case 4 =>
      case 5 =>
      case 6 =>
      case 7 =>
      case 8 =>
      case 9 =>
      case 10 =>
      case 11 =>
      case 12 =>
      case 13 =>
      case 14 =>
      case 15 =>
      case 16 =>
      case 17 =>
      case 18 =>
      case 19 =>
      case 20 =>
      case 21 =>
      case 22 =>
      case 23 =>
      case 24 =>
      case 25 =>
    }
  }

  /** The decoding table and the test for white space, character by character. */
  lemma TableIsExact(c: char)
    ensures UnBase64(c) == ValueOf(c)
    ensures IsSpace(c) <==> IsBlank(c)
  {
    var u, v := UndoWebSafeEncoding(c), ValueOf(c);
    assert ALPHABET[0..] == ALPHABET && |ALPHABET| == 64;
    TableScan(u, ALPHABET, 0);
    var t := UnBase64(c);
    if t < 64 {
      assert Symbol(t) == u;
      SymbolCode(t);
    }
    if v < 64 {
      SymbolCode(v);
      assert ALPHABET[v] == u;
    }
  }

  /** The table inverts the alphabet. */
  lemma TableInvertsAlphabet(v: Sextet)
    ensures UnBase64(Symbol(v)) == v
  {
    hide UnBase64;
    SymbolCode(v);
    TableIsExact(Symbol(v));
  }

  /** The three ways two neighbouring groups fill an octet. */
  function High(a: Sextet, b: Sextet): Byte { 4 * a + b / 16 }

  function Middle(a: Sextet, b: Sextet): Byte { 16 * (a % 16) + b / 4 }

  function Low(a: Sextet, b: Sextet): Byte { 64 * (a % 4) + b }

  lemma TripleDigits(q0: Sextet, q1: Sextet, q2: Sextet, q3: Sextet)
    ensures Triple(q0, q1, q2, q3) == [High(q0, q1), Middle(q1, q2), Low(q2, q3)]
  {
    hide High, Middle, Low;
    SameNumber(q0, q1, q2, q3);
    OctetsOf(High(q0, q1), Middle(q1, q2), Low(q2, q3));
  }

  lemma SameNumber(q0: Sextet, q1: Sextet, q2: Sextet, q3: Sextet)
    ensures 0x4_0000 * q0 + 0x1000 * q1 + 0x40 * q2 + q3 ==
            0x1_0000 * High(q0, q1) + 0x100 * Middle(q1, q2) + Low(q2, q3)
  {
    assert q1 == 16 * (q1 / 16) + q1 % 16 && q2 == 4 * (q2 / 4) + q2 % 4;
  }

  lemma OctetsOf(h: Byte, m: Byte, l: Byte)
    ensures BigEndian(0x1_0000 * h + 0x100 * m + l, 3) == [h, m, l]
  {
    var v := 0x1_0000 * h + 0x100 * m + l;
    QuotientIs(v, 0x100, 0x100 * h + m, l);
    QuotientIs(0x100 * h + m, 0x100, h, m);
    assert Octet(v, 0) == l && Octet(v, 1) == Octet(v / 0x100, 0) == m;
    assert Octet(v, 2) == Octet(v / 0x100, 1) == Octet(h, 0) == h;
  }

  /** How one more group of six bits extends the octets. */
  lemma {:induction false} NextSextet(q: seq<Sextet>, v: Sextet, k: nat)
    requires 4 * k <= |q| < 4 * k + 4
    ensures FromSextets(q + [v]) == FromSextets(q) + Completed(q, v, k)
  {
    hide High, Middle, Low, Triple;
    if k == 0 {
      NextInFirstGroup(q, v);
    } else {
      NextSextet(q[4..], v, k - 1);
      assert (q + [v])[4..] == q[4..] + [v];
    }
  }

  /** The octet that the group v completes after the groups q. */
  function Completed(q: seq<Sextet>, v: Sextet, k: nat): seq<Byte>
    requires 4 * k <= |q| < 4 * k + 4
  {
    if |q| == 4 * k then []
    else if |q| == 4 * k + 1 then [High(q[|q| - 1], v)]
    else if |q| == 4 * k + 2 then [Middle(q[|q| - 1], v)]
    else [Low(q[|q| - 1], v)]
  }

  lemma NextInFirstGroup(q: seq<Sextet>, v: Sextet)
    requires |q| < 4
    ensures FromSextets(q + [v]) == FromSextets(q) + Completed(q, v, 0)
  {
    hide FromSextets, Completed;
    if |q| == 3 {
      assert q == [q[0], q[1], q[2]];
      NextAfterThree(q[0], q[1], q[2], v);
    } else if |q| == 2 {
      assert q == [q[0], q[1]];
      NextAfterTwo(q[0], q[1], v);
    } else if |q| == 1 {
      assert q == [q[0]];
      NextAfterOne(q[0], v);
    } else {
      assert q == [];
      NextAfterNone(v);
    }
  }

  lemma NextAfterThree(a: Sextet, b: Sextet, c: Sextet, v: Sextet)
    ensures FromSextets([a, b, c] + [v]) == FromSextets([a, b, c]) + Completed([a, b, c], v, 0)
  {
    hide High, Middle, Low, FromSextets;
    ShortFrom(a, b, c, v);
    assert [a, b, c] + [v] == [a, b, c, v];
  }

  lemma NextAfterTwo(a: Sextet, b: Sextet, v: Sextet)
    ensures FromSextets([a, b] + [v]) == FromSextets([a, b]) + Completed([a, b], v, 0)
  {
    hide High, Middle, Low, FromSextets;
    ShortFrom(a, b, v, v);
    assert [a, b] + [v] == [a, b, v];
  }

  lemma NextAfterOne(a: Sextet, v: Sextet)
    ensures FromSextets([a] + [v]) == FromSextets([a]) + Completed([a], v, 0)
  {
    hide High, Middle, Low, FromSextets;
    ShortFrom(a, v, v, v);
    assert [a] + [v] == [a, v];
  }

  lemma NextAfterNone(v: Sextet)
    ensures FromSextets([] + [v]) == FromSextets([]) + Completed([], v, 0)
  {
    assert [] + [v] == [v];
  }

  /** The octets of at most four groups. */
  lemma ShortFrom(a: Sextet, b: Sextet, c: Sextet, d: Sextet)
    ensures FromSextets([]) == [] && FromSextets([a]) == []
    ensures FromSextets([a, b]) == [High(a, b)]
    ensures FromSextets([a, b, c]) == [High(a, b), Middle(b, c)]
    ensures FromSextets([a, b, c, d]) == [High(a, b), Middle(b, c), Low(c, d)]
  {
    hide High, Middle, Low, Triple;
    TripleDigits(a, b, 0, 0);
    TripleDigits(a, b, c, 0);
    TripleDigits(a, b, c, d);
    assert [a, b, c, d][4..] == [];
  }

  /** Decodes base64 with white space, padding and web-safe characters allowed anywhere. */
  method Base64Unescape(encoded: string) returns (ok: bool, decoded: seq<Byte>)
    ensures ok <==> Sextets(encoded).Some?
    ensures decoded == if ok then FromSextets(Sextets(encoded).value) else []
  {
    hide FromSextets, UnBase64, ValueOf, IsSpace, IsBlank, Or, Sextets, PendingBits, Prepend, ShiftFactor, High, Middle, Low;
    decoded := [];
    var bitPos := 0;
    var dst: Byte := 0;
    ghost var q: seq<Sextet> := [];
    ghost var k := 0;
    DecodingStarts(encoded);
    for i := 0 to |encoded|
      invariant Sextets(encoded) == Prepend(q, Sextets(encoded[i..]))
      invariant 4 * k <= |q| < 4 * k + 4
      invariant bitPos == PendingPosition(q, k) && dst == PendingBits(q, k)
      invariant decoded == FromSextets(q)
    {
      var src := encoded[i];
      assert encoded[i..][1..] == encoded[i + 1..];
      SextetsStep(q, encoded[i..]);
      TableIsExact(src);
      if IsSpace(src) || src == '=' {
        continue;
      }
      var srcBin := UnBase64(src);
      if srcBin >= 64 {
        return false, [];
      }
      NextSextet(q, srcBin, k);
      DestinationBits(q, k, srcBin);
      if bitPos == 0 {
        dst := Or(dst, (srcBin * 4) % 256);
        bitPos := 6;
      } else {
        dst := Or(dst, srcBin / ShiftFactor(bitPos - 2));
        decoded := decoded + [dst];
        dst := (srcBin * ShiftFactor(10 - bitPos)) % 256;
        bitPos := (bitPos + 6) % 8;
      }
      q := q + [srcBin];
      if |q| == 4 * k + 4 {
        k := k + 1;
      }
    }
    assert encoded[|encoded|..] == "";
    DecodingEnds(q);
    return true, decoded;
  }

  lemma DecodingStarts(s: string)
    ensures Sextets(s) == Prepend([], Sextets(s[0..])) && FromSextets([]) == [] && PendingBits([], 0) == 0
  {
    assert s[0..] == s;
    PrependNothing(Sextets(s));
  }

  lemma DecodingEnds(q: seq<Sextet>)
    ensures Prepend(q, Sextets("")) == Some(q)
  {
    assert q + [] == q;
  }

  lemma SextetsStep(q: seq<Sextet>, s: string)
    requires s != ""
    ensures var significant := !(IsBlank(s[0]) || s[0] == '=');
      && (!significant ==> Sextets(s) == Sextets(s[1..]))
      && (significant && ValueOf(s[0]) >= 64 ==> Prepend(q, Sextets(s)) == None)
      && (significant && ValueOf(s[0]) < 64 ==>
            Prepend(q, Sextets(s)) == Prepend(q + [ValueOf(s[0])], Sextets(s[1..])))
  {
    hide ValueOf;
    if ValueOf(s[0]) < 64 {
      PrependOne(q, ValueOf(s[0]), Sextets(s[1..]));
    }
  }

  /** The power of two that a shift by n multiplies or divides by. */
  function ShiftFactor(n: nat): (f: nat)
    requires n <= 8
    ensures f > 0
  {
    if n == 0 then 1 else if n == 1 then 2 else if n == 2 then 4 else if n == 3 then 8 else if n == 4 then 16
    else if n == 5 then 32 else if n == 6 then 64 else if n == 7 then 128 else 256
  }

  lemma {:induction false} ShiftFactorIsPower(n: nat)
    requires n <= 8
    ensures ShiftFactor(n) == Pow2(n)
  {
    if n > 0 {
      ShiftFactorIsPower(n - 1);
    }
  }

  /** The bit position after the groups q, the last 4-tuple of which starts at 4 * k. */
  function PendingPosition(q: seq<Sextet>, k: nat): nat
    requires 4 * k <= |q| < 4 * k + 4
  {
    if |q| == 4 * k then 0 else if |q| == 4 * k + 1 then 6 else if |q| == 4 * k + 2 then 4 else 2
  }

  /** The bits that wait for the next group, as an octet filled up with zeros. */
  function PendingBits(q: seq<Sextet>, k: nat): Byte
    requires 4 * k <= |q| < 4 * k + 4
  {
    if |q| == 4 * k then 0
    else if |q| == 4 * k + 1 then High(q[|q| - 1], 0)
    else if |q| == 4 * k + 2 then Middle(q[|q| - 1], 0)
    else Low(q[|q| - 1], 0)
  }

  /** The shifts put the next group where its bits belong. */
  lemma DestinationBits(q: seq<Sextet>, k: nat, v: Sextet)
    requires 4 * k <= |q| < 4 * k + 4
    ensures var (pos, dst) := (PendingPosition(q, k), PendingBits(q, k));
      if pos == 0 then Or(dst, (v * 4) % 256) == PendingBits(q + [v], k)
      else
        && 0 <= Or(dst, v / ShiftFactor(pos - 2)) < 256
        && [Or(dst, v / ShiftFactor(pos - 2))] == Completed(q, v, k)
        && (v * ShiftFactor(10 - pos)) % 256 == PendingBits(q + [v], if pos == 2 then k + 1 else k)
  {
    hide Or, High, Middle, Low;
    OrZero(4 * v);
    BitsOfHigh(v);
    if |q| > 4 * k {
      OrHigh(q[|q| - 1], v);
      OrMiddle(q[|q| - 1], v);
      OrLow(q[|q| - 1], v);
    }
  }

  lemma BitsOfHigh(v: Sextet)
    ensures (v * 4) % 256 == 4 * v == High(v, 0)
    ensures (v * 16) % 256 == Middle(v, 0) && (v * 64) % 256 == Low(v, 0) && (v * 256) % 256 == 0
  {
    hide High, Middle, Low;
    BitsByFour(v);
    BitsBySixteen(v);
    BitsBySixtyFour(v);
  }

  lemma BitsByFour(v: Sextet)
    ensures (v * 4) % 256 == 4 * v == High(v, 0) && (v * 256) % 256 == 0
  {
  }

  lemma BitsBySixteen(v: Sextet)
    ensures (v * 16) % 256 == Middle(v, 0)
  {
    QuotientIs(v * 16, 256, v / 16, 16 * (v % 16));
  }

  lemma BitsBySixtyFour(v: Sextet)
    ensures (v * 64) % 256 == Low(v, 0)
  {
    QuotientIs(v * 64, 256, v / 4, 64 * (v % 4));
  }

  lemma OrHigh(a: Sextet, v: Sextet)
    ensures Or(High(a, 0), v / 16) == High(a, v)
  {
    hide Or;
    assert Pow2(2) == 4;
    OrOfDisjoint(a, v / 16, 2);
  }

  lemma OrMiddle(a: Sextet, v: Sextet)
    ensures Or(Middle(a, 0), v / 4) == Middle(a, v)
  {
    hide Or;
    assert Pow2(4) == 16;
    OrOfDisjoint(a % 16, v / 4, 4);
  }

  lemma OrLow(a: Sextet, v: Sextet)
    ensures Or(Low(a, 0), v) == Low(a, v)
  {
    hide Or;
    assert Pow2(6) == 64;
    OrOfDisjoint(a % 4, v, 6);
  }

  lemma OrZero(x: nat)
    ensures Or(0, x) == x
  {
  }

  function Prepend(q: seq<Sextet>, r: Option<seq<Sextet>>): Option<seq<Sextet>> {
    if r == None then None else Some(q + r.value)
  }

  lemma PrependNothing(r: Option<seq<Sextet>>)
    ensures Prepend([], r) == r
  {
    if r.Some? {
      assert [] + r.value == r.value;
    }
  }

  lemma PrependOne(q: seq<Sextet>, v: Sextet, r: Option<seq<Sextet>>)
    ensures Prepend(q, Prepend([v], r)) == Prepend(q + [v], r)
  {
    if r.Some? {
      assert q + ([v] + r.value) == q + [v] + r.value;
    }
  }

  // ---------------------------------------------------------------------------
  // Round trip
  // ---------------------------------------------------------------------------

  /** The 6-bit groups of an octet sequence, the last one filled up with zeros. */
  function Groups(d: seq<Byte>): seq<Sextet> {
    if d == [] then []
    else if |d| == 1 then Quartet(Number(d[0], 0, 0))[..2]
    else if |d| == 2 then Quartet(Number(d[0], d[1], 0))[..3]
    else Quartet(Number(d[0], d[1], d[2])) + Groups(d[3..])
  }

  /** text is read as the values q. */
  ghost predicate Spells(text: string, q: seq<Sextet>) {
    |text| == |q| && forall i :: 0 <= i < |q| ==> !IsBlank(text[i]) && text[i] != '=' && ValueOf(text[i]) == q[i]
  }

  lemma {:induction false} SpelledIsRead(text: string, q: seq<Sextet>, rest: string)
    requires Spells(text, q)
    ensures Sextets(text + rest) == Prepend(q, Sextets(rest))
  {
    hide ValueOf, IsBlank;
    var s := text + rest;
    if q == [] {
      assert s == rest;
      PrependNothing(Sextets(rest));
    } else {
      SpelledIsRead(text[1..], q[1..], rest);
      assert s[0] == text[0] && s[1..] == text[1..] + rest;
      assert Sextets(s) == Prepend([q[0]], Sextets(s[1..]));
      if Sextets(rest).Some? {
        assert [q[0]] + (q[1..] + Sextets(rest).value) == q + Sextets(rest).value;
      }
    }
  }

  lemma SymbolsAreRead(q: seq<Sextet>, rest: string)
    ensures Sextets(Symbols(q) + rest) == Prepend(q, Sextets(rest))
  {
    hide ValueOf, IsBlank, Symbol, Sextets;
    forall i | 0 <= i < |q| ensures !IsBlank(Symbol(q[i])) && Symbol(q[i]) != '=' && ValueOf(Symbol(q[i])) == q[i] {
      SymbolIsSignificant(q[i]);
    }
    SpelledIsRead(Symbols(q), q, rest);
  }

  lemma SymbolIsSignificant(v: Sextet)
    ensures !IsBlank(Symbol(v)) && Symbol(v) != '=' && ValueOf(Symbol(v)) == v
  {
    SymbolCode(v);
  }

  lemma {:induction false} EncodedSextets(d: seq<Byte>)
    ensures Sextets(Encode(d)) == Some(Groups(d))
  {
    hide Quartet, Number, ValueOf, Symbols;
    PaddingIsSkipped();
    if d == [] {
    } else if |d| == 1 {
      var q := Quartet(Number(d[0], 0, 0))[..2];
      SymbolsAreRead(q, "==");
      assert q + [] == q;
    } else if |d| == 2 {
      var q := Quartet(Number(d[0], d[1], 0))[..3];
      SymbolsAreRead(q, "=");
      assert q + [] == q;
    } else {
      EncodedSextets(d[3..]);
      SymbolsAreRead(Quartet(Number(d[0], d[1], d[2])), Encode(d[3..]));
    }
  }

  lemma PaddingIsSkipped()
    ensures Sextets("") == Sextets("=") == Sextets("==") == Some([])
  {
    assert "=="[1..] == "=" && "="[1..] == "";
  }

  lemma {:induction false} GroupsRoundTrip(d: seq<Byte>)
    ensures FromSextets(Groups(d)) == d
  {
    hide Quartet, Number, Triple;
    if d == [] {
    } else if |d| == 1 {
      TripleOfQuartet(d[0], 0, 0);
    } else if |d| == 2 {
      TripleOfQuartet(d[0], d[1], 0);
    } else {
      TripleOfQuartet(d[0], d[1], d[2]);
      GroupsRoundTrip(d[3..]);
      var q := Quartet(Number(d[0], d[1], d[2]));
      assert (q + Groups(d[3..]))[4..] == Groups(d[3..]);
      assert d == [d[0], d[1], d[2]] + d[3..];
    }
  }

  lemma TripleOfQuartet(b0: Byte, b1: Byte, b2: Byte)
    ensures var q := Quartet(Number(b0, b1, b2));
      && Triple(q[0], q[1], q[2], q[3]) == [b0, b1, b2]
      && (b2 == 0 ==> q[3] == 0) && (b1 == b2 == 0 ==> q[2] == 0)
  {
    hide Quartet, Number, Triple, High, Middle, Low;
    QuartetDigits(b0, b1, b2);
    var q := Quartet(Number(b0, b1, b2));
    TripleDigits(q[0], q[1], q[2], q[3]);
    HighOctet(b0, b1);
    MiddleOctet(b0, b1, b2);
    LowOctet(b1, b2);
    ZeroOctets(b1, b2);
  }

  lemma HighOctet(b0: Byte, b1: Byte)
    ensures High(b0 / 4, (b0 % 4) * 16 + b1 / 16) == b0
  {
    QuotientIs((b0 % 4) * 16 + b1 / 16, 16, b0 % 4, b1 / 16);
  }

  lemma MiddleOctet(b0: Byte, b1: Byte, b2: Byte)
    ensures Middle((b0 % 4) * 16 + b1 / 16, (b1 % 16) * 4 + b2 / 64) == b1
  {
    QuotientIs((b0 % 4) * 16 + b1 / 16, 16, b0 % 4, b1 / 16);
    QuotientIs((b1 % 16) * 4 + b2 / 64, 4, b1 % 16, b2 / 64);
  }

  lemma LowOctet(b1: Byte, b2: Byte)
    ensures Low((b1 % 16) * 4 + b2 / 64, b2 % 64) == b2
  {
    QuotientIs((b1 % 16) * 4 + b2 / 64, 4, b1 % 16, b2 / 64);
  }

  lemma ZeroOctets(b1: Byte, b2: Byte)
    ensures b2 == 0 ==> b2 % 64 == 0
    ensures b1 == b2 == 0 ==> (b1 % 16) * 4 + b2 / 64 == 0
  {
  }

  /** Decoding inverts encoding, for any text whose significant characters are those of the
      encoding: white space, missing padding and the web-safe alphabet make no difference. No
      other text is read as the groups of the encoding. */
  lemma DecodeInvertsEncode(d: seq<Byte>, text: string)
    ensures Canonical(text) == Canonical(Encode(d)) <==> Sextets(text) == Sextets(Encode(d))
    ensures Canonical(text) == Canonical(Encode(d)) ==>
      Sextets(text).Some? && FromSextets(Sextets(text).value) == d
  {
    EncodedSextets(d);
    GroupsRoundTrip(d);
    CanonicalDecides(text);
    CanonicalDecides(Encode(d));
    CanonicalIsSpelling(Encode(d));
    if Sextets(text).Some? {
      CanonicalIsSpelling(text);
    }
  }

  function StandardSymbol(c: char): char {
    if c == '-' then '+' else if c == '_' then '/' else c
  }

  /** text without white space and padding, in the standard alphabet. */
  function Canonical(text: string): string {
    if text == "" then ""
    else if IsBlank(text[0]) || text[0] == '=' then Canonical(text[1..])
    else [StandardSymbol(text[0])] + Canonical(text[1..])
  }

  lemma StandardValue(c: char)
    ensures ValueOf(StandardSymbol(c)) == ValueOf(c)
    ensures IsBlank(StandardSymbol(c)) <==> IsBlank(c)
    ensures StandardSymbol(c) == '=' <==> c == '='
  {
  }

  /** The canonical form of a text that can be decoded consists of the symbols of its values. */
  lemma {:induction false} CanonicalIsSpelling(text: string)
    requires Sextets(text).Some?
    ensures Canonical(text) == Symbols(Sextets(text).value)
  {
    hide ValueOf, IsBlank, StandardSymbol, Symbol;
    if text != "" {
      CanonicalIsSpelling(text[1..]);
      if !(IsBlank(text[0]) || text[0] == '=') {
        var v, q := ValueOf(text[0]), Sextets(text[1..]).value;
        SymbolOfValue(text[0]);
        assert Symbols([v] + q) == [Symbol(v)] + Symbols(q);
      }
    }
  }

  lemma SymbolOfValue(c: char)
    requires ValueOf(c) < 64
    ensures StandardSymbol(c) == Symbol(ValueOf(c))
  {
    SymbolCode(ValueOf(c));
  }

  lemma {:induction false} CanonicalDecides(text: string)
    ensures Sextets(text) == Sextets(Canonical(text))
  {
    hide ValueOf, IsBlank, StandardSymbol;
    if text != "" {
      CanonicalDecides(text[1..]);
      if !(IsBlank(text[0]) || text[0] == '=') {
        StandardValue(text[0]);
        assert Canonical(text)[1..] == Canonical(text[1..]);
      }
    }
  }

  // ---------------------------------------------------------------------------
  // The URL and filename safe alphabet
  // ---------------------------------------------------------------------------

  /** The encoding of section 5 of RFC 4648, without padding. */
  function UrlSymbols(q: seq<Sextet>): (s: string)
    ensures |s| == |q|
  {
    seq(|q|, i requires 0 <= i < |q| => UrlSymbol(q[i]))
  }

  function EncodeUrl(d: seq<Byte>): string {
    UrlSymbols(Groups(d))
  }

  /** Data encoded with the URL and filename safe alphabet is decoded, with any padding. */
  lemma UrlRoundTrip(d: seq<Byte>, padding: string)
    requires forall c :: c in padding ==> c == '='
    ensures var text := EncodeUrl(d) + padding; Sextets(text).Some? && FromSextets(Sextets(text).value) == d
  {
    hide Groups, FromSextets, UrlSymbols;
    UrlSymbolsAreRead(Groups(d), padding);
    OnlyPadding(padding);
    assert Groups(d) + [] == Groups(d);
    GroupsRoundTrip(d);
  }

  lemma {:induction false} OnlyPadding(padding: string)
    requires forall c :: c in padding ==> c == '='
    ensures Sextets(padding) == Some([])
  {
    if padding != "" {
      assert padding[0] in padding && forall c :: c in padding[1..] ==> c in padding;
      OnlyPadding(padding[1..]);
    }
  }

  lemma UrlSymbolsAreRead(q: seq<Sextet>, rest: string)
    ensures Sextets(UrlSymbols(q) + rest) == Prepend(q, Sextets(rest))
  {
    hide ValueOf, IsBlank, UrlSymbol, Sextets;
    forall i | 0 <= i < |q|
      ensures !IsBlank(UrlSymbol(q[i])) && UrlSymbol(q[i]) != '=' && ValueOf(UrlSymbol(q[i])) == q[i]
    {
      UrlSymbolIsSignificant(q[i]);
    }
    SpelledIsRead(UrlSymbols(q), q, rest);
  }

  lemma UrlSymbolIsSignificant(v: Sextet)
    ensures !IsBlank(UrlSymbol(v)) && UrlSymbol(v) != '=' && ValueOf(UrlSymbol(v)) == v
  {
    hide UrlSymbol;
    AlphabetParts(v);
    if v < 62 {
      LetterOrDigit(v);
    }
  }
}
