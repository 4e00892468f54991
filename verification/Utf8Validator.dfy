/** The UTF-8 validator of gtest-printers, against the encoding of section 3 of RFC 3629. */
module Utf8Validator {
  import opened Bytes

  // ---------------------------------------------------------------------------
  // The encoding
  // ---------------------------------------------------------------------------

  /** Unicode scalar values: all code points but the surrogates. */
  predicate IsScalar(u: nat) {
    u < 0xD800 || 0xE000 <= u < 0x11_0000
  }

  type Scalar = u: nat | IsScalar(u)

  function EncodeScalar(u: Scalar): (s: seq<Byte>)
    ensures 1 <= |s| <= 4
  {
    if u < 0x80 then [u]
    else if u < 0x800 then [0xC0 + u / 0x40, 0x80 + u % 0x40]
    else if u < 0x1_0000 then [0xE0 + u / 0x1000, 0x80 + (u / 0x40) % 0x40, 0x80 + u % 0x40]
    else
      assert IsScalar(u) && u / 0x4_0000 <= 4;
      [0xF0 + u / 0x4_0000, 0x80 + (u / 0x1000) % 0x40, 0x80 + (u / 0x40) % 0x40, 0x80 + u % 0x40]
  }

  function EncodeAll(us: seq<Scalar>): seq<Byte> {
    if us == [] then [] else EncodeScalar(us[0]) + EncodeAll(us[1..])
  }

  // ---------------------------------------------------------------------------
  // One character
  // ---------------------------------------------------------------------------

  predicate IsUTF8TrailByte(t: Byte) { 0x80 <= t <= 0xBF }

  /** The length of the character at position i of s, or 0 when there is none. */
  function LengthAt(s: seq<Byte>, i: nat): (n: nat)
    requires i < |s|
    ensures i + n <= |s| && n <= 4
  {
    if s[i] <= 0x7F then 1
    else if i + 2 <= |s| && 0xC2 <= s[i] <= 0xDF && IsUTF8TrailByte(s[i + 1]) then 2
    else if i + 3 <= |s| && 0xE0 <= s[i] <= 0xEF && IsUTF8TrailByte(s[i + 1]) && IsUTF8TrailByte(s[i + 2]) &&
            (s[i] == 0xE0 ==> s[i + 1] >= 0xA0) && (s[i] == 0xED ==> s[i + 1] < 0xA0) then 3
    else if i + 4 <= |s| && 0xF0 <= s[i] <= 0xF4 && IsUTF8TrailByte(s[i + 1]) && IsUTF8TrailByte(s[i + 2]) &&
            IsUTF8TrailByte(s[i + 3]) && (s[i] == 0xF0 ==> s[i + 1] >= 0x90) && (s[i] == 0xF4 ==> s[i + 1] < 0x90) then 4
    else 0
  }

  /** The length of the character at the start of s, or 0 when there is none. */
  function CharacterLength(s: seq<Byte>): (n: nat)
    ensures n <= |s| && n <= 4
  {
    if s == [] then 0 else LengthAt(s, 0)
  }

  function Decode(s: seq<Byte>): (u: Scalar)
    requires CharacterLength(s) > 0
  {
    var n := CharacterLength(s);
    if n == 1 then s[0]
    else if n == 2 then Combine(0, 0, s[0] - 0xC0, s[1] - 0x80)
    else if n == 3 then Combine(0, s[0] - 0xE0, s[1] - 0x80, s[2] - 0x80)
    else Combine(s[0] - 0xF0, s[1] - 0x80, s[2] - 0x80, s[3] - 0x80)
  }

  function Combine(a: int, b: int, c: int, d: int): int {
    0x4_0000 * a + 0x1000 * b + 0x40 * c + d
  }

  lemma Split(a: nat, b: nat, c: nat, d: nat)
    requires b < 0x40 && c < 0x40 && d < 0x40
    ensures var u := Combine(a, b, c, d);
      u / 0x4_0000 == a && (u / 0x1000) % 0x40 == b && (u / 0x40) % 0x40 == c && u % 0x40 == d
    ensures a == 0 ==> Combine(a, b, c, d) / 0x1000 == b
    ensures a == b == 0 ==> Combine(a, b, c, d) / 0x40 == c
  {
    var u := Combine(a, b, c, d);
    assert u / 0x40 == 0x1000 * a + 0x40 * b + c;
    assert u / 0x1000 == 0x40 * a + b;
  }

  /** What the validator takes for a character is the encoding of a scalar value. */
  lemma DecodedIsEncoded(s: seq<Byte>)
    requires CharacterLength(s) > 0
    ensures EncodeScalar(Decode(s)) == s[..CharacterLength(s)]
  {
    var n := CharacterLength(s);
    if n == 2 {
      Split(0, 0, s[0] - 0xC0, s[1] - 0x80);
    } else if n == 3 {
      Split(0, s[0] - 0xE0, s[1] - 0x80, s[2] - 0x80);
    } else if n == 4 {
      Split(s[0] - 0xF0, s[1] - 0x80, s[2] - 0x80, s[3] - 0x80);
    }
  }

  /** Every encoding of a scalar value is taken for one character, whatever follows. */
  lemma EncodedIsTaken(u: Scalar, rest: seq<Byte>)
    ensures CharacterLength(EncodeScalar(u) + rest) == |EncodeScalar(u)|
    ensures Decode(EncodeScalar(u) + rest) == u
  {
    var e := EncodeScalar(u);
    var s := e + rest;
    Digits(u);
    if u < 0x80 {
      assert s[0] == u;
    } else if u < 0x800 {
      assert s[0] == e[0] && s[1] == e[1];
    } else if u < 0x1_0000 {
      ThreeDigits(u);
      assert s[0] == e[0] && s[1] == e[1] && s[2] == e[2];
    } else {
      FourDigits(u);
      assert s[0] == e[0] && s[1] == e[1] && s[2] == e[2] && s[3] == e[3];
    }
  }

  lemma Digits(u: nat)
    ensures u == 0x40 * (u / 0x40) + u % 0x40
    ensures u / 0x40 == 0x40 * (u / 0x1000) + (u / 0x40) % 0x40
    ensures u / 0x1000 == 0x40 * (u / 0x4_0000) + (u / 0x1000) % 0x40
  {
    assert u / 0x40 / 0x40 == u / 0x1000 && u / 0x1000 / 0x40 == u / 0x4_0000;
  }

  /** Short three-octet forms and surrogates do not occur. */
  lemma ThreeDigits(u: Scalar)
    requires 0x800 <= u < 0x1_0000
    ensures u / 0x1000 <= 0xF && u / 0x4_0000 == 0
    ensures u / 0x1000 == 0 ==> (u / 0x40) % 0x40 >= 0x20
    ensures u / 0x1000 == 0xD ==> (u / 0x40) % 0x40 < 0x20
  {
    assert IsScalar(u);
    Digits(u);
  }

  /** Short four-octet forms and values beyond the code space do not occur. */
  lemma FourDigits(u: Scalar)
    requires 0x1_0000 <= u
    ensures u / 0x4_0000 <= 4
    ensures u / 0x4_0000 == 0 ==> (u / 0x1000) % 0x40 >= 0x10
    ensures u / 0x4_0000 == 4 ==> (u / 0x1000) % 0x40 < 0x10
  {
    assert IsScalar(u);
    Digits(u);
  }

  // ---------------------------------------------------------------------------
  // Whole strings
  // ---------------------------------------------------------------------------

  predicate Valid(s: seq<Byte>) {
    s == [] || (CharacterLength(s) > 0 && Valid(s[CharacterLength(s)..]))
  }

  lemma {:induction false} ValidIsEncoded(s: seq<Byte>) returns (us: seq<Scalar>)
    requires Valid(s)
    ensures s == EncodeAll(us)
  {
    if s == [] {
      us := [];
    } else {
      var n := CharacterLength(s);
      DecodedIsEncoded(s);
      var rest := ValidIsEncoded(s[n..]);
      us := [Decode(s)] + rest;
    }
  }

  lemma {:induction false} EncodedIsValid(us: seq<Scalar>)
    ensures Valid(EncodeAll(us))
  {
    if us != [] {
      var head, rest := EncodeScalar(us[0]), EncodeAll(us[1..]);
      EncodedIsTaken(us[0], rest);
      EncodedIsValid(us[1..]);
      assert (head + rest)[|head|..] == rest;
    }
  }

  /** The scalar values of a string are determined by its octets. */
  lemma {:induction false} EncodingIsUnique(us: seq<Scalar>, vs: seq<Scalar>)
    requires EncodeAll(us) == EncodeAll(vs)
    ensures us == vs
  {
    if us != [] && vs != [] {
      EncodedIsTaken(us[0], EncodeAll(us[1..]));
      EncodedIsTaken(vs[0], EncodeAll(vs[1..]));
      var n := |EncodeScalar(us[0])|;
      assert EncodeAll(us)[n..] == EncodeAll(us[1..]) && EncodeAll(vs)[n..] == EncodeAll(vs[1..]);
      EncodingIsUnique(us[1..], vs[1..]);
      assert us == [us[0]] + us[1..] && vs == [vs[0]] + vs[1..];
    }
  }

  /** One step of the loop, at the start of a character. */
  lemma NextCharacter(s: seq<Byte>, i: nat)
    requires i < |s|
    ensures var n := CharacterLength(s[i..]);
      i + n <= |s| && (Valid(s[i..]) <==> n > 0 && Valid(s[i + n..]))
    ensures CharacterLength(s[i..]) == LengthAt(s, i)
  {
    var n := CharacterLength(s[i..]);
    assert s[i..][n..] == s[i + n..];
  }

  lemma NothingIsValid()
    ensures Valid([])
  {
  }

  lemma ValidIffEncoded(s: seq<Byte>)
    ensures Valid(s) <==> exists us: seq<Scalar> :: s == EncodeAll(us)
  {
    if Valid(s) {
      var us := ValidIsEncoded(s);
    }
    if us: seq<Scalar> :| s == EncodeAll(us) {
      EncodedIsValid(us);
    }
  }

  /** True if and only if s is a sequence of encoded scalar values. */
  method IsValidUTF8(s: seq<Byte>) returns (valid: bool)
    ensures valid <==> exists us: seq<Scalar> :: s == EncodeAll(us)
  {
    hide Valid, CharacterLength, EncodeAll;
    ValidIffEncoded(s);
    NothingIsValid();
    assert s[0..] == s && s[|s|..] == [];
    var i := 0;
    while i < |s|
      invariant 0 <= i <= |s| && (Valid(s) <==> Valid(s[i..]))
    {
      NextCharacter(s, i);
      var lead := s[i];
      i := i + 1;
      if lead <= 0x7F {
        continue;
      }
      if lead < 0xC2 {
        return false;
      } else if lead <= 0xDF && i + 1 <= |s| && IsUTF8TrailByte(s[i]) {
        i := i + 1;
      } else if 0xE0 <= lead && lead <= 0xEF && i + 2 <= |s| &&
                IsUTF8TrailByte(s[i]) && IsUTF8TrailByte(s[i + 1]) &&
                (lead != 0xE0 || s[i] >= 0xA0) && (lead != 0xED || s[i] < 0xA0) {
        i := i + 2;
      } else if 0xF0 <= lead && lead <= 0xF4 && i + 3 <= |s| &&
                IsUTF8TrailByte(s[i]) && IsUTF8TrailByte(s[i + 1]) && IsUTF8TrailByte(s[i + 2]) &&
                (lead != 0xF0 || s[i] >= 0x90) && (lead != 0xF4 || s[i] < 0x90) {
        i := i + 3;
      } else {
        return false;
      }
    }
    return true;
  }
}
