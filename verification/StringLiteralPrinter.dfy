/**
  The printer of narrow strings as C++ string literals, and a reader of adjacent string
  literals after [lex.ccon] and [lex.string] of ISO C++, by which its output is judged.
 */
module StringLiteralPrinter {
  import opened Bytes
  import opened Common

  datatype CharFormat = AsIs | HexEscape | SpecialEscape

  // ---------------------------------------------------------------------------
  // Printing
  // ---------------------------------------------------------------------------

  function HexDigit(d: nat): char
    requires d < 16
  {
    if d < 10 then '0' + d as char else 'A' + (d - 10) as char
  }

  /** The upper-case hexadecimal numeral of an octet. */
  function Hex(c: Byte): string {
    if c < 16 then [HexDigit(c)] else [HexDigit(c / 16), HexDigit(c % 16)]
  }

  predicate IsPrintableAscii(c: Byte) { 0x20 <= c <= 0x7E }

  /** PrintAsCharLiteralTo: the text of a character in a literal, and its format. */
  function CharLiteral(c: Byte): (string, CharFormat) {
    match c
    case 0 => ("\\0", SpecialEscape)
    case 39 => ("\\'", SpecialEscape)
    case 92 => ("\\\\", SpecialEscape)
    case 7 => ("\\a", SpecialEscape)
    case 8 => ("\\b", SpecialEscape)
    case 12 => ("\\f", SpecialEscape)
    case 10 => ("\\n", SpecialEscape)
    case 13 => ("\\r", SpecialEscape)
    case 9 => ("\\t", SpecialEscape)
    case 11 => ("\\v", SpecialEscape)
    case _ =>
      if IsPrintableAscii(c) then ([c as char], AsIs)
      else ("\\x" + Hex(c), HexEscape)
  }

  /** PrintAsStringLiteralTo: only the quotes differ. */
  function StringCharLiteral(c: Byte): (string, CharFormat) {
    if c == 39 then ("'", AsIs)
    else if c == 34 then ("\\\"", SpecialEscape)
    else CharLiteral(c)
  }

  /** How every character is printed in a string literal, by its code: the quote, the backslash
      and eight control characters with a letter, other printable characters as they are, and
      all others in hexadecimal. */
  lemma PrintedForms(c: Byte)
    ensures c in [0, 7, 8, 9, 10, 11, 12, 13, 34, 92] ==>
      var letter := if c == 0 then '0' else if c == 7 then 'a' else if c == 8 then 'b' else if c == 9 then 't'
        else if c == 10 then 'n' else if c == 11 then 'v' else if c == 12 then 'f' else if c == 13 then 'r'
        else if c == 34 then '"' else '\\';
      StringCharLiteral(c) == (['\\', letter], SpecialEscape)
    ensures 32 <= c <= 126 && c != 34 && c != 92 ==> StringCharLiteral(c) == ([c as char], AsIs)
    ensures (c < 32 && c !in [0, 7, 8, 9, 10, 11, 12, 13]) || c > 126 ==>
      var (text, format) := StringCharLiteral(c);
      && format == HexEscape && text[..2] == "\\x" && |text| == (if c < 16 then 3 else 4)
      && (forall i :: 2 <= i < |text| ==> text[i] in "0123456789ABCDEF")
  {
    if (c < 32 && c !in [0, 7, 8, 9, 10, 11, 12, 13]) || c > 126 {
      HexDigits(c % 16);
      HexDigits(c / 16);
    }
  }

  lemma HexDigits(d: nat)
    requires d < 16
    ensures HexDigit(d) in "0123456789ABCDEF"
  {
  }

  predicate IsXDigit(c: char) {
    '0' <= c <= '9' || 'A' <= c <= 'F' || 'a' <= c <= 'f'
  }

  /** The text for s, where afterHex says whether a hex escape comes right before. */
  function Body(s: seq<Byte>, afterHex: bool): string {
    if s == [] then ""
    else
      var (text, format) := StringCharLiteral(s[0]);
      (if afterHex && IsXDigit(s[0] as char) then "\" \"" else "") + text + Body(s[1..], format == HexEscape)
  }

  /** HexEscape when some character is printed as a hex escape. */
  function OverallFormat(s: seq<Byte>): CharFormat {
    if s == [] then AsIs
    else if StringCharLiteral(s[|s| - 1]).1 == HexEscape then HexEscape
    else OverallFormat(s[..|s| - 1])
  }

  method PrintCharsAsString(s: seq<Byte>) returns (text: string, format: CharFormat)
    ensures text == "\"" + Body(s, false) + "\""
    ensures format == OverallFormat(s)
  {
    hide StringCharLiteral, Body, OverallFormat;
    text := "\"";
    var isPreviousHex := false;
    format := AsIs;
    NothingPrinted(s);
    for index := 0 to |s|
      invariant text + Body(s[index..], isPreviousHex) == "\"" + Body(s, false)
      invariant format == OverallFormat(s[..index])
    {
      var cur := s[index];
      NextPrinted(s, index, isPreviousHex);
      if isPreviousHex && IsXDigit(cur as char) {
        text := text + "\" \"";
      }
      var (piece, kind) := StringCharLiteral(cur);
      text := text + piece;
      isPreviousHex := kind == HexEscape;
      if isPreviousHex {
        format := HexEscape;
      }
    }
    text := text + "\"";
  }

  lemma NothingPrinted(s: seq<Byte>)
    ensures s[0..] == s && OverallFormat(s[..0]) == AsIs
    ensures s[..|s|] == s && s[|s|..] == [] && Body([], true) == Body([], false) == ""
  {
  }

  lemma NextPrinted(s: seq<Byte>, i: nat, afterHex: bool)
    requires i < |s|
    ensures var (text, format) := StringCharLiteral(s[i]);
      && Body(s[i..], afterHex) ==
           (if afterHex && IsXDigit(s[i] as char) then "\" \"" else "") + text + Body(s[i + 1..], format == HexEscape)
      && OverallFormat(s[..i + 1]) == if format == HexEscape then HexEscape else OverallFormat(s[..i])
  {
    hide StringCharLiteral;
    assert s[i..][1..] == s[i + 1..] && s[..i + 1][..i] == s[..i];
  }

  // ---------------------------------------------------------------------------
  // Reading
  // ---------------------------------------------------------------------------

  predicate IsOctalDigit(c: char) { '0' <= c <= '7' }

  function DigitValue(c: char): nat
    requires IsXDigit(c)
  {
    if c <= '9' then (c - '0') as nat else if c <= 'F' then (c - 'A') as nat + 10 else (c - 'a') as nat + 10
  }

  /** The hexadecimal digits, in both cases, and their values. */
  lemma XDigits(c: char)
    ensures IsXDigit(c) <==> c in "0123456789ABCDEFabcdef"
    ensures forall d :: 0 <= d < 16 && (c == "0123456789ABCDEF"[d] || c == "0123456789abcdef"[d]) ==>
      IsXDigit(c) && DigitValue(c) == d
  {
  }

  /** How many octal digits t starts with, up to max. */
  function OctalRun(t: string, max: nat): (n: nat)
    ensures n <= |t| && n <= max && forall i :: 0 <= i < n ==> IsOctalDigit(t[i])
  {
    if max == 0 || t == "" || !IsOctalDigit(t[0]) then 0 else 1 + OctalRun(t[1..], max - 1)
  }

  /** How many hexadecimal digits t starts with. */
  function HexRun(t: string): (n: nat)
    ensures n <= |t| && forall i :: 0 <= i < n ==> IsXDigit(t[i])
  {
    if t == "" || !IsXDigit(t[0]) then 0 else 1 + HexRun(t[1..])
  }

  function Number(digits: string, base: nat): nat
    requires forall i :: 0 <= i < |digits| ==> IsXDigit(digits[i])
  {
    if digits == "" then 0 else base * Number(digits[..|digits| - 1], base) + DigitValue(digits[|digits| - 1])
  }

  /** The value and the length of the escape sequence after a backslash: at most three octal
      digits, any number of hexadecimal digits, or one of the simple escapes. */
  function Escape(t: string): Option<(nat, nat)> {
    if t == "" then None
    else if IsOctalDigit(t[0]) then
      var n := OctalRun(t, 3);
      Some((Number(t[..n], 8), n))
    else
      match t[0]
      case 'x' =>
        var n := HexRun(t[1..]);
        if n == 0 then None else Some((Number(t[1..][..n], 16), n + 1))
      case '\'' => Some((39, 1))
      case '"' => Some((34, 1))
      case '?' => Some((63, 1))
      case '\\' => Some((92, 1))
      case 'a' => Some((7, 1))
      case 'b' => Some((8, 1))
      case 'f' => Some((12, 1))
      case 'n' => Some((10, 1))
      case 'r' => Some((13, 1))
      case 't' => Some((9, 1))
      case 'v' => Some((11, 1))
      case _ => None
  }

  function Prepend(c: nat, r: Option<seq<Byte>>): Option<seq<Byte>> {
    if r.None? || c > 255 then None else Some([c as Byte] + r.value)
  }

  /** Adjacent string literals separated by spaces: their characters in a row. */
  function Read(t: string, inside: bool): Option<seq<Byte>>
    decreases |t|
  {
    if t == "" then (if inside then None else Some([]))
    else if !inside then
      if t[0] == ' ' then Read(t[1..], false)
      else if t[0] == '"' then Read(t[1..], true)
      else None
    else if t[0] == '"' then Read(t[1..], false)
    else if t[0] == '\n' then None
    else if t[0] != '\\' then Prepend(t[0] as nat, Read(t[1..], true))
    else match Escape(t[1..])
      case None => None
      case Some((c, n)) => if n > |t| - 1 then None else Prepend(c, Read(t[1 + n..], true))
  }

  // ---------------------------------------------------------------------------
  // What the reader gets
  // ---------------------------------------------------------------------------

  predicate IsOctal(c: Byte) { 48 <= c <= 55 }

  /** The digits after a NUL that the reader adds to its octal escape. */
  function Swallowed(s: seq<Byte>): (k: nat)
    ensures k <= 2 && k <= |s|
    ensures forall i :: 0 <= i < k ==> IsOctal(s[i])
  {
    if |s| >= 1 && IsOctal(s[0]) then (if |s| >= 2 && IsOctal(s[1]) then 2 else 1) else 0
  }

  function OctalDigit(c: Byte): (d: nat)
    requires IsOctal(c)
    ensures d < 8
  {
    c - 48
  }

  function OctalValue(s: seq<Byte>): (v: nat)
    requires |s| <= 2 && forall i :: 0 <= i < |s| ==> IsOctal(s[i])
    ensures v < 64
  {
    if |s| == 0 then 0 else if |s| == 1 then OctalDigit(s[0]) else 8 * OctalDigit(s[0]) + OctalDigit(s[1])
  }

  /** s with every NUL merged with the octal digits right after it. */
  function Collapse(s: seq<Byte>): seq<Byte>
    decreases |s|
  {
    if s == [] then []
    else if s[0] == 0 then
      var k := Swallowed(s[1..]);
      [OctalValue(s[1..][..k])] + Collapse(s[1 + k..])
    else [s[0]] + Collapse(s[1..])
  }

  /** A NUL is directly followed by an octal digit. */
  ghost predicate HasNulBeforeOctal(s: seq<Byte>) {
    exists i :: 0 <= i < |s| - 1 && s[i] == 0 && IsOctal(s[i + 1])
  }

  lemma SwallowsNothing(s: seq<Byte>)
    ensures Swallowed(s) == 0 <==> s == [] || !IsOctal(s[0])
  {
  }

  lemma {:induction false} CollapseShortens(s: seq<Byte>)
    ensures |Collapse(s)| <= |s|
    ensures |Collapse(s)| == |s| ==> Collapse(s) == s && !HasNulBeforeOctal(s)
    ensures !HasNulBeforeOctal(s) ==> Collapse(s) == s
    decreases |s|
  {
    if s != [] {
      hide Swallowed, OctalValue;
      var k := if s[0] == 0 then Swallowed(s[1..]) else 0;
      CollapseShortens(s[1 + k..]);
      SwallowsNothing(s[1..]);
      assert k > 0 ==> s[0] == 0 && IsOctal(s[1]);
      assert k == 0 && s[0] == 0 && |s| > 1 ==> !IsOctal(s[1]);
      assert s == [s[0]] + s[1..];
      if HasNulBeforeOctal(s) && k == 0 {
        var i :| 0 <= i < |s| - 1 && s[i] == 0 && IsOctal(s[i + 1]);
        assert s[1..][i - 1] == 0 && IsOctal(s[1..][i]);
      }
    }
  }

  // ---------------------------------------------------------------------------
  // Reading back what was printed
  // ---------------------------------------------------------------------------

  /** The text of s up to the closing quote. */
  function Rest(s: seq<Byte>, afterHex: bool): (t: string)
    ensures t != ""
  {
    Body(s, afterHex) + "\""
  }

  /** How the text continues after an escape: no hexadecimal digit after a hex escape, and
      after others an octal digit only if it is the next character. */
  lemma RestHead(s: seq<Byte>, afterHex: bool)
    ensures afterHex ==> !IsXDigit(Rest(s, afterHex)[0])
    ensures !afterHex && s != [] && IsOctal(s[0]) ==> Rest(s, afterHex) == [s[0] as char] + Rest(s[1..], false)
    ensures !afterHex && (s == [] || !IsOctal(s[0])) ==> !IsOctalDigit(Rest(s, afterHex)[0])
  {
    if s != [] {
      PieceHead(s[0]);
      if !afterHex && IsOctal(s[0]) {
        assert Rest(s, afterHex) == [s[0] as char] + (Body(s[1..], false) + "\"");
      }
    }
  }

  lemma PieceHead(c: Byte)
    ensures var (text, format) := StringCharLiteral(c);
      && text != "" && (text[0] == '\\' || text[0] == c as char)
      && (IsXDigit(c as char) ==> text == [c as char] && format == AsIs)
      && (text[0] != '\\' ==> text == [c as char] && format == AsIs && c != 34 && c != 92 && c != 10)
  {
  }

  /** A character other than NUL is read as itself. */
  lemma PieceIsRead(c: Byte, rest: string)
    requires c != 0 && rest != "" && (StringCharLiteral(c).1 == HexEscape ==> !IsXDigit(rest[0]))
    ensures Read(StringCharLiteral(c).0 + rest, true) == Prepend(c, Read(rest, true))
  {
    hide StringCharLiteral, Hex, Escape, Read, Prepend;
    var (text, format) := StringCharLiteral(c);
    var t := text + rest;
    if format == AsIs {
      AsIsIsRead(c);
      assert t[1..] == rest;
      ReadPlain(t);
    } else if format == HexEscape {
      HexIsRead(c, rest);
      assert t[1..] == ['x'] + (Hex(c) + rest) && t[2 + |Hex(c)|..] == rest;
      ReadEscape(t, c, 1 + |Hex(c)|);
    } else {
      SpecialIsRead(c, rest);
      assert t[1..] == [text[1]] + rest && t[2..] == rest;
      ReadEscape(t, c, 1);
    }
  }

  lemma AsIsIsRead(c: Byte)
    requires StringCharLiteral(c).1 == AsIs
    ensures var text := StringCharLiteral(c).0;
      text == [c as char] && text[0] != '"' && text[0] != '\\' && text[0] != '\n' && text[0] as nat == c
  {
  }

  lemma SpecialIsRead(c: Byte, rest: string)
    requires c != 0 && StringCharLiteral(c).1 == SpecialEscape
    ensures var text := StringCharLiteral(c).0;
      |text| == 2 && text[0] == '\\' && Escape([text[1]] + rest) == Some((c as nat, 1 as nat))
  {
  }

  lemma HexIsRead(c: Byte, rest: string)
    requires StringCharLiteral(c).1 == HexEscape && rest != "" && !IsXDigit(rest[0])
    ensures StringCharLiteral(c).0 == "\\x" + Hex(c)
    ensures Escape(['x'] + (Hex(c) + rest)) == Some((c as nat, 1 + |Hex(c)|))
  {
    HexRunStops(Hex(c), rest);
    HexValue(c);
    var t := ['x'] + (Hex(c) + rest);
    assert t[1..] == Hex(c) + rest && (Hex(c) + rest)[..|Hex(c)|] == Hex(c);
  }

  lemma {:induction false} HexRunStops(digits: string, rest: string)
    requires (forall i :: 0 <= i < |digits| ==> IsXDigit(digits[i])) && rest != "" && !IsXDigit(rest[0])
    ensures HexRun(digits + rest) == |digits|
  {
    if digits == "" {
      assert digits + rest == rest;
    } else {
      assert (digits + rest)[1..] == digits[1..] + rest;
      HexRunStops(digits[1..], rest);
    }
  }

  lemma HexValue(c: Byte)
    ensures forall i :: 0 <= i < |Hex(c)| ==> IsXDigit(Hex(c)[i])
    ensures Number(Hex(c), 16) == c
  {
    var h := Hex(c);
    if c < 16 {
      assert h[..0] == "" && Number("", 16) == 0;
      assert DigitValue(h[0]) == c;
    } else {
      assert h[..1] == [h[0]] && h[..1][..0] == "" && Number("", 16) == 0;
      assert Number(h[..1], 16) == DigitValue(h[0]) == c / 16;
      assert DigitValue(h[1]) == c % 16;
    }
  }

  /** A NUL is read together with up to two octal digits after it. */
  lemma NulIsRead(s: seq<Byte>)
    ensures var k := Swallowed(s);
      Read("\\0" + Rest(s, false), true) == Prepend(OctalValue(s[..k]), Read(Rest(s[k..], false), true))
  {
    hide Rest, Read;
    var k := Swallowed(s);
    var digits := DigitsOf(s[..k]);
    SwallowedText(s);
    OctalEscape(s[..k], Rest(s[k..], false), k == 2);
    var t := "\\0" + Rest(s, false);
    assert t[1..] == ['0'] + digits + Rest(s[k..], false) && t[2 + k..] == Rest(s[k..], false);
    ReadEscape(t, OctalValue(s[..k]), k + 1);
  }

  lemma ReadEscape(t: string, c: nat, n: nat)
    requires |t| > 1 + n && t[0] == '\\' && Escape(t[1..]) == Some((c, n))
    ensures Read(t, true) == Prepend(c, Read(t[1 + n..], true))
  {
    hide Escape, Prepend;
  }

  lemma ReadPlain(t: string)
    requires t != "" && t[0] != '"' && t[0] != '\n' && t[0] != '\\'
    ensures Read(t, true) == Prepend(t[0] as nat, Read(t[1..], true))
  {
    hide Escape, Prepend;
  }

  function DigitsOf(s: seq<Byte>): (t: string)
    ensures |t| == |s|
  {
    seq(|s|, i requires 0 <= i < |s| => s[i] as char)
  }

  lemma SwallowedText(s: seq<Byte>)
    ensures var k := Swallowed(s);
      && Rest(s, false) == DigitsOf(s[..k]) + Rest(s[k..], false)
      && (k < 2 ==> !IsOctalDigit(Rest(s[k..], false)[0]))
  {
    hide Rest;
    var k := Swallowed(s);
    RestHead(s, false);
    if k > 0 {
      assert DigitsOf(s[..1]) == [s[0] as char];
      RestHead(s[1..], false);
    }
    if k == 2 {
      assert DigitsOf(s[..2]) == [s[0] as char, s[1] as char];
      assert s[1..][1..] == s[2..];
    }
    if k == 0 {
      assert s[0..] == s && DigitsOf(s[..0]) == "";
    }
  }

  /** The octal escape that starts with 0: full, or ended by another character. */
  lemma OctalEscape(d: seq<Byte>, rest: string, full: bool)
    requires |d| <= 2 && (forall i :: 0 <= i < |d| ==> IsOctal(d[i])) && rest != ""
    requires full <==> |d| == 2
    requires !full ==> !IsOctalDigit(rest[0])
    ensures Escape(['0'] + DigitsOf(d) + rest) == Some((OctalValue(d), |d| + 1))
  {
    var digits := ['0'] + DigitsOf(d);
    var t := digits + rest;
    OctalRunOf(digits, rest, 3);
    assert t[..|digits|] == digits;
    assert digits[..1] == "0" && "0"[..0] == "" && Number("", 8) == 0 && Number("0", 8) == 0;
    if |d| == 1 {
      assert digits[..1] == "0";
    } else if |d| == 2 {
      assert digits[..2][..1] == "0" && Number(digits[..2], 8) == DigitValue(digits[1]);
    }
  }

  lemma {:induction false} OctalRunOf(digits: string, rest: string, max: nat)
    requires |digits| <= max && forall i :: 0 <= i < |digits| ==> IsOctalDigit(digits[i])
    requires rest != "" && (|digits| < max ==> !IsOctalDigit(rest[0]))
    ensures OctalRun(digits + rest, max) == |digits|
  {
    if digits == "" {
      assert digits + rest == rest;
    } else {
      assert (digits + rest)[1..] == digits[1..] + rest;
      OctalRunOf(digits[1..], rest, max - 1);
    }
  }

  /** A break before a digit ends one literal and starts the next. */
  lemma BreakIsRead(t: string)
    ensures Read("\" \"" + t, true) == Read(t, true)
  {
    var u := "\" \"" + t;
    var v, w := [' ', '"'] + t, ['"'] + t;
    assert u[1..] == v && v[1..] == w && w[1..] == t;
    assert Read(u, true) == Read(v, false) == Read(w, false) == Read(t, true);
  }

  /** The reader gets the collapsed string, for every string. */
  lemma {:induction false} BodyIsRead(s: seq<Byte>, afterHex: bool)
    ensures Read(Rest(s, afterHex), true) == Some(Collapse(s))
    decreases |s|, afterHex
  {
    hide StringCharLiteral, Read, Rest, Swallowed, OctalValue;
    RestStep(s, afterHex);
    if s == [] {
      ClosingQuote();
    } else if afterHex && IsXDigit(s[0] as char) {
      BreakIsRead(Rest(s, false));
      BodyIsRead(s, false);
    } else if s[0] == 0 {
      NulIsRead(s[1..]);
      var k := Swallowed(s[1..]);
      assert s[1..][k..] == s[1 + k..];
      BodyIsRead(s[1 + k..], false);
    } else {
      var format := StringCharLiteral(s[0]).1;
      RestHead(s[1..], format == HexEscape);
      PieceIsRead(s[0], Rest(s[1..], format == HexEscape));
      BodyIsRead(s[1..], format == HexEscape);
    }
  }

  lemma RestStep(s: seq<Byte>, afterHex: bool)
    ensures s == [] ==> Rest(s, afterHex) == "\""
    ensures s != [] && afterHex && IsXDigit(s[0] as char) ==> Rest(s, afterHex) == "\" \"" + Rest(s, false)
    ensures s != [] && !(afterHex && IsXDigit(s[0] as char)) ==>
      var (text, format) := StringCharLiteral(s[0]);
      Rest(s, afterHex) == text + Rest(s[1..], format == HexEscape)
    ensures s != [] && s[0] == 0 ==> Rest(s, afterHex) == "\\0" + Rest(s[1..], false)
  {
    hide StringCharLiteral;
    NulLiteral();
  }

  lemma NulLiteral()
    ensures StringCharLiteral(0) == ("\\0", SpecialEscape)
  {
  }

  lemma ClosingQuote()
    ensures Read("\"", true) == Some([])
  {
    assert "\""[1..] == "";
  }

  /** Reading the printed text back gives the original characters if and only if no NUL is
      directly followed by an octal digit. */
  lemma PrintedTextRoundTrip(s: seq<Byte>)
    ensures Read("\"" + Body(s, false) + "\"", false) == Some(Collapse(s))
    ensures Read("\"" + Body(s, false) + "\"", false) == Some(s) <==> !HasNulBeforeOctal(s)
  {
    BodyIsRead(s, false);
    CollapseShortens(s);
    assert ("\"" + Body(s, false) + "\"")[1..] == Rest(s, false);
  }
}
