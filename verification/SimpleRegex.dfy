/**
  The simple regular expressions of gtest-port: abstract syntax and its denotation first,
  then the validator, the matcher and class RE on C strings.
 */
module SimpleRegex {
  import opened Common

  // ---------------------------------------------------------------------------
  // Abstract syntax
  // ---------------------------------------------------------------------------

  /** A character c, or the escape sequence made of a backslash and c. */
  datatype Atom = Atom(escaped: bool, c: char)

  datatype Repeat = Once | Optional | Star | Plus

  datatype Item = Item(atom: Atom, repeat: Repeat)

  /** An optional ^, a sequence of possibly repeated atoms, and an optional $. */
  datatype Regex = Regex(start: bool, items: seq<Item>, end: bool)

  predicate IsInSet(ch: char, s: string) {
    ch != '\0' && ch in s
  }

  predicate IsAsciiDigit(ch: char) { '0' <= ch <= '9' }

  predicate IsAsciiPunct(ch: char) {
    IsInSet(ch, "^-!\"#$%&'()*+,./:;<=>?@[\\]_`{|}~")
  }

  predicate IsRepeat(ch: char) { IsInSet(ch, "?*+") }

  predicate IsUnsupported(ch: char) { IsInSet(ch, "()[]{}|") }

  /** ?, * and + cannot follow these. */
  predicate IsUnrepeatable(ch: char) { IsInSet(ch, "^$?*+") }

  predicate IsAsciiWhiteSpace(ch: char) { IsInSet(ch, " \U{0C}\n\r\t\U{0B}") }

  predicate IsAsciiWordChar(ch: char) {
    'a' <= ch <= 'z' || 'A' <= ch <= 'Z' || '0' <= ch <= '9' || ch == '_'
  }

  predicate IsValidEscape(c: char) {
    IsAsciiPunct(c) || IsInSet(c, "dDfnrsStvwW")
  }

  predicate AtomMatchesChar(escaped: bool, patternChar: char, ch: char) {
    if escaped then
      match patternChar
      case 'd' => IsAsciiDigit(ch)
      case 'D' => !IsAsciiDigit(ch)
      case 'f' => ch == '\U{0C}'
      case 'n' => ch == '\n'
      case 'r' => ch == '\r'
      case 's' => IsAsciiWhiteSpace(ch)
      case 'S' => !IsAsciiWhiteSpace(ch)
      case 't' => ch == '\t'
      case 'v' => ch == '\U{0B}'
      case 'w' => IsAsciiWordChar(ch)
      case 'W' => !IsAsciiWordChar(ch)
      case _ => IsAsciiPunct(patternChar) && patternChar == ch
    else
      (patternChar == '.' && ch != '\n') || patternChar == ch
  }

  /** A character that stands for itself, or the dot. */
  predicate IsPlain(c: char) {
    c != '\0' && c !in "\\^$?*+()[]{}|"
  }

  /** A letter with a meaning of its own, or ASCII punctuation. */
  predicate IsEscape(c: char) {
    c in "dDfnrsStvwW" || '!' <= c <= '/' || ':' <= c <= '@' || '[' <= c <= '`' || '{' <= c <= '~'
  }

  /** The escape sequences that the code supports. */
  lemma EscapesAreExact(c: char)
    ensures IsValidEscape(c) <==> IsEscape(c)
  {
  }

  predicate WellFormedAtom(a: Atom) {
    if a.escaped then IsEscape(a.c) else IsPlain(a.c)
  }

  ghost predicate WellFormed(items: seq<Item>) {
    forall i :: 0 <= i < |items| ==> WellFormedAtom(items[i].atom)
  }

  function RenderAtom(a: Atom): string {
    if a.escaped then ['\\', a.c] else [a.c]
  }

  function RenderRepeat(r: Repeat): string {
    match r
    case Once => ""
    case Optional => "?"
    case Star => "*"
    case Plus => "+"
  }

  /** The items and the end anchor as written in a pattern, with the terminating NUL. */
  function RenderTail(items: seq<Item>, end: bool): (s: string)
    ensures |s| > 0
  {
    if items == [] then (if end then ['$', '\0'] else ['\0'])
    else RenderAtom(items[0].atom) + RenderRepeat(items[0].repeat) + RenderTail(items[1..], end)
  }

  function Render(r: Regex): (s: string)
    ensures |s| > 0
  {
    if r.start then ['^'] + RenderTail(r.items, r.end) else RenderTail(r.items, r.end)
  }

  /** s is the written form of a regular expression. */
  ghost predicate IsWritten(s: string) {
    exists r: Regex :: WellFormed(r.items) && s == Render(r)
  }

  // ---------------------------------------------------------------------------
  // Denotation
  // ---------------------------------------------------------------------------

  function MinCount(r: Repeat): nat {
    if r == Once || r == Plus then 1 else 0
  }

  const WORD_CHARACTERS: string :=
    ("ABCDEFGH" + "IJKLMNOP" + "QRSTUVWX" + "YZabcdef") + ("ghijklmn" + "opqrstuv" + "wxyz0123" + "456789_")

  /** The characters that an atom stands for. */
  predicate Denotes(a: Atom, ch: char) {
    if !a.escaped then (if a.c == '.' then ch as int != 10 else ch == a.c)
    else
      match a.c
      case 'd' => ch in "0123456789"
      case 'D' => ch !in "0123456789"
      case 'f' => ch as int == 12
      case 'n' => ch as int == 10
      case 'r' => ch as int == 13
      case 's' => ch as int in [9, 10, 11, 12, 13, 32]
      case 'S' => ch as int !in [9, 10, 11, 12, 13, 32]
      case 't' => ch as int == 9
      case 'v' => ch as int == 11
      case 'w' => ch in WORD_CHARACTERS
      case 'W' => ch !in WORD_CHARACTERS
      case c => ch == c
  }

  /** The code's test of an atom is exact, for every atom that a pattern can have. */
  lemma AtomIsExact(a: Atom, ch: char)
    requires WellFormedAtom(a)
    ensures AtomMatchesChar(a.escaped, a.c, ch) <==> Denotes(a, ch)
  {
    hide IsAsciiWordChar;
    WordCharacters(ch);
  }

  lemma WordCharacters(ch: char)
    ensures IsAsciiWordChar(ch) <==> ch in WORD_CHARACTERS
  {
  }

  predicate InRepeat(item: Item, w: string) {
    && |w| >= MinCount(item.repeat)
    && (item.repeat == Once || item.repeat == Optional ==> |w| <= 1)
    && forall i :: 0 <= i < |w| ==> Denotes(item.atom, w[i])
  }

  /** w is a concatenation of one word of each item. */
  ghost predicate InLanguage(items: seq<Item>, w: string) {
    if items == [] then w == []
    else exists k :: 0 <= k <= |w| && InRepeat(items[0], w[..k]) && InLanguage(items[1..], w[k..])
  }

  /** A prefix of s is in the language; all of s, when anchored at the end. */
  ghost predicate MatchesAtHead(items: seq<Item>, end: bool, s: string) {
    exists n :: 0 <= n <= |s| && InLanguage(items, s[..n]) && (end ==> n == |s|)
  }

  /** Some substring of s that respects the anchors is in the language. */
  ghost predicate Matches(r: Regex, s: string) {
    exists i :: 0 <= i <= |s| && (r.start ==> i == 0) && MatchesAtHead(r.items, r.end, s[i..])
  }

  /** A pattern of one atom matches the strings that have a character it stands for. */
  lemma OneAtomMatches(a: Atom, s: string)
    ensures Matches(Regex(false, [Item(a, Once)], false), s) <==> exists i :: 0 <= i < |s| && Denotes(a, s[i])
  {
    hide Denotes;
    var items := [Item(a, Once)];
    assert items[1..] == [];
    if i :| 0 <= i < |s| && Denotes(a, s[i]) {
      var t := s[i..];
      assert t[..1][0] == s[i] && t[..1][..1] == t[..1] && t[..1][1..] == [];
      assert InRepeat(items[0], t[..1][..1]) && InLanguage([], t[..1][1..]);
      assert InLanguage(items, t[..1]);
      assert MatchesAtHead(items, false, t);
    }
    if Matches(Regex(false, items, false), s) {
      var i :| 0 <= i <= |s| && MatchesAtHead(items, false, s[i..]);
      var n :| 0 <= n <= |s[i..]| && InLanguage(items, s[i..][..n]);
      var k :| 0 <= k <= n && InRepeat(items[0], s[i..][..n][..k]) && InLanguage(items[1..], s[i..][..n][k..]);
      assert s[i..][..n][..k][0] == s[i];
    }
  }

  /** The first item takes some prefix, the others take over from there. */
  lemma FirstItem(items: seq<Item>, end: bool, s: string)
    requires items != []
    ensures MatchesAtHead(items, end, s) <==>
      exists k :: 0 <= k <= |s| && InRepeat(items[0], s[..k]) && MatchesAtHead(items[1..], end, s[k..])
  {
    if MatchesAtHead(items, end, s) {
      var n :| 0 <= n <= |s| && InLanguage(items, s[..n]) && (end ==> n == |s|);
      var k :| 0 <= k <= n && InRepeat(items[0], s[..n][..k]) && InLanguage(items[1..], s[..n][k..]);
      assert s[..n][..k] == s[..k] && s[..n][k..] == s[k..][..n - k];
    }
    if k :| 0 <= k <= |s| && InRepeat(items[0], s[..k]) && MatchesAtHead(items[1..], end, s[k..]) {
      var m :| 0 <= m <= |s[k..]| && InLanguage(items[1..], s[k..][..m]) && (end ==> m == |s[k..]|);
      assert s[..k + m][..k] == s[..k] && s[..k + m][k..] == s[k..][..m];
      assert InLanguage(items, s[..k + m]);
    }
  }

  // ---------------------------------------------------------------------------
  // C strings
  // ---------------------------------------------------------------------------

  /** A pointer to characters up to and including the first NUL. */
  predicate IsCString(s: string) {
    && |s| > 0 && s[|s| - 1] == '\0'
    && forall i :: 0 <= i < |s| - 1 ==> s[i] != '\0'
  }

  function Text(s: string): string
    requires |s| > 0
  {
    s[..|s| - 1]
  }

  /** Positions in memory fit into size_t. */
  const SIZE_MAX: int := 0xFFFF_FFFF_FFFF_FFFF

  // ---------------------------------------------------------------------------
  // ValidateRegex
  // ---------------------------------------------------------------------------

  /** No complaint is found in s, where first says whether s is the whole pattern and
      repeatable whether ?, * or + may come next. */
  predicate Accepts(s: string, first: bool, repeatable: bool)
    requires IsCString(s)
    decreases |s|
  {
    if s[0] == '\0' then true
    else if s[0] == '\\' then
      s[1] != '\0' && IsEscape(s[1]) && Accepts(s[2..], false, true)
    else
      && !(s[0] == '^' && !first)
      && !(s[0] == '$' && s[1] != '\0')
      && !IsUnsupported(s[0])
      && !(IsRepeat(s[0]) && !repeatable)
      && Accepts(s[1..], false, !IsUnrepeatable(s[0]))
  }

  method ValidateRegex(regex: Option<string>) returns (valid: bool)
    requires regex.Some? ==> IsCString(regex.value)
    ensures valid <==> regex.Some? && IsWritten(regex.value)
  {
    hide IsAsciiPunct, IsEscape, IsValidEscape, IsInSet, IsRepeat, IsUnsupported, IsUnrepeatable, IsWritten, AcceptsFrom, IsCString;
    if regex == None {
      return false;
    }
    var s := regex.value;
    ScanStarts(s);
    valid := true;
    var prevRepeatable := false;
    var i := 0;
    while s[i] != '\0'
      invariant 0 <= i < |s|
      invariant IsWritten(s) <==> valid && AcceptsFrom(s, i, prevRepeatable)
      decreases |s| - i
    {
      AcceptsAt(s, i, prevRepeatable);
      if s[i] == '\\' {
        i := i + 1;
        if s[i] == '\0' {
          return false;
        }
        if !IsValidEscape(s[i]) {
          valid := false;
        }
        prevRepeatable := true;
      } else {
        var ch := s[i];
        if ch == '^' && i > 0 {
          valid := false;
        } else if ch == '$' && s[i + 1] != '\0' {
          valid := false;
        } else if IsUnsupported(ch) {
          valid := false;
        } else if IsRepeat(ch) && !prevRepeatable {
          valid := false;
        }
        prevRepeatable := !IsUnrepeatable(ch);
      }
      i := i + 1;
    }
    AcceptsAt(s, i, prevRepeatable);
  }

  /** No complaint is found from position i on. */
  ghost predicate AcceptsFrom(s: string, i: nat, repeatable: bool)
    requires IsCString(s) && i < |s|
  {
    Accepts(s[i..], i == 0, repeatable)
  }

  lemma ScanStarts(s: string)
    requires IsCString(s)
    ensures |s| > 0 && (IsWritten(s) <==> AcceptsFrom(s, 0, false))
  {
    hide IsWritten, Accepts;
    AcceptsExactlyRenderings(s);
    assert s[0..] == s;
  }

  /** One step of the scan, at position i of a pattern. */
  lemma AcceptsAt(s: string, i: nat, repeatable: bool)
    requires IsCString(s) && i < |s|
    ensures s[i] == '\0' ==> AcceptsFrom(s, i, repeatable)
    ensures s[i] != '\0' ==> i + 1 < |s|
    ensures s[i] == '\\' && s[i + 1] != '\0' ==> i + 2 < |s|
    ensures s[i] == '\\' ==>
      (AcceptsFrom(s, i, repeatable) <==>
        s[i + 1] != '\0' && IsValidEscape(s[i + 1]) && AcceptsFrom(s, i + 2, true))
    ensures s[i] != '\\' && s[i] != '\0' ==>
      (AcceptsFrom(s, i, repeatable) <==>
        && !(s[i] == '^' && i > 0) && !(s[i] == '$' && s[i + 1] != '\0')
        && !IsUnsupported(s[i]) && !(IsRepeat(s[i]) && !repeatable)
        && AcceptsFrom(s, i + 1, !IsUnrepeatable(s[i])))
  {
    hide IsAsciiPunct, IsEscape, IsValidEscape, IsInSet, IsRepeat, IsUnsupported, IsUnrepeatable;
    if s[i] == '\\' {
      EscapesAreExact(s[i + 1]);
    }
    var t := s[i..];
    assert |t| > 1 ==> t[1..] == s[i + 1..];
    assert |t| > 2 ==> t[2..] == s[i + 2..];
  }

  /** How the character sets of the validator divide the characters. */
  lemma CharacterSets(c: char)
    ensures IsPlain(c) <==>
      c != '\0' && c != '\\' && c != '^' && c != '$' && !IsUnsupported(c) && !IsRepeat(c)
    ensures IsPlain(c) ==> !IsUnrepeatable(c)
    ensures c == '^' || c == '$' || IsRepeat(c) ==> IsUnrepeatable(c) && !IsUnsupported(c)
    ensures IsRepeat(c) <==> c == '?' || c == '*' || c == '+'
  {
  }

  lemma {:induction false} RenderingIsCString(items: seq<Item>, end: bool)
    requires WellFormed(items)
    ensures IsCString(RenderTail(items, end))
    ensures !IsRepeat(RenderTail(items, end)[0]) && RenderTail(items, end)[0] != '^'
  {
    hide IsPlain, IsInSet, IsRepeat, IsUnsupported, IsUnrepeatable, IsAsciiPunct;
    CharacterSets(RenderTail(items, end)[0]);
    if items != [] {
      RenderingIsCString(items[1..], end);
      assert WellFormedAtom(items[0].atom);
      if items[0].atom.escaped {
        EscapeIsNotNul(items[0].atom.c);
      } else {
        CharacterSets(items[0].atom.c);
      }
    }
  }

  lemma EscapeIsNotNul(c: char)
    requires IsEscape(c)
    ensures c != '\0'
  {
  }

  lemma AcceptsRepeat(r: Repeat, rest: string)
    requires IsCString(rest) && Accepts(rest, false, false) && Accepts(rest, false, true)
    ensures IsCString(RenderRepeat(r) + rest) && Accepts(RenderRepeat(r) + rest, false, true)
  {
    if r == Once {
      assert RenderRepeat(r) + rest == rest;
    } else {
      assert (RenderRepeat(r) + rest)[1..] == rest;
    }
  }

  lemma AcceptsAtom(a: Atom, rest: string, first: bool, repeatable: bool)
    requires WellFormedAtom(a) && IsCString(rest) && Accepts(rest, false, true)
    ensures IsCString(RenderAtom(a) + rest) && Accepts(RenderAtom(a) + rest, first, repeatable)
  {
    hide IsPlain, IsInSet, IsRepeat, IsUnsupported, IsUnrepeatable, IsAsciiPunct;
    CharacterSets(a.c);
    CharacterSets('\\');
    assert (RenderAtom(a) + rest)[|RenderAtom(a)|..] == rest;
    if a.escaped {
      EscapeIsNotNul(a.c);
    }
  }

  lemma {:induction false} RenderingIsAccepted(items: seq<Item>, end: bool, first: bool, repeatable: bool)
    requires WellFormed(items)
    ensures IsCString(RenderTail(items, end)) && Accepts(RenderTail(items, end), first, repeatable)
    decreases |items|
  {
    hide Accepts, IsCString, IsPlain, IsInSet, IsRepeat, IsUnsupported, IsUnrepeatable, IsAsciiPunct, IsEscape;
    if items == [] {
      EmptyTails();
      EmptyTailsAreAccepted(first, repeatable);
    } else {
      var rest := RenderTail(items[1..], end);
      RenderingIsAccepted(items[1..], end, false, false);
      RenderingIsAccepted(items[1..], end, false, true);
      AcceptsRepeat(items[0].repeat, rest);
      assert WellFormedAtom(items[0].atom);
      AcceptsAtom(items[0].atom, RenderRepeat(items[0].repeat) + rest, first, repeatable);
      assert RenderTail(items, end) == RenderAtom(items[0].atom) + (RenderRepeat(items[0].repeat) + rest);
    }
  }

  lemma EmptyTailsAreAccepted(first: bool, repeatable: bool)
    ensures IsCString(['\0']) && Accepts(['\0'], first, repeatable)
    ensures IsCString(['$', '\0']) && Accepts(['$', '\0'], first, repeatable)
  {
    assert ['$', '\0'][1..] == ['\0'];
  }

  lemma RenderCons(a: Atom, r: Repeat, rest: seq<Item>, end: bool)
    ensures RenderTail([Item(a, r)] + rest, end) == RenderAtom(a) + (RenderRepeat(r) + RenderTail(rest, end))
  {
    assert ([Item(a, r)] + rest)[1..] == rest;
  }

  /** Reads an accepted pattern back: first the repetition of the atom before, if any. */
  lemma {:induction false} ReadBack(s: string, repeatable: bool) returns (repeat: Repeat, items: seq<Item>, end: bool)
    requires IsCString(s) && Accepts(s, false, repeatable)
    ensures repeat != Once ==> repeatable
    ensures WellFormed(items) && s == RenderRepeat(repeat) + RenderTail(items, end)
    decreases |s|
  {
    hide IsPlain, IsInSet, IsAsciiPunct, IsEscape, IsRepeat, IsUnsupported, IsUnrepeatable, RenderTail;
    CharacterSets(s[0]);
    if s[0] == '\0' {
      repeat, items, end := Once, [], false;
      EmptyTails();
    } else if s[0] == '\\' {
      var r, rest, e := ReadBack(s[2..], true);
      repeat, items, end := Once, [Item(Atom(true, s[1]), r)] + rest, e;
      RenderCons(Atom(true, s[1]), r, rest, e);
      assert s == [s[0], s[1]] + s[2..];
    } else if IsRepeat(s[0]) {
      var r, rest, e := ReadBack(s[1..], false);
      repeat, items, end := if s[0] == '?' then Optional else if s[0] == '*' then Star else Plus, rest, e;
      assert s == [s[0]] + s[1..];
    } else if s[0] == '$' {
      repeat, items, end := Once, [], true;
      EmptyTails();
      assert s == ['$', '\0'];
    } else {
      var r, rest, e := ReadBack(s[1..], true);
      repeat, items, end := Once, [Item(Atom(false, s[0]), r)] + rest, e;
      RenderCons(Atom(false, s[0]), r, rest, e);
      assert s == [s[0]] + s[1..];
    }
  }

  lemma EmptyTails()
    ensures RenderTail([], false) == ['\0'] && RenderTail([], true) == ['$', '\0']
  {
  }

  lemma AcceptsExactlyRenderings(s: string)
    requires IsCString(s)
    ensures Accepts(s, true, false) <==> IsWritten(s)
  {
    hide Render, Accepts, WellFormed;
    if r: Regex :| WellFormed(r.items) && s == Render(r) {
      RenderingPasses(r);
    }
    if Accepts(s, true, false) {
      var r := PassingIsRendering(s);
    }
  }

  lemma RenderingPasses(r: Regex)
    requires WellFormed(r.items)
    ensures IsCString(Render(r)) && Accepts(Render(r), true, false)
  {
    hide RenderTail, Accepts, WellFormed, IsInSet, IsRepeat, IsUnsupported, IsUnrepeatable, IsPlain;
    RenderingIsAccepted(r.items, r.end, true, false);
    RenderingIsAccepted(r.items, r.end, false, false);
    if r.start {
      var s := Render(r);
      assert s[1..] == RenderTail(r.items, r.end);
      StartAnchor(s);
    }
  }

  lemma PassingIsRendering(s: string) returns (r: Regex)
    requires IsCString(s) && Accepts(s, true, false)
    ensures WellFormed(r.items) && s == Render(r)
  {
    hide RenderTail, Accepts, WellFormed, IsInSet, IsRepeat, IsUnsupported, IsUnrepeatable, IsPlain;
    StartAnchor(s);
    var repeat, items, end := ReadBack(if s[0] == '^' then s[1..] else s, false);
    r := Regex(s[0] == '^', items, end);
  }

  /** The whole pattern may start with ^; otherwise it is judged like any later part. */
  lemma StartAnchor(s: string)
    requires IsCString(s)
    ensures s[0] == '^' ==> IsCString(s[1..]) && (Accepts(s, true, false) <==> Accepts(s[1..], false, false))
    ensures s[0] != '^' ==> (Accepts(s, true, false) <==> Accepts(s, false, false))
  {
  }

  // ---------------------------------------------------------------------------
  // Matching
  // ---------------------------------------------------------------------------

  /** How a pattern s that starts with item continues. */
  ghost predicate HeadShape(item: Item, tail: string, s: string) {
    && |s| > 1 && item.atom.escaped == (s[0] == '\\')
    && var p := if s[0] == '\\' then s[1..] else s;
      && |p| > 1 && item.atom.c == p[0]
      && (IsRepeat(p[1]) <==> item.repeat != Once)
      && (IsRepeat(p[1]) ==> [p[1]] == RenderRepeat(item.repeat) && p[2..] == tail)
      && (!IsRepeat(p[1]) ==> p[1..] == tail)
  }

  lemma HeadHasShape(item: Item, tail: string, s: string)
    requires WellFormedAtom(item.atom) && |tail| > 0 && !IsRepeat(tail[0])
    requires s == RenderAtom(item.atom) + RenderRepeat(item.repeat) + tail
    ensures HeadShape(item, tail, s) && s[0] != '\0' && s[0] != '$'
  {
    hide IsPlain, IsInSet, IsAsciiPunct, IsEscape, IsRepeat, IsUnsupported, IsUnrepeatable;
    CharacterSets(item.atom.c);
    var p := [item.atom.c] + (RenderRepeat(item.repeat) + tail);
    assert item.atom.escaped ==> s[1..] == p;
    assert !item.atom.escaped ==> s == p;
    CharacterSets(p[1]);
    assert item.repeat != Once ==> p[2..] == tail;
    assert item.repeat == Once ==> p[1..] == tail;
  }

  /** What the matcher sees at the head of a pattern. */
  lemma TailShape(items: seq<Item>, end: bool)
    requires WellFormed(items)
    ensures RenderTail(items, end)[0] == '\0' <==> items == [] && !end
    ensures RenderTail(items, end)[0] == '$' <==> items == [] && end
    ensures items != [] ==> WellFormed(items[1..]) && HeadShape(items[0], RenderTail(items[1..], end), RenderTail(items, end))
  {
    hide IsPlain, IsInSet, IsAsciiPunct, IsEscape, IsRepeat, IsUnsupported, IsUnrepeatable, HeadShape;
    if items != [] {
      RenderingIsCString(items[1..], end);
      assert WellFormedAtom(items[0].atom);
      HeadHasShape(items[0], RenderTail(items[1..], end), RenderTail(items, end));
    }
  }

  /** The head of a pattern determines its first item and what comes after. */
  lemma HeadIsUnambiguous(i: Item, j: Item, t: string, u: string, s: string)
    requires HeadShape(i, t, s) && HeadShape(j, u, s)
    ensures i == j && t == u
  {
    hide IsInSet, IsRepeat;
    RepeatsDiffer(i.repeat, j.repeat);
  }

  lemma RepeatsDiffer(r: Repeat, s: Repeat)
    ensures RenderRepeat(r) == RenderRepeat(s) ==> r == s
  {
  }

  /** A written form has one reading. */
  lemma {:induction false} TailIsUnambiguous(items: seq<Item>, end: bool, items': seq<Item>, end': bool)
    requires WellFormed(items) && WellFormed(items') && RenderTail(items, end) == RenderTail(items', end')
    ensures items == items' && end == end'
  {
    hide RenderTail, HeadShape;
    TailShape(items, end);
    TailShape(items', end');
    if items != [] {
      var s := RenderTail(items, end);
      HeadIsUnambiguous(items[0], items'[0], RenderTail(items[1..], end), RenderTail(items'[1..], end'), s);
      TailIsUnambiguous(items[1..], end, items'[1..], end');
      assert items == [items[0]] + items[1..] && items' == [items'[0]] + items'[1..];
    }
  }

  /** No pattern is the written form of two regular expressions. */
  lemma RenderIsUnambiguous(r: Regex, r': Regex)
    requires WellFormed(r.items) && WellFormed(r'.items) && Render(r) == Render(r')
    ensures r == r'
  {
    hide RenderTail, WellFormed;
    RenderingIsCString(r.items, r.end);
    RenderingIsCString(r'.items, r'.end);
    var s := Render(r);
    assert r.start ==> s[1..] == RenderTail(r.items, r.end);
    assert r'.start ==> s[1..] == RenderTail(r'.items, r'.end);
    TailIsUnambiguous(r.items, r.end, r'.items, r'.end);
  }

  lemma EmptyMatches(s: string)
    ensures MatchesAtHead([], false, s)
    ensures MatchesAtHead([], true, s) <==> s == []
  {
    assert InLanguage([], s[..0]);
    assert s[..|s|] == s;
  }

  /** Matches a repeated atom, followed by the pattern regex. */
  method MatchRepetitionAndRegexAtHead(escaped: bool, c: char, repeat: char, regex: string, str: string,
                                       ghost item: Item, ghost items: seq<Item>, ghost end: bool)
    returns (found: bool)
    requires IsCString(str) && |str| <= SIZE_MAX
    requires WellFormed(items) && regex == RenderTail(items, end)
    requires WellFormedAtom(item.atom) && item.atom == Atom(escaped, c) && [repeat] == RenderRepeat(item.repeat)
    ensures found <==> MatchesAtHead([item] + items, end, Text(str))
    decreases |regex|, 1
  {
    hide AtomMatchesChar, Denotes, IsInSet, IsAsciiPunct, IsEscape, IsPlain, RenderTail, MatchesAtHead, WellFormed;
    var minCount := if repeat == '+' then 1 else 0;
    var maxCount := if repeat == '?' then 1 else SIZE_MAX - 1;
    var i := 0;
    while i <= maxCount
      invariant 0 <= i < |str| && i <= maxCount + 1
      invariant forall k :: 0 <= k < i ==> Denotes(item.atom, str[k])
      invariant forall k :: minCount <= k < i ==> !MatchesAtHead(items, end, Text(str)[k..])
    {
      if i >= minCount {
        assert Text(str[i..]) == Text(str)[i..];
        found := MatchRegexAtHead(regex, str[i..], items, end);
        if found {
          RepetitionFound(item, items, end, Text(str), i);
          return true;
        }
      }
      AtomIsExact(item.atom, str[i]);
      if str[i] == '\0' || !AtomMatchesChar(escaped, c, str[i]) {
        RepetitionExhausted(item, items, end, Text(str), i);
        return false;
      }
      i := i + 1;
    }
    assert repeat == '?' && item.repeat == Optional;
    RepetitionExhausted(item, items, end, Text(str), 1);
    return false;
  }

  /** The first i characters are a word of the item, and the others match the rest. */
  lemma RepetitionFound(item: Item, items: seq<Item>, end: bool, s: string, i: nat)
    requires MinCount(item.repeat) <= i <= |s| && (item.repeat == Once || item.repeat == Optional ==> i <= 1)
    requires forall k :: 0 <= k < i ==> Denotes(item.atom, s[k])
    requires MatchesAtHead(items, end, s[i..])
    ensures MatchesAtHead([item] + items, end, s)
  {
    hide Denotes, MatchesAtHead;
    assert ([item] + items)[1..] == items;
    FirstItem([item] + items, end, s);
    assert InRepeat(item, s[..i]);
  }

  /** No word of the item is longer than i, and none up to there leaves a match. */
  lemma RepetitionExhausted(item: Item, items: seq<Item>, end: bool, s: string, i: nat)
    requires i <= |s| && item.repeat != Once
    requires forall k :: MinCount(item.repeat) <= k <= i ==> !MatchesAtHead(items, end, s[k..])
    requires (item.repeat == Optional && i == 1) || i == |s| || !Denotes(item.atom, s[i])
    ensures !MatchesAtHead([item] + items, end, s)
  {
    hide Denotes, MatchesAtHead;
    assert ([item] + items)[1..] == items;
    FirstItem([item] + items, end, s);
    if item.repeat == Optional && i == 1 {
      assert forall k :: i < k <= |s| ==> |s[..k]| > 1;
    } else {
      NoLongerPrefix(item, s, i);
    }
  }

  /** A word of a repeated atom does not reach beyond a character the atom does not match. */
  lemma NoLongerPrefix(item: Item, s: string, i: nat)
    requires i <= |s| && (i < |s| ==> !Denotes(item.atom, s[i]))
    ensures forall k :: i < k <= |s| ==> !InRepeat(item, s[..k])
  {
    forall k | i < k <= |s| ensures !InRepeat(item, s[..k]) {
      assert s[..k][i] == s[i];
    }
  }

  /** True if and only if regex matches a prefix of str. */
  method MatchRegexAtHead(regex: string, str: string, ghost items: seq<Item>, ghost end: bool) returns (found: bool)
    requires IsCString(str) && |str| <= SIZE_MAX
    requires WellFormed(items) && regex == RenderTail(items, end)
    ensures found <==> MatchesAtHead(items, end, Text(str))
    decreases |regex|, 0
  {
    hide AtomMatchesChar, Denotes, IsInSet, IsAsciiPunct, IsEscape, IsPlain, IsRepeat, IsUnsupported, IsUnrepeatable, RenderTail, MatchesAtHead, WellFormed;
    TailShape(items, end);
    EmptyMatches(Text(str));
    if regex[0] == '\0' {
      return true;
    }
    if regex[0] == '$' {
      return str[0] == '\0';
    }
    ghost var item, rest := items[0], items[1..];
    assert items == [item] + rest;
    var escaped := regex[0] == '\\';
    var p := if escaped then regex[1..] else regex;
    assert WellFormedAtom(item.atom) by {
      FirstIsWellFormed(items);
    }
    if IsRepeat(p[1]) {
      found := MatchRepetitionAndRegexAtHead(escaped, p[0], p[1], p[2..], str, item, rest, end);
    } else {
      OneCharacter(item, rest, end, Text(str));
      AtomIsExact(item.atom, str[0]);
      if str[0] != '\0' && AtomMatchesChar(escaped, p[0], str[0]) {
        assert Text(str[1..]) == Text(str)[1..];
        found := MatchRegexAtHead(p[1..], str[1..], rest, end);
      } else {
        found := false;
      }
    }
  }

  lemma FirstIsWellFormed(items: seq<Item>)
    requires WellFormed(items) && items != []
    ensures WellFormedAtom(items[0].atom)
  {
  }

  lemma OneCharacter(item: Item, rest: seq<Item>, end: bool, s: string)
    requires item.repeat == Once
    ensures MatchesAtHead([item] + rest, end, s) <==>
      s != [] && Denotes(item.atom, s[0]) && MatchesAtHead(rest, end, s[1..])
  {
    assert ([item] + rest)[1..] == rest;
    FirstItem([item] + rest, end, s);
    if s != [] && Denotes(item.atom, s[0]) {
      assert InRepeat(item, s[..1]);
    }
    forall k | 0 <= k <= |s| && InRepeat(item, s[..k])
      ensures k == 1 && Denotes(item.atom, s[0])
    {
      assert |s[..k]| == 1;
    }
  }

  /** True if and only if regex, when valid, matches any substring of str. */
  method MatchRegexAnywhere(regex: Option<string>, str: Option<string>, ghost r: Regex) returns (found: bool)
    requires str.Some? ==> IsCString(str.value) && |str.value| <= SIZE_MAX
    requires regex.Some? ==> WellFormed(r.items) && regex.value == Render(r)
    ensures found <==> regex.Some? && str.Some? && Matches(r, Text(str.value))
  {
    if regex == None || str == None {
      return false;
    }
    var p, s := regex.value, str.value;
    RenderingIsCString(r.items, r.end);
    if p[0] == '^' {
      assert p[1..] == RenderTail(r.items, r.end);
      found := MatchRegexAtHead(p[1..], s, r.items, r.end);
      assert Text(s)[0..] == Text(s);
      return;
    }
    var i := 0;
    while true
      invariant 0 <= i < |s|
      invariant forall k :: 0 <= k < i ==> !MatchesAtHead(r.items, r.end, Text(s)[k..])
      decreases |s| - i
    {
      assert Text(s[i..]) == Text(s)[i..];
      found := MatchRegexAtHead(p, s[i..], r.items, r.end);
      if found {
        return true;
      }
      if s[i] == '\0' {
        return false;
      }
      i := i + 1;
    }
  }

  // ---------------------------------------------------------------------------
  // Class RE
  // ---------------------------------------------------------------------------

  /** The last item is an unrepeated \$, and no end anchor follows it. */
  predicate EndsInEscapedDollar(r: Regex) {
    !r.end && r.items != [] && r.items[|r.items| - 1] == Item(Atom(true, '$'), Once)
  }

  /** What the full pattern means: anchored at the start, and at the end unless the pattern
      already ends in a dollar sign, anchor or not. */
  function FullRegex(r: Regex): Regex {
    Regex(true, r.items, !EndsInEscapedDollar(r))
  }

  class RE {
    var pattern: string
    var fullPattern: string
    var isValid: bool
    /** The abstract syntax of the pattern, when it is valid. */
    ghost var regex: Regex

    ghost predicate Valid()
      reads this
    {
      isValid ==>
        && WellFormed(regex.items)
        && pattern + ['\0'] == Render(regex)
        && fullPattern + ['\0'] == Render(FullRegex(regex))
    }

    method Init(re: Option<string>)
      requires re.Some? ==> IsCString(re.value)
      modifies this
      ensures Valid()
      ensures isValid <==> re.Some? && IsWritten(re.value)
      ensures isValid ==> re.value == Render(regex)
      ensures pattern == (if re.Some? then Text(re.value) else "") && (!isValid ==> fullPattern == "")
    {
      hide Text, Render, WellFormed, FullRegex, FullPatternOf;
      fullPattern := "";
      pattern := "";
      if re.Some? {
        pattern := Text(re.value);
      }
      isValid := ValidateRegex(re);
      if !isValid {
        return;
      }
      ghost var r: Regex :| WellFormed(r.items) && re.value == Render(r);
      regex := r;
      FullPatternIsRendering(r);
      fullPattern := AddAnchors(pattern, r);
    }

    /** True if and only if the pattern is valid and matches a substring of str. */
    method PartialMatch(str: string) returns (found: bool)
      requires Valid() && IsCString(str) && |str| <= SIZE_MAX
      ensures found <==> isValid && Matches(regex, Text(str))
    {
      if !isValid {
        return false;
      }
      found := MatchRegexAnywhere(Some(pattern + ['\0']), Some(str), regex);
    }

    /** All of str is in the language of the pattern; only a prefix of it, when the pattern
        ends in an escaped dollar sign. */
    method FullMatch(str: string) returns (found: bool)
      requires Valid() && IsCString(str) && |str| <= SIZE_MAX
      ensures found <==> isValid && FullMatches(regex, Text(str))
    {
      if !isValid {
        return false;
      }
      found := MatchRegexAnywhere(Some(fullPattern + ['\0']), Some(str), FullRegex(regex));
      AnchoredMatch(regex, Text(str));
    }
  }

  ghost predicate FullMatches(r: Regex, s: string) {
    if EndsInEscapedDollar(r) then MatchesAtHead(r.items, false, s) else InLanguage(r.items, s)
  }

  lemma AnchoredMatch(r: Regex, s: string)
    ensures Matches(FullRegex(r), s) <==> FullMatches(r, s)
  {
    assert s[0..] == s && s[..|s|] == s;
    assert MatchesAtHead(r.items, true, s) <==> InLanguage(r.items, s);
  }

  /** The last part of Init: turns a pattern into that of the anchored expression. */
  method AddAnchors(pattern: string, ghost r: Regex) returns (fullPattern: string)
    requires WellFormed(r.items) && pattern + ['\0'] == Render(r)
    ensures fullPattern + ['\0'] == Render(FullRegex(r))
  {
    hide Render, WellFormed, FullRegex;
    WithoutNul(pattern);
    FullPatternIsRendering(r);
    fullPattern := "";
    if pattern == "" || pattern[0] != '^' {
      fullPattern := fullPattern + ['^'];
    }
    fullPattern := fullPattern + pattern;
    if pattern == "" || pattern[|pattern| - 1] != '$' {
      fullPattern := fullPattern + ['$'];
    }
    assert fullPattern == FullPatternOf(pattern);
  }

  /** The anchors that Init adds to a pattern. */
  function FullPatternOf(p: string): string {
    (if p == "" || p[0] != '^' then "^" else "") + p + (if p == "" || p[|p| - 1] != '$' then "$" else "")
  }

  /** The full pattern is the rendering of the full expression. */
  lemma FullPatternIsRendering(r: Regex)
    requires WellFormed(r.items)
    ensures Render(r) == Text(Render(r)) + ['\0']
    ensures FullPatternOf(Text(Render(r))) + ['\0'] == Render(FullRegex(r))
  {
    hide RenderTail, WellFormed, IsInSet, IsRepeat, IsUnsupported, IsUnrepeatable, IsCString, FullPatternOf, Written;
    var t := TailText(r.items);
    var escaped := EndsInEscapedDollar(r);
    AnchorsAdded(t, r.start, r.end, escaped);
    AsWritten(r, t);
    AsWritten(FullRegex(r), t);
    WithoutNul(Written(t, r.start, r.end));
  }

  lemma WithoutNul(s: string)
    ensures Text(s + ['\0']) == s
  {
  }

  lemma AsWritten(r: Regex, t: string)
    requires RenderTail(r.items, false) == t + ['\0'] && RenderTail(r.items, true) == t + ['$', '\0']
    ensures Render(r) == Written(t, r.start, r.end) + ['\0']
  {
    hide RenderTail;
  }

  /** The items as written, without anchors. */
  lemma TailText(items: seq<Item>) returns (t: string)
    requires WellFormed(items)
    ensures RenderTail(items, false) == t + ['\0'] && RenderTail(items, true) == t + ['$', '\0']
    ensures t == "" <==> items == []
    ensures t != "" ==> t[0] != '^' && (t[|t| - 1] == '$' <==> EndsInEscapedDollar(Regex(false, items, false)))
  {
    hide IsInSet, IsRepeat, IsUnsupported, IsUnrepeatable, IsPlain, IsEscape;
    t := Text(RenderTail(items, false));
    RenderingIsCString(items, false);
    AnchorAppended(items);
    if items != [] {
      LastCharacter(items);
    }
  }

  function Written(t: string, start: bool, end: bool): string {
    (if start then "^" else "") + t + (if end then "$" else "")
  }

  lemma AnchorsAdded(t: string, start: bool, end: bool, escaped: bool)
    requires t != "" ==> t[0] != '^' && (!end ==> (t[|t| - 1] == '$' <==> escaped))
    requires escaped ==> t != "" && !end
    ensures FullPatternOf(Written(t, start, end)) == Written(t, true, !escaped)
  {
    var p := Written(t, start, end);
    assert p != "" && p[0] == '^' <==> start;
    assert p != "" && p[|p| - 1] == '$' <==> end || escaped;
  }

  lemma {:induction false} AnchorAppended(items: seq<Item>)
    ensures RenderTail(items, true) == Text(RenderTail(items, false)) + ['$', '\0']
    ensures |Text(RenderTail(items, false))| == 0 <==> items == []
  {
    if items != [] {
      AnchorAppended(items[1..]);
      var head, rest := RenderAtom(items[0].atom) + RenderRepeat(items[0].repeat), RenderTail(items[1..], false);
      assert Text(head + rest) == head + Text(rest);
    }
  }

  lemma {:induction false} LastCharacter(items: seq<Item>)
    requires WellFormed(items) && items != []
    ensures var p := Text(RenderTail(items, false));
      p != "" && (p[|p| - 1] == '$' <==> EndsInEscapedDollar(Regex(false, items, false)))
  {
    hide IsInSet, IsAsciiPunct;
    var head, rest := RenderAtom(items[0].atom) + RenderRepeat(items[0].repeat), RenderTail(items[1..], false);
    assert Text(RenderTail(items, false)) == head + Text(rest);
    if |items| == 1 {
      assert WellFormedAtom(items[0].atom);
      assert Text(rest) == "";
    } else {
      LastCharacter(items[1..]);
    }
  }

  /** A character that the atom matches. */
  function Witness(a: Atom): char {
    if !a.escaped then a.c
    else
      match a.c
      case 'd' => '0'
      case 'D' => 'a'
      case 'f' => '\U{0C}'
      case 'n' => '\n'
      case 'r' => '\r'
      case 's' => ' '
      case 'S' => 'a'
      case 't' => '\t'
      case 'v' => '\U{0B}'
      case 'w' => 'a'
      case 'W' => ' '
      case c => c
  }

  /** The word that takes every item once. */
  function WitnessWord(items: seq<Item>): string {
    if items == [] then [] else [Witness(items[0].atom)] + WitnessWord(items[1..])
  }

  lemma {:induction false} LanguageIsNotEmpty(items: seq<Item>)
    requires WellFormed(items)
    ensures InLanguage(items, WitnessWord(items))
  {
    if items != [] {
      LanguageIsNotEmpty(items[1..]);
      var w := WitnessWord(items);
      assert WellFormedAtom(items[0].atom);
      WitnessMatches(items[0].atom);
      assert w[1..] == WitnessWord(items[1..]) && InRepeat(items[0], w[..1]);
    }
  }

  lemma WitnessMatches(a: Atom)
    requires WellFormedAtom(a)
    ensures Denotes(a, Witness(a))
  {
  }

  lemma {:induction false} WordsEndInDollar(items: seq<Item>, w: string)
    requires items != [] && items[|items| - 1] == Item(Atom(true, '$'), Once) && InLanguage(items, w)
    ensures w != [] && w[|w| - 1] == '$'
  {
    var k :| 0 <= k <= |w| && InRepeat(items[0], w[..k]) && InLanguage(items[1..], w[k..]);
    if |items| > 1 {
      WordsEndInDollar(items[1..], w[k..]);
    } else {
      assert k == 1 && w[..1][0] == w[0];
    }
  }

  /** FullMatch decides membership of the whole string for all strings exactly when the
      pattern does not end in an escaped dollar sign. */
  lemma FullMatchIsExact(r: Regex)
    requires WellFormed(r.items)
    ensures !EndsInEscapedDollar(r) <==> forall s :: FullMatches(r, s) <==> InLanguage(r.items, s)
  {
    if EndsInEscapedDollar(r) {
      var w := WitnessWord(r.items);
      LanguageIsNotEmpty(r.items);
      var s := w + "x";
      assert s[..|w|] == w;
      assert FullMatches(r, s);
      if InLanguage(r.items, s) {
        WordsEndInDollar(r.items, s);
      }
    }
  }
}
