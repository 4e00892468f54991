/**
  The websocket manager: the accept key of a handshake, registration, and the broadcast of
  every message to every registered descriptor. BroadcastRuns states what a whole run does;
  Manager is the object that carries out its steps.
 */
module Handshake {
  import opened Bytes
  import opened Sha1Standard
  import opened Sha1
  import opened Base64

  /** The octets of a string literal. */
  function Ascii(s: string): (b: seq<Byte>)
    ensures |b| == |s|
  {
    seq(|s|, i requires 0 <= i < |s| => s[i] as int % 256)
  }

  /** The octets are the codes of the characters, which fit into them. */
  lemma AsciiOctets(s: string)
    requires forall c :: c in s ==> c as int < 256
    ensures forall i :: 0 <= i < |s| ==> Ascii(s)[i] == s[i] as int
  {
    assert forall i :: 0 <= i < |s| ==> s[i] in s;
  }

  const MAGIC: string := "258EAFA5-" + "E914-47DA-" + "95CA-" + "C5AB0DC85B11"

  /** What is hashed for a challenge; the length passes through an unsigned int. */
  function KeyMaterial(challenge: seq<Byte>): (m: seq<Byte>)
    ensures |m| < TWO_TO_32
  {
    var full := challenge + Ascii(MAGIC);
    full[..|full| % TWO_TO_32]
  }

  /** The accept key of section 4.2.2 of RFC 6455. */
  function AcceptKey(challenge: seq<Byte>): string {
    Encode(DigestBytes(KeyMaterial(challenge)))
  }

  /** For a challenge that is shorter than 2^32 octets with the GUID, the whole text is hashed. */
  lemma WholeKeyIsHashed(challenge: seq<Byte>)
    ensures KeyMaterial(challenge) == challenge + Ascii(MAGIC) <==> |challenge| + 36 < TWO_TO_32
    ensures |AcceptKey(challenge)| == 28
  {
    hide DigestBytes, Encode, Ascii;
    MagicLength();
    EncodedLength(DigestBytes(KeyMaterial(challenge)));
    var full := challenge + Ascii(MAGIC);
    assert |full| < TWO_TO_32 ==> full[..|full|] == full;
  }

  function HexDigitValue(c: char): (v: nat)
    ensures v <= 16
  {
    if '0' <= c <= '9' then c as int - 48 else if 'A' <= c <= 'F' then c as int - 55 else 16
  }

  /** The number that a string of upper-case hexadecimal digits is written for. */
  function HexNumber(s: string): nat {
    if s == "" then 0 else 16 * HexNumber(s[..|s| - 1]) + HexDigitValue(s[|s| - 1])
  }

  /** The GUID of section 1.3 of RFC 6455: five groups of hexadecimal digits. */
  lemma MagicIsGuid()
    ensures |MAGIC| == 36 && MAGIC[8] == MAGIC[13] == MAGIC[18] == MAGIC[23] == '-'
    ensures HexNumber(MAGIC[..8]) == 0x258EAFA5
    ensures HexNumber(MAGIC[9..13]) == 0xE914 && HexNumber(MAGIC[14..18]) == 0x47DA && HexNumber(MAGIC[19..23]) == 0x95CA
    ensures HexNumber(MAGIC[24..]) == 0xC5AB0DC85B11
  {
    MagicGroups();
    hide HexNumber;
    FirstGroup();
    MiddleGroups();
    LastGroup();
  }

  lemma MagicGroups()
    ensures |MAGIC| == 36 && MAGIC[8] == MAGIC[13] == MAGIC[18] == MAGIC[23] == '-'
    ensures MAGIC[..8] == "258EAFA5" && MAGIC[9..13] == "E914" && MAGIC[14..18] == "47DA" && MAGIC[19..23] == "95CA"
    ensures MAGIC[24..] == "C5AB0DC85B11"
  {
  }

  lemma FirstGroup()
    ensures HexNumber("258EAFA5") == 0x258EAFA5
  {
    hide HexNumber;
    HexOfFour('2', '5', '8', 'E', "");
    HexOfFour('A', 'F', 'A', '5', "258E");
    assert "258E" + "AFA5" == "258EAFA5";
  }

  lemma MiddleGroups()
    ensures HexNumber("E914") == 0xE914 && HexNumber("47DA") == 0x47DA && HexNumber("95CA") == 0x95CA
  {
    hide HexNumber;
    HexOfFour('E', '9', '1', '4', "");
    HexOfFour('4', '7', 'D', 'A', "");
    HexOfFour('9', '5', 'C', 'A', "");
  }

  lemma LastGroup()
    ensures HexNumber("C5AB0DC85B11") == 0xC5AB0DC85B11
  {
    hide HexNumber;
    HexOfFour('C', '5', 'A', 'B', "");
    HexOfFour('0', 'D', 'C', '8', "C5AB");
    HexOfFour('5', 'B', '1', '1', "C5AB0DC8");
    assert "C5AB" + "0DC8" == "C5AB0DC8" && "C5AB0DC8" + "5B11" == "C5AB0DC85B11";
  }

  lemma HexOfFour(a: char, b: char, c: char, d: char, before: string)
    ensures HexNumber(before + [a, b, c, d]) ==
      0x1_0000 * HexNumber(before) + 0x1000 * HexDigitValue(a) + 0x100 * HexDigitValue(b) + 16 * HexDigitValue(c) + HexDigitValue(d)
    ensures HexNumber([a, b, c, d]) == 0x1000 * HexDigitValue(a) + 0x100 * HexDigitValue(b) + 16 * HexDigitValue(c) + HexDigitValue(d)
  {
    hide HexNumber, HexDigitValue;
    HexOfNextFour(a, b, c, d, before);
    HexOfNextFour(a, b, c, d, "");
    HexOfLast("", a);
    assert "" + [a, b, c, d] == [a, b, c, d];
  }

  lemma HexOfNextFour(a: char, b: char, c: char, d: char, before: string)
    ensures HexNumber(before + [a, b, c, d]) ==
      0x1_0000 * HexNumber(before) + 0x1000 * HexDigitValue(a) + 0x100 * HexDigitValue(b) + 16 * HexDigitValue(c) + HexDigitValue(d)
  {
    hide HexNumber, HexDigitValue;
    var s1 := before + [a];
    var s2 := s1 + [b];
    var s3 := s2 + [c];
    HexOfLast(before, a);
    HexOfLast(s1, b);
    HexOfLast(s2, c);
    HexOfLast(s3, d);
    assert s3 + [d] == before + [a, b, c, d];
  }

  lemma HexOfLast(s: string, c: char)
    ensures HexNumber(s + [c]) == 16 * HexNumber(s) + HexDigitValue(c)
    ensures HexNumber("") == 0
  {
    assert (s + [c])[..|s|] == s;
  }

  lemma MagicLength()
    ensures |MAGIC| == 36
  {
  }

  /** The hashing part of the accept key. */
  method HashKey(challenge: seq<Byte>) returns (hash: array<Bits.Word>)
    ensures fresh(hash) && hash.Length == 5
    ensures Chain(hash[0], hash[1], hash[2], hash[3], hash[4]) == Digest(KeyMaterial(challenge))
  {
    hide Digest, AfterInput, Ascii, SHA1.Valid;
    var fullString := challenge + Ascii(MAGIC);
    var hasher := new SHA1();
    FreshInput(KeyMaterial(challenge));
    hasher.Input(fullString[..|fullString| % TWO_TO_32]);
    hash := new Bits.Word[5];
    var ok := hasher.Result(hash);
  }

  method GetAcceptKey(challenge: seq<Byte>) returns (key: string)
    ensures key == AcceptKey(challenge)
  {
    hide Digest, Encode, DigestBytes, WordBytes, KeyMaterial;
    var hash := HashKey(challenge);
    var bytes: seq<Byte> := [];
    for i := 0 to 5
      invariant bytes == NetworkOrder(hash[..i])
    {
      assert hash[..i + 1][..i] == hash[..i];
      bytes := bytes + WordBytes(hash[i]);
    }
    DigestInNetworkOrder(hash[..5], KeyMaterial(challenge));
    var encoded := Base64Encode(bytes);
    key := encoded.value;
  }

  lemma FreshInput(m: seq<Byte>)
    requires |m| < TWO_TO_32
    ensures AfterInput(FRESH, m) == Session(m, false, false)
  {
    assert [] + m == m;
  }

  /** The memory of words that went through htonl. */
  function NetworkOrder(words: seq<Bits.Word>): seq<Byte> {
    if words == [] then [] else NetworkOrder(words[..|words| - 1]) + WordBytes(words[|words| - 1])
  }

  lemma DigestInNetworkOrder(words: seq<Bits.Word>, m: seq<Byte>)
    requires |words| == 5 && Chain(words[0], words[1], words[2], words[3], words[4]) == Digest(m)
    ensures NetworkOrder(words) == DigestBytes(m)
  {
    hide Digest, WordBytes;
    assert words[..4][..3] == words[..3] && words[..3][..2] == words[..2] && words[..2][..1] == words[..1];
    assert words[..1][..0] == [] && NetworkOrder([]) == [];
    assert NetworkOrder(words[..1]) == WordBytes(words[0]);
    assert NetworkOrder(words[..2]) == NetworkOrder(words[..1]) + WordBytes(words[1]);
    assert NetworkOrder(words[..3]) == NetworkOrder(words[..2]) + WordBytes(words[2]);
    assert NetworkOrder(words[..4]) == NetworkOrder(words[..3]) + WordBytes(words[3]);
  }

  // ---------------------------------------------------------------------------
  // The key of a handshake
  // ---------------------------------------------------------------------------

  datatype Header = Header(name: string, value: seq<Byte>)

  function ToLowerCase(s: string): string {
    seq(|s|, i requires 0 <= i < |s| => if 'A' <= s[i] <= 'Z' then s[i] - 'A' + 'a' else s[i])
  }

  /** Exactly the 26 capital letters, codes 65 to 90, become the letters 32 above them. */
  lemma LowerCased(s: string, i: nat)
    requires i < |s|
    ensures var code, low := s[i] as int, ToLowerCase(s)[i] as int;
      low == if 65 <= code < 65 + 26 then code + 32 else code
  {
  }

  /** The name sec-websocket-key, with any of its letters in upper case. */
  predicate NamesKey(h: Header) {
    && |h.name| == 17
    && forall i :: 0 <= i < 17 ==>
         var c := "sec-websocket-key"[i];
         h.name[i] == c || ('a' <= c <= 'z' && h.name[i] as int == c as int - 32)
  }

  /** The code's test of a header name is exact. */
  lemma NamedKey(h: Header)
    ensures NamesKey(h) <==> ToLowerCase(h.name) == "sec-websocket-key"
  {
    var name, key := h.name, "sec-websocket-key";
    assert |key| == 17 && forall i :: 0 <= i < 17 ==> key[i] == '-' || 'a' <= key[i] <= 'z';
    if NamesKey(h) {
      forall i | 0 <= i < 17 ensures ToLowerCase(name)[i] == key[i] {
        assert name[i] == key[i] || ('a' <= key[i] <= 'z' && name[i] as int == key[i] as int - 32);
      }
    }
    if ToLowerCase(name) == key {
      forall i | 0 <= i < 17 ensures name[i] == key[i] || ('a' <= key[i] <= 'z' && name[i] as int == key[i] as int - 32) {
        assert ToLowerCase(name)[i] == key[i];
      }
    }
  }

  /** The name as it is usually written. */
  lemma UsualNameNamesKey(key: seq<Byte>)
    ensures NamesKey(Header("Sec-WebSocket-Key", key))
  {
  }

  /** The value of the first header that names the key, or nothing. */
  function KeyOf(headers: seq<Header>): seq<Byte> {
    if headers == [] then [] else if NamesKey(headers[0]) then headers[0].value else KeyOf(headers[1..])
  }

  /** The loop over the headers, in the order in which the map yields them. */
  method FindWebsocketKey(headers: seq<Header>) returns (key: seq<Byte>)
    ensures key == KeyOf(headers)
  {
    hide NamesKey;
    assert headers[0..] == headers;
    for i := 0 to |headers|
      invariant KeyOf(headers) == KeyOf(headers[i..])
    {
      var low := ToLowerCase(headers[i].name);
      assert headers[i..][1..] == headers[i + 1..];
      if low == "sec-websocket-key" {
        NamedKey(headers[i]);
        return headers[i].value;
      }
      NamedKey(headers[i]);
    }
    return [];
  }

  lemma {:induction false} KeyIsNamed(headers: seq<Header>)
    ensures (exists h :: h in headers && NamesKey(h) && KeyOf(headers) == h.value)
         || (KeyOf(headers) == [] && forall h :: h in headers ==> !NamesKey(h))
  {
    hide NamesKey;
    if headers != [] && !NamesKey(headers[0]) {
      KeyIsNamed(headers[1..]);
      assert headers == [headers[0]] + headers[1..];
    }
  }

  /** All headers that name the key have the same value. */
  ghost predicate OneKey(headers: seq<Header>) {
    forall g, h :: g in headers && h in headers && NamesKey(g) && NamesKey(h) ==> g.value == h.value
  }

  ghost predicate KeyValue(headers: seq<Header>, v: seq<Byte>) {
    forall h :: h in headers && NamesKey(h) ==> h.value == v
  }

  /** One key: some value is that of every header that names the key. */
  lemma OneKeyIff(headers: seq<Header>)
    ensures OneKey(headers) <==> exists v :: KeyValue(headers, v)
  {
    hide NamesKey;
    if OneKey(headers) {
      KeyIsNamed(headers);
      assert KeyValue(headers, KeyOf(headers));
    }
  }

  /** The key is the value of any header that names it, when they have one value. */
  lemma KeyIsFound(headers: seq<Header>, h: Header)
    requires h in headers && NamesKey(h) && OneKey(headers)
    ensures KeyOf(headers) == h.value
  {
    hide NamesKey, KeyOf;
    KeyIsNamed(headers);
  }

  /** The order of the headers does not matter when at most one of them names the key. */
  lemma KeyIgnoresOrder(headers: seq<Header>, others: seq<Header>)
    requires multiset(headers) == multiset(others)
    requires OneKey(headers)
    ensures KeyOf(headers) == KeyOf(others)
  {
    hide NamesKey, KeyOf;
    KeyIsNamed(headers);
    KeyIsNamed(others);
    assert forall h :: h in headers <==> h in multiset(headers);
    assert forall h :: h in others <==> h in multiset(others);
  }

  // ---------------------------------------------------------------------------
  // The reply
  // ---------------------------------------------------------------------------

  const CRLF: seq<Byte> := [13, 10]

  /** Lines, each with its line end, and a blank line. */
  function Message(lines: seq<seq<Byte>>): seq<Byte> {
    if lines == [] then CRLF else lines[0] + CRLF + Message(lines[1..])
  }

  /** The reply that switches protocols. */
  function Response(key: seq<Byte>): seq<Byte> {
    Message([Ascii("HTTP/1.1 101 Switching Protocols"), Ascii("Upgrade: websocket"), Ascii("Connection: Upgrade"),
             Ascii("Sec-WebSocket-Accept: " + AcceptKey(key))])
  }

  method ResponseText(key: seq<Byte>) returns (response: seq<Byte>)
    ensures response == Response(key)
  {
    hide AcceptKey, Ascii;
    var acceptKey := GetAcceptKey(key);
    var lineEnd := Ascii("\r\n");
    LineEnd();
    var a, b, c := Ascii("HTTP/1.1 101 Switching Protocols"), Ascii("Upgrade: websocket"), Ascii("Connection: Upgrade");
    var d := Ascii("Sec-WebSocket-Accept: " + acceptKey);
    response := a + lineEnd + b + lineEnd + c + lineEnd + d + lineEnd + lineEnd;
    FourLines(a, b, c, d);
  }

  lemma LineEnd()
    ensures Ascii("\r\n") == CRLF
  {
    var s := "\r\n";
    assert s[0] as int == 13 && s[1] as int == 10;
  }

  lemma FourLines(a: seq<Byte>, b: seq<Byte>, c: seq<Byte>, d: seq<Byte>)
    ensures Message([a, b, c, d]) == a + CRLF + b + CRLF + c + CRLF + d + CRLF + CRLF
  {
    assert [a, b, c, d][1..] == [b, c, d] && [b, c, d][1..] == [c, d] && [c, d][1..] == [d] && [d][1..] == [];
    assert Message([]) == CRLF;
    assert Message([d]) == d + CRLF + CRLF;
    assert Message([c, d]) == c + CRLF + d + CRLF + CRLF;
    assert Message([b, c, d]) == b + CRLF + c + CRLF + d + CRLF + CRLF;
  }

  /** A line that a reader of lines takes as one. */
  ghost predicate IsLine(line: seq<Byte>) {
    line != [] && 13 !in line
  }

  lemma LineStartsMessage(lines: seq<seq<Byte>>)
    requires lines != [] && IsLine(lines[0])
    ensures |Message(lines)| > 0 && Message(lines)[0] != 13
  {
    assert Message(lines)[0] == lines[0][0];
  }

  /** The blank line of a message is at its end and nowhere else. */
  lemma {:induction false} BlankLineEnds(lines: seq<seq<Byte>>, i: nat)
    requires forall l :: l in lines ==> IsLine(l)
    requires i + 4 <= |Message(lines)| && Message(lines)[i..i + 4] == CRLF + CRLF
    ensures i + 4 == |Message(lines)|
  {
    var text := Message(lines);
    assert text[i..i + 4][0] == text[i] && text[i..i + 4][2] == text[i + 2];
    if lines != [] {
      var line, rest := lines[0], Message(lines[1..]);
      assert line in lines && text == line + CRLF + rest;
      assert forall k :: 0 <= k < |line| ==> line[k] in line && text[k] == line[k];
      if lines[1..] != [] {
        assert lines[1..][0] in lines;
        LineStartsMessage(lines[1..]);
      }
      if i >= |line| + 2 {
        assert rest[i - |line| - 2..][..4] == text[i..i + 4];
        BlankLineEnds(lines[1..], i - |line| - 2);
      }
    }
  }

  /** A client that reads up to the first blank line has read exactly the reply. */
  lemma ResponseEndsAtBlankLine(key: seq<Byte>, i: nat)
    requires i + 4 <= |Response(key)| && Response(key)[i..i + 4] == CRLF + CRLF
    ensures i + 4 == |Response(key)|
  {
    ResponseLines(key);
    hide AcceptKey, Ascii, Message, IsLine;
    BlankLineEnds([Ascii("HTTP/1.1 101 Switching Protocols"), Ascii("Upgrade: websocket"), Ascii("Connection: Upgrade"),
                   Ascii("Sec-WebSocket-Accept: " + AcceptKey(key))], i);
  }

  ghost predicate Printable(s: string) {
    forall c :: c in s ==> ' ' <= c <= '~'
  }

  lemma PrintableIsLine(s: string)
    requires s != "" && Printable(s)
    ensures IsLine(Ascii(s))
  {
    forall i | 0 <= i < |s| ensures Ascii(s)[i] != 13 {
      assert s[i] in s;
    }
  }

  lemma ResponseLines(key: seq<Byte>)
    ensures IsLine(Ascii("HTTP/1.1 101 Switching Protocols")) && IsLine(Ascii("Upgrade: websocket"))
    ensures IsLine(Ascii("Connection: Upgrade")) && IsLine(Ascii("Sec-WebSocket-Accept: " + AcceptKey(key)))
  {
    hide AcceptKey, Ascii, IsLine;
    StatusLine();
    PrintableIsLine("Upgrade: websocket");
    PrintableIsLine("Connection: Upgrade");
    AcceptLine(key);
  }

  lemma StatusLine()
    ensures IsLine(Ascii("HTTP/1.1 101 Switching Protocols"))
  {
    hide Ascii, IsLine;
    PrintableIsLine("HTTP/1.1 101 Switching Protocols");
  }

  lemma AcceptLine(key: seq<Byte>)
    ensures IsLine(Ascii("Sec-WebSocket-Accept: " + AcceptKey(key)))
  {
    hide AcceptKey, Ascii, IsLine;
    AcceptKeyIsPrintable(key);
    PrintableIsLine("Sec-WebSocket-Accept: " + AcceptKey(key));
  }

  lemma AcceptKeyIsPrintable(challenge: seq<Byte>)
    ensures Printable(AcceptKey(challenge))
  {
    hide Encode, DigestBytes, KeyMaterial, Printable;
    EncodingIsPrintable(DigestBytes(KeyMaterial(challenge)));
  }

  lemma {:induction false} EncodingIsPrintable(d: seq<Byte>)
    ensures Printable(Encode(d))
    decreases |d|
  {
    hide Symbol, Quartet, Number;
    forall v: Sextet ensures ' ' <= Symbol(v) <= '~' {
      SymbolCode(v);
    }
    if |d| >= 3 {
      EncodingIsPrintable(d[3..]);
    }
  }

  /** The accept key gives the digest back. */
  lemma AcceptKeyCarriesDigest(challenge: seq<Byte>)
    ensures var read := Sextets(AcceptKey(challenge));
      read.Some? && FromSextets(read.value) == DigestBytes(KeyMaterial(challenge))
  {
    hide Encode, DigestBytes, KeyMaterial, Sextets, FromSextets, Canonical;
    DecodeInvertsEncode(DigestBytes(KeyMaterial(challenge)), AcceptKey(challenge));
  }
}

module BroadcastRuns {
  import opened Bytes
  import opened Decimal
  import opened WebSocketFrames
  import opened Handshake

  /** The registered descriptors, what each peer still sends, and what was sent to each peer. */
  datatype State = State(members: set<int>, inputs: map<int, seq<Byte>>, outputs: map<int, seq<Byte>>)

  /** A handshake, or data on a descriptor; lost counts the octets of a header that is delivered
      in parts, at which the reader gives up. */
  datatype Event = Connect(fd: int, key: seq<Byte>) | Notify(fd: int, lost: nat)

  function Prefix(fd: int): seq<Byte> {
    Ascii("ID[" + SignedNumeral(fd) + "]=>")
  }

  /** A message as it is passed on, naming the descriptor it came from. */
  function Announcement(fd: int, text: seq<Byte>): seq<Byte> {
    Prefix(fd) + text
  }

  /** An announcement determines the descriptor it came from and the text. */
  lemma AnnouncementIsUnambiguous(fd: int, text: seq<Byte>, fd': int, text': seq<Byte>)
    requires Announcement(fd, text) == Announcement(fd', text')
    ensures fd == fd' && text == text'
  {
    hide SignedNumeral, Prefix;
    var n, n' := SignedNumeral(fd), SignedNumeral(fd');
    PrefixOctets(fd);
    PrefixOctets(fd');
    var m := Announcement(fd, text);
    NumberEnds(fd, text);
    NumberEnds(fd', text');
    assert m[3 + |n|] == 93 && m[3 + |n'|] == 93;
    forall i | 0 <= i < |n| ensures n[i] == n'[i] {
      assert m[3 + i] == n[i] as int && m[3 + i] == n'[i] as int;
    }
    assert n == n';
    SignedNumeralIsUnambiguous(fd, fd');
    assert text == m[|Prefix(fd)|..] && text' == m[|Prefix(fd)|..];
  }

  /** The number of the descriptor ends at the first ]. */
  lemma NumberEnds(fd: int, text: seq<Byte>)
    ensures var n, m := SignedNumeral(fd), Announcement(fd, text);
      && |m| >= |n| + 6 && m[3 + |n|] == 93
      && forall j :: 3 <= j < 3 + |n| ==> m[j] == n[j - 3] as int && m[j] != 93
  {
    hide SignedNumeral, Prefix;
    PrefixOctets(fd);
    var n, p := SignedNumeral(fd), Prefix(fd);
    assert p[3 + |n|] == p[3 + |n|..][0];
    var m := Announcement(fd, text);
    forall j | 3 <= j < 3 + |n| ensures m[j] == n[j - 3] as int && m[j] != 93 {
      assert m[j] == p[j];
    }
  }

  /** A prefix is ID[, the number of the descriptor and ]=>, and the number has no ]. */
  lemma PrefixOctets(fd: int)
    ensures var n, p := SignedNumeral(fd), Prefix(fd);
      && |p| == |n| + 6 && p[..3] == [73, 68, 91] && p[3 + |n|..] == [93, 61, 62]
      && forall j :: 3 <= j < 3 + |n| ==> p[j] == n[j - 3] as int && p[j] != 93
  {
    hide SignedNumeral;
    var n := SignedNumeral(fd);
    SignedNumeralCharacters(fd);
    var s := "ID[" + n + "]=>";
    forall j | 3 <= j < 3 + |n| ensures Prefix(fd)[j] == n[j - 3] as int && Prefix(fd)[j] != 93 {
      assert n[j - 3] in n && s[j] == n[j - 3];
    }
    assert s[0] == 'I' && s[1] == 'D' && s[2] == '[' && s[3 + |n|] == ']' && s[4 + |n|] == '=' && s[5 + |n|] == '>';
  }

  /** Every descriptor has its streams, and announcements fit into size_t. */
  ghost predicate ValidState(s: State) {
    && s.members <= s.inputs.Keys && s.inputs.Keys == s.outputs.Keys
    && forall fd :: fd in s.inputs ==> |Prefix(fd)| + |s.inputs[fd]| < TWO_TO_64
  }

  ghost predicate Possible(s: State, e: Event) {
    e.fd in s.inputs
  }

  /** What the reader takes from a stream when lost octets of a header arrive alone. */
  function Taken(input: seq<Byte>, lost: nat): Reading {
    if lost == 0 then ReadFrameFrom(input) else Reading([], input[if lost <= |input| then lost else |input|..])
  }

  lemma ReadingIsShorter(s: seq<Byte>, lost: nat)
    ensures |Taken(s, lost).message| <= |s| && |Taken(s, lost).rest| <= |s|
  {
    hide ReadFrameFrom;
    FrameIsShorter(s);
  }

  lemma FrameIsShorter(s: seq<Byte>)
    ensures |ReadFrameFrom(s).message| <= |s| && |ReadFrameFrom(s).rest| <= |s|
  {
    hide FromBigEndian;
  }

  /** What a notification from a registered descriptor announces. */
  function Announced(s: State, fd: int, lost: nat): (m: seq<Byte>)
    requires ValidState(s) && fd in s.members
    ensures |m| < TWO_TO_64
  {
    ReadingIsShorter(s.inputs[fd], lost);
    Announcement(fd, Taken(s.inputs[fd], lost).message)
  }

  function Step(s: State, e: Event): (s': State)
    requires ValidState(s) && Possible(s, e)
    ensures ValidState(s') && s'.inputs.Keys == s.inputs.Keys
  {
    match e
    case Connect(fd, key) =>
      if key == [] then s
      else
        s.(members := s.members + {fd},
           outputs := map c | c in s.outputs :: s.outputs[c] + if c == fd then Response(key) else [])
    case Notify(fd, lost) =>
      if fd !in s.members then s
      else
        var frame := Frame(Announced(s, fd, lost));
        ReadingIsShorter(s.inputs[fd], lost);
        s.(inputs := s.inputs[fd := Taken(s.inputs[fd], lost).rest],
           outputs := map c | c in s.outputs :: s.outputs[c] + if c in s.members then frame else [])
  }

  ghost predicate AllPossible(s: State, events: seq<Event>) {
    forall e :: e in events ==> Possible(s, e)
  }

  function Run(s: State, events: seq<Event>): (s': State)
    requires ValidState(s) && AllPossible(s, events)
    ensures ValidState(s') && s'.inputs.Keys == s.inputs.Keys
  {
    if events == [] then s
    else
      var before := Run(s, events[..|events| - 1]);
      assert events[|events| - 1] in events;
      Step(before, events[|events| - 1])
  }

  /** One broadcast: where it came from, and its text. */
  datatype Entry = Entry(fd: int, text: seq<Byte>)

  /** What an event broadcasts, if anything. */
  function Spoken(s: State, e: Event): seq<Entry>
    requires ValidState(s) && Possible(s, e)
  {
    if e.Notify? && e.fd in s.members then [Entry(e.fd, Taken(s.inputs[e.fd], e.lost).message)] else []
  }

  /** The broadcasts of a run, in order. */
  function Log(s: State, events: seq<Event>): seq<Entry>
    requires ValidState(s) && AllPossible(s, events)
  {
    if events == [] then []
    else
      var init, e := events[..|events| - 1], events[|events| - 1];
      assert e in events;
      Log(s, init) + Spoken(Run(s, init), e)
  }

  function Announcements(log: seq<Entry>): (m: seq<seq<Byte>>)
    ensures |m| == |log|
  {
    seq(|log|, i requires 0 <= i < |log| => Announcement(log[i].fd, log[i].text))
  }

  /** fd is registered by a handshake among the events. */
  ghost predicate Joins(fd: int, events: seq<Event>) {
    exists e :: e in events && e.Connect? && e.fd == fd && e.key != []
  }

  lemma JoinsInPart(fd: int, events: seq<Event>)
    requires events != [] && !Joins(fd, events)
    ensures !Joins(fd, events[..|events| - 1])
    ensures var e := events[|events| - 1]; !(e.Connect? && e.fd == fd && e.key != [])
  {
  }

  lemma {:induction false} MembersJoined(s: State, events: seq<Event>, fd: int)
    requires ValidState(s) && AllPossible(s, events)
    ensures fd in Run(s, events).members <==> fd in s.members || Joins(fd, events)
  {
    hide Frame, Announced, Taken, Response, ValidState;
    if events != [] {
      var init, e := events[..|events| - 1], events[|events| - 1];
      MembersJoined(s, init, fd);
      assert events == init + [e];
      if Joins(fd, events) && !Joins(fd, init) {
        assert e.Connect? && e.fd == fd && e.key != [];
      }
    }
  }

  lemma AnnouncementsJoin(a: seq<Entry>, b: seq<Entry>)
    ensures Announcements(a + b) == Announcements(a) + Announcements(b)
  {
  }

  lemma {:induction false} AnnouncementsSendable(s: State, events: seq<Event>)
    requires ValidState(s) && AllPossible(s, events)
    ensures Sendable(Announcements(Log(s, events)))
  {
    hide Taken, Step, Announcements, ValidState;
    if events != [] {
      var init, e := events[..|events| - 1], events[|events| - 1];
      assert e in events;
      AnnouncementsSendable(s, init);
      SpokenSendable(Run(s, init), e);
      AnnouncementsJoin(Log(s, init), Spoken(Run(s, init), e));
    } else {
      assert Announcements([]) == [];
    }
  }

  lemma SpokenSendable(s: State, e: Event)
    requires ValidState(s) && Possible(s, e)
    ensures Sendable(Announcements(Spoken(s, e)))
    ensures e.Notify? && e.fd in s.members ==> Announcements(Spoken(s, e)) == [Announced(s, e.fd, e.lost)]
  {
    hide Taken, Prefix;
    if e.Notify? && e.fd in s.members {
      ReadingIsShorter(s.inputs[e.fd], e.lost);
    }
  }

  // ---------------------------------------------------------------------------
  // Runs
  // ---------------------------------------------------------------------------

  /** A run and its log can be cut anywhere. */
  lemma {:induction false} RunsCompose(s: State, a: seq<Event>, b: seq<Event>)
    requires ValidState(s) && AllPossible(s, a) && AllPossible(s, b)
    ensures AllPossible(s, a + b) && AllPossible(Run(s, a), b)
    ensures Run(s, a + b) == Run(Run(s, a), b)
    ensures Log(s, a + b) == Log(s, a) + Log(Run(s, a), b)
  {
    hide Step, ValidState, Taken;
    if b == [] {
      assert a + b == a;
    } else {
      var init := b[..|b| - 1];
      RunsCompose(s, a, init);
      assert (a + b)[..|a + b| - 1] == a + init;
    }
  }

  /** Nothing is sent to a descriptor before it joins. */
  lemma {:induction false} SilentUntilJoined(s: State, events: seq<Event>, fd: int)
    requires ValidState(s) && AllPossible(s, events) && fd in s.inputs
    requires fd !in s.members && !Joins(fd, events)
    ensures Run(s, events).outputs[fd] == s.outputs[fd]
  {
    hide Step, Joins;
    if events != [] {
      var init, e := events[..|events| - 1], events[|events| - 1];
      assert e in events;
      JoinsInPart(fd, events);
      SilentUntilJoined(s, init, fd);
      MembersJoined(s, init, fd);
      StepSilent(Run(s, init), e, fd);
    }
  }

  lemma StepSilent(s: State, e: Event, fd: int)
    requires ValidState(s) && Possible(s, e) && fd in s.outputs && fd !in s.members
    requires !(e.Connect? && e.fd == fd && e.key != [])
    ensures Step(s, e).outputs[fd] == s.outputs[fd]
  {
    hide Frame, Announced, Taken, Response;
  }

  lemma {:induction false} FramesJoin(a: seq<seq<Byte>>, b: seq<seq<Byte>>)
    requires Sendable(a) && Sendable(b)
    ensures Sendable(a + b) && Frames(a + b) == Frames(a) + Frames(b)
  {
    hide Frame;
    if a == [] {
      assert a + b == b;
      assert [] + Frames(b) == Frames(b);
    } else {
      FramesJoin(a[1..], b);
      assert (a + b)[0] == a[0] && (a + b)[1..] == a[1..] + b;
      assert Frame(a[0]) + Frames(a[1..]) + Frames(b) == Frame(a[0]) + (Frames(a[1..]) + Frames(b));
    }
  }

  /** What one event sends to a registered descriptor that does not shake hands by it. */
  lemma StepOutput(s: State, e: Event, fd: int)
    requires ValidState(s) && Possible(s, e) && fd in s.members
    requires !(e.Connect? && e.fd == fd && e.key != [])
    ensures Sendable(Announcements(Spoken(s, e)))
    ensures Step(s, e).outputs[fd] == s.outputs[fd] + Frames(Announcements(Spoken(s, e)))
  {
    hide Frame, Taken, Response, Announced;
    SpokenSendable(s, e);
    if e.Notify? && e.fd in s.members {
      OneFrame(Announced(s, e.fd, e.lost));
    } else {
      assert Announcements(Spoken(s, e)) == [];
    }
  }

  lemma OneFrame(m: seq<Byte>)
    requires |m| < TWO_TO_64
    ensures Frames([m]) == Frame(m)
  {
    hide Frame;
    assert [m][1..] == [] && Frame(m) + [] == Frame(m);
  }

  /** A registered descriptor that does not shake hands again is sent exactly the frames of
      the broadcasts. */
  lemma {:induction false} MemberReceivesAll(s: State, events: seq<Event>, fd: int)
    requires ValidState(s) && AllPossible(s, events)
    requires fd in s.members && !Joins(fd, events)
    ensures Sendable(Announcements(Log(s, events)))
    ensures Run(s, events).outputs[fd] == s.outputs[fd] + Frames(Announcements(Log(s, events)))
  {
    hide Frames, Step, Spoken, Announcements, Joins;
    AnnouncementsSendable(s, events);
    if events == [] {
      assert Announcements([]) == [];
      NoFrames();
    } else {
      var init, e := events[..|events| - 1], events[|events| - 1];
      assert e in events;
      JoinsInPart(fd, events);
      MemberReceivesAll(s, init, fd);
      MembersJoined(s, init, fd);
      var before := Run(s, init);
      StepOutput(before, e, fd);
      AnnouncementsSendable(s, init);
      LogFramesJoin(s.outputs[fd], Log(s, init), Spoken(before, e));
    }
  }

  lemma LogFramesJoin(output: seq<Byte>, log: seq<Entry>, more: seq<Entry>)
    requires Sendable(Announcements(log)) && Sendable(Announcements(more))
    ensures Sendable(Announcements(log + more))
    ensures output + Frames(Announcements(log)) + Frames(Announcements(more)) == output + Frames(Announcements(log + more))
  {
    hide Frames, Announcements;
    AnnouncementsJoin(log, more);
    FramesJoin(Announcements(log), Announcements(more));
  }

  lemma NoFrames()
    ensures Frames([]) == []
  {
  }

  /** fd shakes hands exactly once in the run, at event i, on a fresh connection. */
  ghost predicate JoinsOnceAt(s: State, events: seq<Event>, fd: int, i: nat) {
    && i < |events| && events[i].Connect? && events[i].fd == fd && events[i].key != []
    && !Joins(fd, events[..i]) && !Joins(fd, events[i + 1..])
    && fd in s.outputs && fd !in s.members && s.outputs[fd] == []
  }

  /** The broadcasts of the run from event i on. */
  function LogSince(s: State, events: seq<Event>, i: nat): seq<Entry>
    requires ValidState(s) && AllPossible(s, events) && i <= |events|
  {
    PossibleParts(s, events, i);
    Log(Run(s, events[..i]), events[i..])
  }

  lemma PossibleParts(s: State, events: seq<Event>, i: nat)
    requires AllPossible(s, events) && i <= |events|
    ensures AllPossible(s, events[..i]) && AllPossible(s, events[i..])
  {
  }

  /** The log from any event on is a suffix of the whole log. */
  lemma LogSinceIsSuffix(s: State, events: seq<Event>, i: nat)
    requires ValidState(s) && AllPossible(s, events) && i <= |events|
    ensures Log(s, events) == Log(s, events[..i]) + LogSince(s, events, i)
  {
    hide Run, Log, ValidState;
    RunsCompose(s, events[..i], events[i..]);
    assert events[..i] + events[i..] == events;
  }

  /** All that is ever sent to a client: the handshake response, then the frames of the
      broadcasts since it joined. */
  lemma ClientTranscript(s: State, events: seq<Event>, fd: int, i: nat)
    requires ValidState(s) && AllPossible(s, events) && JoinsOnceAt(s, events, fd, i)
    ensures Sendable(Announcements(LogSince(s, events, i)))
    ensures Run(s, events).outputs[fd] == Response(events[i].key) + Frames(Announcements(LogSince(s, events, i)))
  {
    hide Run, Log, Step, Frames, Announcements, Response;
    var before, join, after := events[..i], [events[i]], events[i + 1..];
    PossibleParts(s, events, i);
    assert before + events[i..] == events && join + after == events[i..];
    RunsCompose(s, before, events[i..]);
    SilentUntilJoined(s, before, fd);
    MembersJoined(s, before, fd);
    JoinOutput(Run(s, before), events[i], after, fd);
  }

  lemma JoinOutput(s: State, e: Event, after: seq<Event>, fd: int)
    requires ValidState(s) && AllPossible(s, [e] + after) && fd in s.outputs && s.outputs[fd] == []
    requires e.Connect? && e.fd == fd && e.key != [] && !Joins(fd, after)
    ensures Sendable(Announcements(Log(s, [e] + after)))
    ensures Run(s, [e] + after).outputs[fd] == Response(e.key) + Frames(Announcements(Log(s, [e] + after)))
  {
    hide Run, Log, Frames, Announcements, Response;
    assert forall f :: f in after ==> f in [e] + after;
    assert e in [e] + after;
    OneEvent(s, e);
    RunsCompose(s, [e], after);
    assert [] + Response(e.key) == Response(e.key);
    MemberReceivesAll(Step(s, e), after, fd);
    assert [] + Log(Step(s, e), after) == Log(Step(s, e), after);
  }

  lemma OneEvent(s: State, e: Event)
    requires ValidState(s) && Possible(s, e)
    ensures AllPossible(s, [e]) && Run(s, [e]) == Step(s, e) && Log(s, [e]) == Spoken(s, e)
  {
    hide Step, Spoken;
    assert [e][..0] == [] && e in [e];
    assert AllPossible(s, [e]);
  }

  /** Decoding what a client was sent after the response gives exactly the announcements since
      it joined. */
  lemma ClientHears(s: State, events: seq<Event>, fd: int, i: nat)
    requires ValidState(s) && AllPossible(s, events) && JoinsOnceAt(s, events, fd, i)
    ensures var heard, output := Announcements(LogSince(s, events, i)), Run(s, events).outputs[fd];
      Response(events[i].key) <= output &&
      ReadFramesFrom(output[|Response(events[i].key)|..], |heard|) == (heard, [])
  {
    hide Run, LogSince, ReadFramesFrom, Frames, Announcements, Response;
    ClientTranscript(s, events, fd, i);
    var heard := Announcements(LogSince(s, events, i));
    FramesRoundTrip(heard, []);
    assert Frames(heard) + [] == Frames(heard);
  }

  /** A client that joins later hears a suffix of what an earlier one hears: both are suffixes
      of the announcements of one log. */
  lemma ClientsAgree(s: State, events: seq<Event>, i: nat, j: nat)
    requires ValidState(s) && AllPossible(s, events) && i <= j <= |events|
    ensures var first, second := Announcements(LogSince(s, events, i)), Announcements(LogSince(s, events, j));
      |second| <= |first| && second == first[|first| - |second|..]
    ensures var all, first := Announcements(Log(s, events)), Announcements(LogSince(s, events, i));
      |first| <= |all| && first == all[|all| - |first|..]
  {
    hide Run, Log, Announcements, ValidState;
    var tail := events[i..];
    RunsCompose(s, events[..i], tail[..j - i]);
    assert events[..i] + tail[..j - i] == events[..j] && tail[j - i..] == events[j..];
    assert events[..i] + tail == events;
    RunsCompose(s, events[..i], tail);
    LogSinceIsSuffix(Run(s, events[..i]), tail, j - i);
    AnnouncementsJoin(Log(Run(s, events[..i]), tail[..j - i]), LogSince(s, events, j));
    LogSinceIsSuffix(s, events, i);
    AnnouncementsJoin(Log(s, events[..i]), LogSince(s, events, i));
  }

  // ---------------------------------------------------------------------------
  // From the sender to the log
  // ---------------------------------------------------------------------------

  /** What fd says in a log. */
  function Texts(log: seq<Entry>, fd: int): seq<seq<Byte>> {
    if log == [] then []
    else
      var last := log[|log| - 1];
      Texts(log[..|log| - 1], fd) + if last.fd == fd then [last.text] else []
  }

  lemma {:induction false} TextsJoin(a: seq<Entry>, b: seq<Entry>, fd: int)
    ensures Texts(a + b, fd) == Texts(a, fd) + Texts(b, fd)
  {
    if b == [] {
      assert a + b == a;
    } else {
      var init, last := b[..|b| - 1], b[|b| - 1];
      TextsJoin(a, init, fd);
      assert (a + b)[..|a + b| - 1] == a + init && (a + b)[|a + b| - 1] == last;
      var said := if last.fd == fd then [last.text] else [];
      assert Texts(a, fd) + Texts(init, fd) + said == Texts(a, fd) + (Texts(init, fd) + said);
    }
  }

  lemma {:induction false} ReadingsJoin(s: seq<Byte>, a: nat, b: nat)
    ensures var (ms, rest) := ReadFramesFrom(s, a);
            var (ns, end) := ReadFramesFrom(rest, b);
            |ms| == a && ReadFramesFrom(s, a + b) == (ms + ns, end)
    decreases a
  {
    hide ReadFrameFrom;
    if a == 0 {
      var (ns, end) := ReadFramesFrom(s, b);
      assert [] + ns == ns;
    } else {
      var r := ReadFrameFrom(s);
      ReadingsJoin(r.rest, a - 1, b);
      var (ms, rest) := ReadFramesFrom(r.rest, a - 1);
      var (ns, end) := ReadFramesFrom(rest, b);
      assert [r.message] + ms + ns == [r.message] + (ms + ns);
    }
  }

  /** No header from fd is delivered in parts. */
  ghost predicate WholeHeaders(fd: int, events: seq<Event>) {
    forall e :: e in events && e.Notify? && e.fd == fd ==> e.lost == 0
  }

  /** One event reads as many messages from a descriptor as it enters into the log for it. */
  lemma StepInput(s: State, e: Event, fd: int)
    requires ValidState(s) && Possible(s, e) && fd in s.inputs && WholeHeaders(fd, [e])
    ensures var texts := Texts(Spoken(s, e), fd);
            ReadFramesFrom(s.inputs[fd], |texts|) == (texts, Step(s, e).inputs[fd])
  {
    hide ReadFrameFrom, Frame, Response, Announced;
    assert e in [e];
    if e.Notify? && e.fd in s.members {
      var entry := Entry(e.fd, Taken(s.inputs[e.fd], e.lost).message);
      assert [entry][..0] == [] && Texts([], fd) == [];
      if e.fd == fd {
        assert Texts([entry], fd) == [] + [entry.text] == [entry.text];
        ReadOne(s.inputs[fd]);
      } else {
        assert Texts([entry], fd) == [];
      }
    }
  }

  lemma ReadOne(s: seq<Byte>)
    ensures ReadFramesFrom(s, 1) == ([ReadFrameFrom(s).message], ReadFrameFrom(s).rest)
  {
    hide ReadFrameFrom;
    var r := ReadFrameFrom(s);
    var (ms, rest) := ReadFramesFrom(r.rest, 0);
    assert [r.message] + ms == [r.message];
  }

  /** The log holds what each peer sends whose headers arrive whole, in its order and without
      gaps, and the rest is still to be read. */
  lemma {:induction false} LogKeepsOrder(s: State, events: seq<Event>, fd: int)
    requires ValidState(s) && AllPossible(s, events) && fd in s.inputs && WholeHeaders(fd, events)
    ensures var texts := Texts(Log(s, events), fd);
            ReadFramesFrom(s.inputs[fd], |texts|) == (texts, Run(s, events).inputs[fd])
  {
    hide Step, Spoken, ReadFrameFrom, Taken, ValidState;
    if events != [] {
      var init, e := events[..|events| - 1], events[|events| - 1];
      assert e in events && forall f :: f in init ==> f in events;
      LogKeepsOrder(s, init, fd);
      var before, log := Run(s, init), Log(s, init);
      StepInput(before, e, fd);
      TextsJoin(log, Spoken(before, e), fd);
      ReadingsJoin(s.inputs[fd], |Texts(log, fd)|, |Texts(Spoken(before, e), fd)|);
    }
  }

  /** From one client to all others: as long as no more frames are taken from a client than it
      sends, the log says of it exactly its first messages, whatever the masking keys. */
  lemma MessagesReachTheLog(s: State, events: seq<Event>, fd: int,
                            keys: seq<seq<Byte>>, messages: seq<seq<Byte>>, tail: seq<Byte>)
    requires ValidState(s) && AllPossible(s, events) && fd in s.inputs && WholeHeaders(fd, events)
    requires Sendable(messages) && |keys| == |messages| && forall k :: k in keys ==> |k| == 4
    requires s.inputs[fd] == ClientFrames(keys, messages) + tail
    requires |Texts(Log(s, events), fd)| <= |messages|
    ensures Texts(Log(s, events), fd) == messages[..|Texts(Log(s, events), fd)|]
  {
    hide Run, Log, Texts, ReadFramesFrom, ClientFrames, ValidState;
    LogKeepsOrder(s, events, fd);
    ClientFramesRoundTrip(keys, messages, tail);
    FirstReadings(s.inputs[fd], messages, |Texts(Log(s, events), fd)|);
  }

  lemma FirstReadings(s: seq<Byte>, messages: seq<seq<Byte>>, n: nat)
    requires n <= |messages| && ReadFramesFrom(s, |messages|).0 == messages
    ensures ReadFramesFrom(s, n).0 == messages[..n]
  {
    hide ReadFramesFrom;
    ReadingsJoin(s, n, |messages| - n);
  }

  // ---------------------------------------------------------------------------
  // The manager
  // ---------------------------------------------------------------------------

  lemma ConnectStep(s: State, fd: int, key: seq<Byte>, s': State)
    requires ValidState(s) && fd in s.inputs && key != []
    requires s'.members == s.members + {fd} && s'.inputs == s.inputs && s'.outputs.Keys == s.outputs.Keys
    requires forall c :: c in s.outputs ==>
        s'.outputs[c] == s.outputs[c] + if c == fd then Response(key) else []
    ensures s' == Step(s, Connect(fd, key)) && ValidState(s')
  {
    hide Response, Taken, Announced, Frame;
  }

  lemma NotifyStep(s: State, fd: int, lost: nat, s': State)
    requires ValidState(s) && fd in s.members
    requires s'.members == s.members && s'.inputs.Keys == s.inputs.Keys && s'.outputs.Keys == s.outputs.Keys
    requires forall c :: c in s.inputs ==>
        s'.inputs[c] == if c == fd then Taken(s.inputs[c], lost).rest else s.inputs[c]
    requires forall c :: c in s.outputs ==>
        s'.outputs[c] == s.outputs[c] + if c in s.members then Frame(Announced(s, fd, lost)) else []
    ensures s' == Step(s, Notify(fd, lost)) && ValidState(s')
  {
    hide Response, Taken, Announced, Frame;
    assert s'.inputs == s.inputs[fd := Taken(s.inputs[fd], lost).rest];
  }

  lemma NoMembers(s: set<int>)
    requires forall c :: c !in s
    ensures s == {}
  {
    var none: set<int> := {};
    assert forall c :: c in s ==> c in none;
  }

  /** The order of a std::set starts with its least element. */
  lemma {:induction false} LeastExists(s: set<int>)
    requires s != {}
    ensures exists c :: c in s && forall d :: d in s ==> c <= d
    decreases s
  {
    if forall c :: c !in s {
      NoMembers(s);
    }
    var c :| c in s;
    var rest := s - {c};
    assert forall e :: e in s ==> e == c || e in rest;
    if exists d :: d in rest {
      LeastExists(rest);
      var d :| d in rest && forall e :: e in rest ==> d <= e;
      var least := if c < d then c else d;
      assert least in s && forall e :: e in s ==> least <= e;
    } else {
      assert forall e :: e in s ==> c <= e;
    }
  }

  ghost predicate Ascending(s: seq<int>) {
    forall i, j :: 0 <= i < j < |s| ==> s[i] < s[j]
  }

  lemma NextIsLarger(s: seq<int>)
    requires Ascending(s)
    ensures forall k :: 0 < k < |s| ==> s[k - 1] < s[k]
  {
  }

  lemma NothingAscends()
    ensures Ascending([])
  {
  }

  lemma AscendingAppend(s: seq<int>, c: int)
    requires Ascending(s) && forall d :: d in s ==> d < c
    ensures Ascending(s + [c])
  {
    assert forall i :: 0 <= i < |s| ==> s[i] in s;
  }

  class Manager {
    var descriptors: set<int>
    /** The open connections, each with a socket of its own. */
    const sockets: map<int, Socket>

    ghost function View(): State
      reads this, sockets.Values
    {
      State(descriptors, map fd | fd in sockets :: sockets[fd].input, map fd | fd in sockets :: sockets[fd].output)
    }

    ghost predicate Separate() {
      forall c, d :: c in sockets && d in sockets && c != d ==> sockets[c] != sockets[d]
    }

    ghost predicate Valid()
      reads this, sockets.Values
    {
      ValidState(View()) && Separate()
    }

    constructor (open: map<int, Socket>)
      requires forall c, d :: c in open && d in open && c != d ==> open[c] != open[d]
      requires forall fd :: fd in open ==> |Prefix(fd)| + |open[fd].input| < TWO_TO_64
      ensures sockets == open && descriptors == {} && Valid()
    {
      sockets := open;
      descriptors := {};
    }

    /** Answers a handshake, unless its headers have no key. */
    method AddNewConnection(fd: int, headers: seq<Header>) returns (ok: bool)
      requires Valid() && fd in sockets
      modifies this`descriptors, sockets[fd]
      ensures Valid() && View() == Step(old(View()), Connect(fd, KeyOf(headers)))
      ensures ok <==> KeyOf(headers) != []
      ensures forall h :: h in headers && NamesKey(h) && h.value != [] && OneKey(headers) ==>
        ok && fd in descriptors && sockets[fd].output == old(sockets[fd].output) + Response(h.value)
    {
      forall h | h in headers && NamesKey(h) && OneKey(headers) ensures KeyOf(headers) == h.value {
        KeyIsFound(headers, h);
      }
      hide NamesKey, OneKey, KeyOf, Response, Frame, Taken, Announced, ValidState;
      var key := FindWebsocketKey(headers);
      if key == [] {
        return false;
      }
      var response := ResponseText(key);
      sockets[fd].Send(response);
      descriptors := descriptors + {fd};
      ConnectStep(old(View()), fd, key, View());
      return true;
    }

    /** Reads a frame from a registered descriptor and passes it on to all of them. */
    method NotifyMessageRequest(fd: int) returns (ghost lost: nat)
      requires Valid() && fd in sockets
      modifies sockets.Values
      ensures Valid() && View() == Step(old(View()), Notify(fd, lost))
      ensures sockets[fd].wholeHeaders ==> lost == 0
    {
      hide Taken, Frame, Announced;
      if fd !in descriptors {
        return 0;
      }
      var message;
      message, lost := ReadAnnouncement(fd);
      ghost var order := Broadcast(message);
      NotifyStep(old(View()), fd, lost, View());
    }

    method ReadAnnouncement(fd: int) returns (message: seq<Byte>, ghost lost: nat)
      requires Valid() && fd in descriptors
      modifies sockets[fd]
      ensures message == Announced(old(View()), fd, lost)
      ensures sockets[fd].input == Taken(old(sockets[fd].input), lost).rest
      ensures sockets[fd].output == old(sockets[fd].output)
      ensures sockets[fd].wholeHeaders ==> lost == 0
    {
      hide ReadFrameFrom, Ascii, SignedNumeral;
      var str;
      str, lost := ReadFrame(sockets[fd]);
      message := Ascii("ID[" + SignedNumeral(fd) + "]=>") + str;
    }

    /** The loop over the registered descriptors, in ascending order. */
    method Broadcast(message: seq<Byte>) returns (ghost order: seq<int>)
      requires descriptors <= sockets.Keys && Separate() && |message| < TWO_TO_64
      modifies sockets.Values
      ensures descriptors == old(descriptors)
      ensures forall c :: c in sockets ==> sockets[c].input == old(sockets[c].input)
      ensures forall c :: c in sockets ==>
          sockets[c].output == old(sockets[c].output) + if c in descriptors then Frame(message) else []
      ensures forall k :: 0 < k < |order| ==> order[k - 1] < order[k]
      ensures forall c :: c in order <==> c in descriptors
    {
      hide Frame, Ascending;
      NothingAscends();
      var rest := descriptors;
      order := [];
      while rest != {}
        invariant rest <= descriptors == old(descriptors)
        invariant forall c :: c in sockets ==> sockets[c].input == old(sockets[c].input)
        invariant forall c :: c in sockets ==>
            sockets[c].output == old(sockets[c].output) + if c in descriptors && c !in rest then Frame(message) else []
        invariant Ascending(order)
        invariant forall c :: c in order <==> c in descriptors && c !in rest
        invariant forall c, d :: c in order && d in rest ==> c < d
        decreases rest
      {
        LeastExists(rest);
        var c :| c in rest && forall d :: d in rest ==> c <= d;
        SendFrame(sockets[c], message);
        AscendingAppend(order, c);
        order := order + [c];
        rest := rest - {c};
      }
      NextIsLarger(order);
    }
  }
}
