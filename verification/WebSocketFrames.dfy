/**
  The frame writer and reader of the websocket handler, over octet streams.

  A stream holds everything the peer sends until it closes the connection; a read past its
  end is the read that recv reports as failed.
 */
module WebSocketFrames {
  import opened Bytes
  import opened Bits
  import opened WordBits

  // ---------------------------------------------------------------------------
  // Frames as octets
  // ---------------------------------------------------------------------------

  /** The second header octet, without the mask bit, and the extended length. */
  function LengthField(n: nat): (s: seq<Byte>)
    requires n < TWO_TO_64
    ensures |s| > 0 && s[0] < 128
  {
    if n <= 125 then [n]
    else if n <= 0xFFFF then [126] + BigEndian(n, 2)
    else [127] + BigEndian(n, 8)
  }

  /** An unmasked text frame: FIN set, opcode 1. */
  function Frame(message: seq<Byte>): seq<Byte>
    requires |message| < TWO_TO_64
  {
    [0x81] + LengthField(|message|) + message
  }

  function Masked(key: seq<Byte>, payload: seq<Byte>): (s: seq<Byte>)
    requires |key| == 4
    ensures |s| == |payload|
  {
    seq(|payload|, i requires 0 <= i < |payload| => XorByte(payload[i], key[i % 4]))
  }

  function XorByte(x: Byte, y: Byte): Byte {
    assert Pow2(8) == 256;
    BitwiseBound(x, y, 8);
    Xor(x, y)
  }

  /** Masking turns over exactly the bits that are set in the key octet of the index modulo 4. */
  lemma MaskedBits(key: seq<Byte>, payload: seq<Byte>, i: nat, j: nat)
    requires |key| == 4 && i < |payload|
    ensures Bit(Masked(key, payload)[i], j) == (Bit(payload[i], j) + Bit(key[i % 4], j)) % 2
  {
    BitwiseOperations(payload[i], key[i % 4], j);
  }

  /** A text frame masked under a four-octet key, as a client sends it. */
  function ClientFrame(key: seq<Byte>, message: seq<Byte>): seq<Byte>
    requires |key| == 4 && |message| < TWO_TO_64
  {
    var f := LengthField(|message|);
    [0x81] + [f[0] + 128] + f[1..] + key + Masked(key, message)
  }

  // ---------------------------------------------------------------------------
  // The reader as a function of the stream
  // ---------------------------------------------------------------------------

  /** What read_frame returns, and what it leaves of the stream. */
  datatype Reading = Reading(message: seq<Byte>, rest: seq<Byte>)

  /** The extended length field starts the stream; its size depends on the 7-bit length. */
  function ExtendedSize(n: nat): nat {
    if n == 126 then 2 else if n == 127 then 8 else 0
  }

  function ReadFrameFrom(s: seq<Byte>): Reading {
    if |s| < 2 then Reading([], [])
    else
      var n, ext, s1 := s[1] % 128, ExtendedSize(s[1] % 128), s[2..];
      if |s1| < ext then Reading([], [])
      else
        var length := if ext == 0 then n else FromBigEndian(s1[..ext]);
        ReadPayload(s[0] % 16, s[1] >= 128, length, s1[ext..])
  }

  function ReadPayload(opcode: nat, masked: bool, length: nat, s: seq<Byte>): Reading {
    var k := if masked then 4 else 0;
    if |s| < k || |s[k..]| < length then Reading([], [])
    else
      var payload := s[k..][..length];
      Reading(if opcode != 1 then [] else if masked then Masked(s[..4], payload) else payload, s[k..][length..])
  }

  // ---------------------------------------------------------------------------
  // Round trips
  // ---------------------------------------------------------------------------

  lemma {:induction false} LengthRoundTrip(n: nat, tail: seq<Byte>)
    requires n < TWO_TO_64
    ensures var s := LengthField(n) + tail;
      var ext := ExtendedSize(s[0]);
      && |s| >= 1 + ext && s[1 + ext..] == tail
      && n == if ext == 0 then s[0] else FromBigEndian(s[1..][..ext])
  {
    assert Pow256(2) == 0x1_0000 && Pow256(8) == TWO_TO_64;
    var s := LengthField(n) + tail;
    if 125 < n <= 0xFFFF {
      BigEndianRoundTrip(n, 2);
      assert s[1..][..2] == BigEndian(n, 2);
    } else if 0xFFFF < n {
      BigEndianRoundTrip(n, 8);
      assert s[1..][..8] == BigEndian(n, 8);
    }
  }

  /** The header parts of a stream that starts with the length field of n. */
  lemma HeaderRead(h0: Byte, bit: Byte, n: nat, body: seq<Byte>)
    requires n < TWO_TO_64 && (bit == 0 || bit == 128)
    ensures var f := LengthField(n);
      ReadFrameFrom([h0, f[0] + bit] + f[1..] + body) == ReadPayload(h0 % 16, bit == 128, n, body)
  {
    hide FromBigEndian, ReadPayload;
    var f := LengthField(n);
    var ext := ExtendedSize(f[0]);
    LengthRoundTrip(n, body);
    var s := [h0, f[0] + bit] + f[1..] + body;
    assert (f + body)[1..] == s[2..];
    assert s[2..][ext..] == (f + body)[1 + ext..] == body;
  }

  /** The reader takes exactly the octets of a frame and returns its message. */
  lemma FrameRoundTrip(message: seq<Byte>, tail: seq<Byte>)
    requires |message| < TWO_TO_64
    ensures ReadFrameFrom(Frame(message) + tail) == Reading(message, tail)
  {
    hide LengthField, ReadFrameFrom, ReadPayload;
    var f := LengthField(|message|);
    HeaderRead(0x81, 0, |message|, message + tail);
    assert Frame(message) + tail == [0x81, f[0]] + f[1..] + (message + tail);
    PayloadUnmasked(message, tail);
  }

  lemma PayloadUnmasked(message: seq<Byte>, tail: seq<Byte>)
    ensures ReadPayload(1, false, |message|, message + tail) == Reading(message, tail)
  {
    assert (message + tail)[0..] == message + tail;
  }

  lemma PayloadMasked(key: seq<Byte>, message: seq<Byte>, tail: seq<Byte>)
    requires |key| == 4
    ensures ReadPayload(1, true, |message|, key + Masked(key, message) + tail) == Reading(message, tail)
  {
    var s, m := key + Masked(key, message) + tail, Masked(key, message);
    assert s[4..] == m + tail && s[..4] == key;
    assert (m + tail)[..|message|] == m && (m + tail)[|message|..] == tail;
    MaskTwice(key, message);
  }

  lemma MaskTwice(key: seq<Byte>, payload: seq<Byte>)
    requires |key| == 4
    ensures Masked(key, Masked(key, payload)) == payload
  {
    forall i | 0 <= i < |payload| ensures Masked(key, Masked(key, payload))[i] == payload[i] {
      XorTwice(payload[i], key[i % 4]);
    }
  }

  /** The same for a masked client frame, under any key. */
  lemma ClientFrameRoundTrip(key: seq<Byte>, message: seq<Byte>, tail: seq<Byte>)
    requires |key| == 4 && |message| < TWO_TO_64
    ensures ReadFrameFrom(ClientFrame(key, message) + tail) == Reading(message, tail)
  {
    hide LengthField, ReadFrameFrom, ReadPayload, Masked;
    var f, body := LengthField(|message|), key + Masked(key, message) + tail;
    HeaderRead(0x81, 128, |message|, body);
    assert ClientFrame(key, message) + tail == [0x81, f[0] + 128] + f[1..] + body;
    PayloadMasked(key, message, tail);
  }

  /** The first two octets of a sent frame: FIN set, no reserved bits, opcode 1; no mask. */
  lemma FrameHeader(message: seq<Byte>)
    requires |message| < TWO_TO_64
    ensures var f := Frame(message); |f| >= 2 && f[0] / 128 == 1 && (f[0] / 16) % 8 == 0 && f[0] % 16 == 1 && f[1] < 128
  {
  }

  /** Of a frame with any other opcode the reader takes all octets and returns nothing. */
  lemma OtherFramesAreDropped(h0: Byte, message: seq<Byte>, tail: seq<Byte>)
    requires h0 % 16 != 1 && |message| < TWO_TO_64
    ensures ReadFrameFrom([h0] + LengthField(|message|) + message + tail) == Reading([], tail)
  {
    hide LengthField, ReadFrameFrom, ReadPayload;
    var f := LengthField(|message|);
    HeaderRead(h0, 0, |message|, message + tail);
    assert [h0] + f + message + tail == [h0, f[0]] + f[1..] + (message + tail);
    OtherPayload(h0 % 16, message, tail);
  }

  lemma OtherPayload(opcode: nat, message: seq<Byte>, tail: seq<Byte>)
    requires opcode != 1
    ensures ReadPayload(opcode, false, |message|, message + tail) == Reading([], tail)
  {
    assert (message + tail)[0..] == message + tail;
  }

  /** What repeated reading returns: n messages and the rest of the stream. */
  function ReadFramesFrom(s: seq<Byte>, n: nat): (seq<seq<Byte>>, seq<Byte>)
    decreases n
  {
    if n == 0 then ([], s)
    else
      var r := ReadFrameFrom(s);
      var (ms, rest) := ReadFramesFrom(r.rest, n - 1);
      ([r.message] + ms, rest)
  }

  ghost predicate Sendable(messages: seq<seq<Byte>>) {
    forall m :: m in messages ==> |m| < TWO_TO_64
  }

  function Frames(messages: seq<seq<Byte>>): seq<Byte>
    requires Sendable(messages)
  {
    if messages == [] then [] else Frame(messages[0]) + Frames(messages[1..])
  }

  lemma ReadOneMore(s: seq<Byte>, message: seq<Byte>, rest: seq<Byte>, messages: seq<seq<Byte>>, tail: seq<Byte>)
    requires ReadFrameFrom(s) == Reading(message, rest) && ReadFramesFrom(rest, |messages|) == (messages, tail)
    ensures ReadFramesFrom(s, |messages| + 1) == ([message] + messages, tail)
  {
    hide ReadFrameFrom;
  }

  lemma ReadNone(tail: seq<Byte>)
    ensures ReadFramesFrom([] + tail, 0) == ([], tail)
  {
    assert [] + tail == tail;
  }

  /** Any list of messages is read back from the concatenation of its frames. */
  lemma {:induction false} FramesRoundTrip(messages: seq<seq<Byte>>, tail: seq<Byte>)
    requires Sendable(messages)
    ensures ReadFramesFrom(Frames(messages) + tail, |messages|) == (messages, tail)
  {
    hide Frame, ReadFrameFrom, ReadFramesFrom;
    if messages == [] {
      ReadNone(tail);
    } else {
      var rest := Frames(messages[1..]) + tail;
      FrameRoundTrip(messages[0], rest);
      assert Frames(messages) + tail == Frame(messages[0]) + rest;
      FramesRoundTrip(messages[1..], tail);
      ReadOneMore(Frames(messages) + tail, messages[0], rest, messages[1..], tail);
      assert [messages[0]] + messages[1..] == messages;
    }
  }

  function ClientFrames(keys: seq<seq<Byte>>, messages: seq<seq<Byte>>): seq<Byte>
    requires Sendable(messages) && |keys| == |messages| && forall k :: k in keys ==> |k| == 4
  {
    if messages == [] then [] else ClientFrame(keys[0], messages[0]) + ClientFrames(keys[1..], messages[1..])
  }

  lemma {:induction false} ClientFramesRoundTrip(keys: seq<seq<Byte>>, messages: seq<seq<Byte>>, tail: seq<Byte>)
    requires Sendable(messages) && |keys| == |messages| && forall k :: k in keys ==> |k| == 4
    ensures ReadFramesFrom(ClientFrames(keys, messages) + tail, |messages|) == (messages, tail)
  {
    hide ClientFrame, ReadFrameFrom, ReadFramesFrom;
    if messages == [] {
      ReadNone(tail);
    } else {
      var rest := ClientFrames(keys[1..], messages[1..]) + tail;
      ClientFrameRoundTrip(keys[0], messages[0], rest);
      assert ClientFrames(keys, messages) + tail == ClientFrame(keys[0], messages[0]) + rest;
      ClientFramesRoundTrip(keys[1..], messages[1..], tail);
      ReadOneMore(ClientFrames(keys, messages) + tail, messages[0], rest, messages[1..], tail);
      assert [messages[0]] + messages[1..] == messages;
    }
  }

  // ---------------------------------------------------------------------------
  // Sockets
  // ---------------------------------------------------------------------------

  class Socket {
    /** The octets the peer will send before it closes. */
    var input: seq<Byte>
    /** The octets handed to send, all of which are taken. */
    var output: seq<Byte>
    /** Whether headers of up to 8 octets always arrive whole, unless the stream ends. */
    const wholeHeaders: bool

    constructor (incoming: seq<Byte>, wholeHeaders: bool)
      ensures input == incoming && output == [] && this.wholeHeaders == wholeHeaders
    {
      input := incoming;
      output := [];
      this.wholeHeaders := wholeHeaders;
    }

    /** recv of a header of n octets. When the stream goes on after fewer octets, the header was
        delivered in parts, and those octets are lost to a caller that gives up. */
    method RecvHeader(n: nat) returns (data: seq<Byte>, ghost lost: nat)
      requires n > 0
      modifies this`input
      ensures |data| <= n && |data| <= |old(input)| && (|data| == 0 <==> old(input) == [])
      ensures data == old(input)[..|data|] && input == old(input)[|data|..]
      ensures lost == if |data| < n && |data| < |old(input)| then |data| else 0
      ensures wholeHeaders ==> lost == 0
    {
      if !wholeHeaders {
        data := RecvSome(n);
      } else {
        var k := if n <= |input| then n else |input|;
        data := input[..k];
        input := input[k..];
      }
      lost := if |data| < n && input != [] then |data| else 0;
    }

    /** recv of up to n octets: any positive number of those to come, or none at the end. */
    method RecvSome(n: nat) returns (data: seq<Byte>)
      requires n > 0
      modifies this`input
      ensures |data| <= n && |data| <= |old(input)| && (|data| == 0 <==> old(input) == [])
      ensures data == old(input)[..|data|] && input == old(input)[|data|..]
    {
      if input == [] {
        return [];
      }
      var k :| 1 <= k <= n && k <= |input|;
      data := input[..k];
      input := input[k..];
    }

    method Send(data: seq<Byte>)
      modifies this`output
      ensures output == old(output) + data
    {
      output := output + data;
    }
  }

  /** Appends a text frame with the message to the output. */
  method SendFrame(socket: Socket, message: seq<Byte>)
    requires |message| < TWO_TO_64
    modifies socket`output
    ensures socket.output == old(socket.output) + Frame(message)
  {
    hide BigEndian, Pow256;
    var payloadLength := |message|;
    var frame: seq<Byte> := [0x81];
    if payloadLength <= 125 {
      frame := frame + [payloadLength];
    } else if payloadLength <= 0xFFFF {
      frame := frame + [126];
      frame := frame + [(payloadLength / 256) % 256];
      frame := frame + [payloadLength % 256];
      LowOctets(payloadLength);
    } else {
      frame := frame + [127];
      var i := 7;
      while i >= 0
        invariant -1 <= i <= 7 && socket.output == old(socket.output)
        invariant frame == [0x81, 127] + BigEndian(payloadLength, 8)[..7 - i]
      {
        NextOctet(payloadLength, i);
        frame := frame + [(payloadLength / Pow256(i)) % 256];
        i := i - 1;
      }
      assert BigEndian(payloadLength, 8)[..8] == BigEndian(payloadLength, 8);
    }
    assert frame == [0x81] + LengthField(payloadLength);
    frame := frame + message;
    assert frame == Frame(message);
    socket.Send(frame);
  }

  lemma LowOctets(n: nat)
    ensures BigEndian(n, 2) == [(n / 256) % 256, n % 256]
  {
    assert Octet(n, 1) == Octet(n / 256, 0);
    assert BigEndian(n, 2)[0] == Octet(n, 1) && BigEndian(n, 2)[1] == Octet(n, 0);
  }

  lemma NextOctet(n: nat, i: nat)
    requires i < 8
    ensures BigEndian(n, 8)[..7 - i] + [(n / Pow256(i)) % 256] == BigEndian(n, 8)[..8 - i]
  {
    hide Octet, Pow256;
    OctetByShift(n, i);
    assert BigEndian(n, 8)[7 - i] == Octet(n, i);
  }

  /** The length part of the reader: the number of payload octets, when it can be read. */
  method ReadLength(socket: Socket, n: nat) returns (ok: bool, payloadLength: nat, ghost lost: nat)
    requires n < 128
    modifies socket`input
    ensures var s, ext := old(socket.input), ExtendedSize(n);
      lost == 0 ==>
        && (ok <==> ext <= |s|)
        && (ok ==> socket.input == s[ext..] && payloadLength == if ext == 0 then n else FromBigEndian(s[..ext]))
        && (!ok ==> socket.input == [])
    ensures lost > 0 ==> !ok && lost < 8 && lost < |old(socket.input)| && socket.input == old(socket.input)[lost..]
    ensures socket.wholeHeaders ==> lost == 0
  {
    hide Or;
    ghost var s := socket.input;
    ok, payloadLength, lost := true, n, 0;
    if payloadLength == 126 {
      var extended;
      extended, lost := socket.RecvHeader(2);
      if |extended| != 2 {
        return false, 0, lost;
      }
      OrOctet(extended[0], extended[1]);
      payloadLength := Or(extended[0] as nat * 256, extended[1]);
      TwoOctets(extended);
    } else if payloadLength == 127 {
      var extended;
      extended, lost := socket.RecvHeader(8);
      if |extended| != 8 {
        return false, 0, lost;
      }
      payloadLength := 0;
      for i := 0 to 8
        invariant payloadLength == FromBigEndian(extended[..i]) < Pow256(i)
        invariant socket.input == s[8..]
      {
        OrOctet(payloadLength, extended[i]);
        assert extended[..i + 1][..i] == extended[..i];
        SmallerPower(i);
        payloadLength := Or((payloadLength * 256) % TWO_TO_64, extended[i]);
      }
      assert extended[..8] == extended;
    } else {
      assert s[0..] == s;
    }
  }

  lemma TwoOctets(e: seq<Byte>)
    requires |e| == 2
    ensures FromBigEndian(e) == (e[0] as nat) * 256 + e[1]
  {
    assert e[..1][..0] == [] && FromBigEndian([]) == 0;
    assert FromBigEndian(e[..1]) == e[0];
  }

  lemma OrOctet(v: nat, b: Byte)
    ensures Or(v * 256, b) == v * 256 + b
  {
    assert Pow2(8) == 256;
    OrOfDisjoint(v, b, 8);
  }

  lemma SmallerPower(i: nat)
    requires i < 8
    ensures 256 * Pow256(i) <= TWO_TO_64
  {
    Pow256Values();
  }

  lemma Pow256Values()
    ensures Pow256(0) == 1 && Pow256(1) == 0x100 && Pow256(2) == 0x1_0000 && Pow256(3) == 0x100_0000
    ensures Pow256(4) == TWO_TO_32 && Pow256(5) == 0x100 * TWO_TO_32
    ensures Pow256(6) == 0x1_0000 * TWO_TO_32 && Pow256(7) == 0x100_0000 * TWO_TO_32
  {
  }

  /** The payload loop: reads until the payload is full or the stream ends. */
  method ReadOctets(socket: Socket, payloadLength: nat) returns (ok: bool, payload: array<Byte>)
    modifies socket`input
    ensures fresh(payload)
    ensures ok <==> payloadLength <= |old(socket.input)|
    ensures ok ==> payload[..] == old(socket.input)[..payloadLength] && socket.input == old(socket.input)[payloadLength..]
    ensures !ok ==> socket.input == []
  {
    payload := new Byte[payloadLength];
    var bytesRead := 0;
    ghost var s := socket.input;
    while bytesRead < payloadLength
      invariant 0 <= bytesRead <= payloadLength && bytesRead <= |s|
      invariant payload[..bytesRead] == s[..bytesRead] && socket.input == s[bytesRead..]
    {
      var data := socket.RecvSome(payloadLength - bytesRead);
      if |data| == 0 {
        return false, payload;
      }
      forall j | 0 <= j < |data| {
        payload[bytesRead + j] := data[j];
      }
      assert payload[..bytesRead + |data|] == s[..bytesRead] + data;
      bytesRead := bytesRead + |data|;
    }
    assert payload[..] == payload[..payloadLength];
    return true, payload;
  }

  /** The unmasking loop. */
  method Unmask(payload: array<Byte>, maskingKey: seq<Byte>)
    requires |maskingKey| == 4
    modifies payload
    ensures payload[..] == Masked(maskingKey, old(payload[..]))
  {
    for i := 0 to payload.Length
      invariant forall j :: 0 <= j < i ==> payload[j] == XorByte(old(payload[j]), maskingKey[j % 4])
      invariant forall j :: i <= j < payload.Length ==> payload[j] == old(payload[j])
    {
      payload[i] := XorByte(payload[i], maskingKey[i % 4]);
    }
  }

  /** Reads one frame; the message is empty when the stream ends early or the opcode is not
      text. When a header is delivered in parts the reader gives up, and its first octets are
      lost: the next frame is then looked for in the middle of this one. */
  method ReadFrame(socket: Socket) returns (message: seq<Byte>, ghost lost: nat)
    modifies socket`input
    ensures lost == 0 ==> Reading(message, socket.input) == ReadFrameFrom(old(socket.input))
    ensures lost > 0 ==> message == [] && lost < 14 && lost < |old(socket.input)| && socket.input == old(socket.input)[lost..]
    ensures socket.wholeHeaders ==> lost == 0
  {
    hide FromBigEndian, ReadPayload;
    ghost var stream := socket.input;
    var header;
    header, lost := socket.RecvHeader(2);
    if |header| != 2 {
      return [], lost;
    }
    var opcode := header[0] % 16;
    var masked := (header[1] / 128) % 2 == 1;
    ghost var afterHeader := socket.input;
    var ok, payloadLength;
    ok, payloadLength, lost := ReadLength(socket, header[1] % 128);
    if !ok {
      return [], if lost == 0 then 0 else 2 + lost;
    }
    ghost var ext := ExtendedSize(header[1] % 128);
    assert ReadFrameFrom(stream) == ReadPayload(opcode, masked, payloadLength, socket.input);
    message, lost := ReadBody(socket, opcode, masked, payloadLength);
    if lost > 0 {
      assert afterHeader[ext..][lost..] == stream[2 + ext + lost..];
      lost := 2 + ext + lost;
    }
  }

  /** The rest of the reader, after the length: masking key, payload and opcode. */
  method ReadBody(socket: Socket, opcode: nat, masked: bool, payloadLength: nat)
    returns (message: seq<Byte>, ghost lost: nat)
    modifies socket`input
    ensures lost == 0 ==> Reading(message, socket.input) == ReadPayload(opcode, masked, payloadLength, old(socket.input))
    ensures lost > 0 ==> message == [] && lost < 4 && lost < |old(socket.input)| && socket.input == old(socket.input)[lost..]
    ensures socket.wholeHeaders ==> lost == 0
  {
    hide Masked;
    ghost var s := socket.input;
    lost := 0;
    var maskingKey: seq<Byte> := [0, 0, 0, 0];
    if masked {
      maskingKey, lost := socket.RecvHeader(4);
      if |maskingKey| != 4 {
        return [], lost;
      }
    } else {
      assert s[0..] == s;
    }
    var ok, payload := ReadOctets(socket, payloadLength);
    if !ok {
      return [], 0;
    }
    if masked {
      Unmask(payload, maskingKey);
    }
    if opcode == 1 {
      return payload[..], 0;
    } else {
      return [], 0;
    }
  }
}
