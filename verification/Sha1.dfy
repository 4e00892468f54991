/**
  SHA-1. Sha1Standard is the function of FIPS PUB 180-1 on whole messages; Sha1 is the
  streaming object, with its block buffer and its two-word length counter.
 */
module Sha1Standard {
  import opened Bytes
  import opened Bits

  /** Section 2(c): the circular left shift S^n. */
  function RotL(n: nat, x: Word): Word
    requires 0 < n < 32
  {
    Or32(ShiftLeft32(x, n), ShiftRight32(x, 32 - n))
  }

  /** Section 5: the logical functions f(t). */
  function F(t: nat, b: Word, c: Word, d: Word): Word {
    if t < 20 then Or32(And32(b, c), And32(Not32(b), d))
    else if t < 40 then Xor32(Xor32(b, c), d)
    else if t < 60 then Or32(Or32(And32(b, c), And32(b, d)), And32(c, d))
    else Xor32(Xor32(b, c), d)
  }

  /** Section 6: the constants K(t). */
  function K(t: nat): Word {
    if t < 20 then 0x5A827999
    else if t < 40 then 0x6ED9EBA1
    else if t < 60 then 0x8F1BBCDC
    else 0xCA62C1D6
  }

  datatype Chain = Chain(a: Word, b: Word, c: Word, d: Word, e: Word)

  const INITIAL: Chain := Chain(0x67452301, 0xEFCDAB89, 0x98BADCFE, 0x10325476, 0xC3D2E1F0)

  /** Section 2(b): four octets as a word, the most significant first. */
  function WordOf(b0: Byte, b1: Byte, b2: Byte, b3: Byte): Word {
    0x100_0000 * b0 + 0x1_0000 * b1 + 0x100 * b2 + b3
  }

  /** Section 7, steps a and b: the word W(t) of a 64-octet block. */
  function W(block: seq<Byte>, t: nat): Word
    requires |block| == 64
    decreases |block|, t
  {
    if t < 16 then
      WordOf(block[4 * t], block[4 * t + 1], block[4 * t + 2], block[4 * t + 3])
    else
      RotL(1, Xor32(Xor32(Xor32(W(block, t - 3), W(block, t - 8)), W(block, t - 14)), W(block, t - 16)))
  }

  /** Section 7, step d, for one t. */
  function Round(block: seq<Byte>, t: nat, s: Chain): Chain
    requires |block| == 64
  {
    Chain(Add32(Add32(Add32(Add32(RotL(5, s.a), F(t, s.b, s.c, s.d)), s.e), W(block, t)), K(t)),
          s.a, RotL(30, s.b), s.c, s.d)
  }

  function Rounds(block: seq<Byte>, h: Chain, t: nat): Chain
    requires |block| == 64
    decreases |block|, t
  {
    if t == 0 then h else Round(block, t - 1, Rounds(block, h, t - 1))
  }

  function Add(h: Chain, s: Chain): Chain {
    Chain(Add32(h.a, s.a), Add32(h.b, s.b), Add32(h.c, s.c), Add32(h.d, s.d), Add32(h.e, s.e))
  }

  /** The eighty rounds on one block. Their number is written |block| + 16 because the
      verifier would unroll a literal. */
  function Compress(h: Chain, block: seq<Byte>): Chain
    requires |block| == 64
  {
    Add(h, Rounds(block, h, |block| + 16))
  }

  /** Compresses the whole blocks of m one after the other. */
  function Blocks(h: Chain, m: seq<Byte>): Chain
    decreases |m|
  {
    if |m| < 64 then h else Blocks(Compress(h, m[..64]), m[64..])
  }

  /** Section 4: a one bit, zeros, and the bit length as two words, up to a whole block. */
  function Pad(m: seq<Byte>): seq<Byte> {
    m + [0x80] + Zeros((55 - |m|) % 64) + BigEndian(8 * |m|, 8)
  }

  lemma PadMakesWholeBlocks(m: seq<Byte>)
    ensures |Pad(m)| % 64 == 0
  {
  }

  function Digest(m: seq<Byte>): Chain {
    Blocks(INITIAL, Pad(m))
  }

  function WordBytes(w: Word): (s: seq<Byte>)
    ensures |s| == 4
  {
    BigEndian(w, 4)
  }

  /** The digest as 20 octets, most significant first. */
  function DigestBytes(m: seq<Byte>): (s: seq<Byte>)
    ensures |s| == 20
  {
    var h := Digest(m);
    WordBytes(h.a) + WordBytes(h.b) + WordBytes(h.c) + WordBytes(h.d) + WordBytes(h.e)
  }

  lemma {:induction false} BlocksAppend(h: Chain, m: seq<Byte>, n: seq<Byte>, k: nat)
    requires |m| == 64 * k
    ensures Blocks(h, m + n) == Blocks(Blocks(h, m), n)
    decreases k
  {
    if k == 0 {
      assert m + n == n;
    } else {
      assert (m + n)[..64] == m[..64] && (m + n)[64..] == m[64..] + n;
      BlocksAppend(Compress(h, m[..64]), m[64..], n, k - 1);
    }
  }

  lemma OneBlock(h: Chain, m: seq<Byte>, block: seq<Byte>, k: nat)
    requires |m| == 64 * k && |block| == 64
    ensures Blocks(h, m + block) == Compress(Blocks(h, m), block)
  {
    BlocksAppend(h, m, block, k);
    assert block[..64] == block && block[64..] == [];
  }

  /** The padding can be undone: messages of fewer than 2^64 bits have distinct padded forms. */
  lemma PadInjective(m: seq<Byte>, n: seq<Byte>)
    requires 8 * |m| < TWO_TO_64 && 8 * |n| < TWO_TO_64 && Pad(m) == Pad(n)
    ensures m == n
  {
    var p := Pad(m);
    assert p[|p| - 8..] == BigEndian(8 * |m|, 8) == BigEndian(8 * |n|, 8);
    assert Pow256(8) == TWO_TO_64;
    BigEndianRoundTrip(8 * |m|, 8);
    BigEndianRoundTrip(8 * |n|, 8);
    assert p[..|m|] == m && p[..|m|] == n;
  }
}

module Sha1 {
  import opened Bytes
  import opened Bits
  import opened Sha1Standard

  /** What a SHA1 object has seen since Reset, and the states it can be in. */
  datatype Session = Session(message: seq<Byte>, computed: bool, corrupted: bool)

  const FRESH: Session := Session([], false, false)

  /** The longest message in octets, plus one. */
  const LIMIT: int := TWO_TO_64 / 8

  /** Input: refused after a result; a message that reaches 2^64 bits is corrupted there. */
  function AfterInput(s: Session, bytes: seq<Byte>): Session {
    if bytes == [] then s
    else if s.computed || s.corrupted then s.(corrupted := true)
    else if |s.message| + |bytes| < LIMIT then s.(message := s.message + bytes)
    else if |s.message| < LIMIT then Session(s.message + bytes[..LIMIT - |s.message|], false, true)
    else s.(corrupted := true)
  }

  function AfterResult(s: Session): Session {
    if s.corrupted then s else s.(computed := true)
  }

  /** The first blocks of the message have been compressed into chain, the rest is buffered. */
  ghost predicate Absorbed(message: seq<Byte>, blocks: nat, buffered: seq<Byte>, chain: Chain) {
    && |message| == 64 * blocks + |buffered| && |buffered| < 64
    && message[64 * blocks..] == buffered
    && chain == Blocks(INITIAL, message[..64 * blocks])
  }

  lemma AbsorbOctet(message: seq<Byte>, blocks: nat, buffered: seq<Byte>, chain: Chain, octet: Byte)
    requires Absorbed(message, blocks, buffered, chain) && |buffered| < 63
    ensures Absorbed(message + [octet], blocks, buffered + [octet], chain)
  {
    assert (message + [octet])[..64 * blocks] == message[..64 * blocks];
  }

  lemma AbsorbBlock(message: seq<Byte>, blocks: nat, buffered: seq<Byte>, chain: Chain, octet: Byte)
    requires Absorbed(message, blocks, buffered, chain) && |buffered| == 63
    ensures Absorbed(message + [octet], blocks + 1, [], Compress(chain, buffered + [octet]))
  {
    var message' := message + [octet];
    OneBlock(INITIAL, message[..64 * blocks], buffered + [octet], blocks);
    assert message'[..64 * (blocks + 1)] == message[..64 * blocks] + (buffered + [octet]);
  }

  class SHA1 {
    const H: array<Word>
    const messageBlock: array<Byte>
    var lengthLow: nat
    var lengthHigh: nat
    var messageBlockIndex: nat
    var computed: bool
    var corrupted: bool
    /** The octets stored since Reset. */
    ghost var message: seq<Byte>
    /** How many whole blocks of the message have been compressed. */
    ghost var blocks: nat

    ghost function Chaining(): Chain
      requires H.Length == 5
      reads H
    {
      Chain(H[0], H[1], H[2], H[3], H[4])
    }

    ghost predicate Shape()
      reads this
    {
      H.Length == 5 && messageBlock.Length == 64
    }

    ghost predicate Valid()
      reads this, H, messageBlock
    {
      && Shape() && messageBlockIndex < 64
      && (!corrupted && computed ==> |message| < LIMIT && Chaining() == Digest(message))
      && (!corrupted && !computed ==> |message| < LIMIT && Absorbing())
      && (corrupted && !computed ==> |message| <= LIMIT)
    }

    ghost predicate Absorbing()
      requires Shape() && messageBlockIndex <= 64
      reads this, H, messageBlock
    {
      && lengthLow < TWO_TO_32 && lengthHigh < TWO_TO_32
      && lengthLow + TWO_TO_32 * lengthHigh == 8 * |message|
      && Absorbed(message, blocks, messageBlock[..messageBlockIndex], Chaining())
    }

    ghost function State(): Session
      reads this
    {
      Session(message, computed, corrupted)
    }

    constructor ()
      ensures Valid() && fresh(H) && fresh(messageBlock) && State() == FRESH
    {
      H := new Word[5];
      messageBlock := new Byte[64];
      new;
      Reset();
    }

    method Reset()
      requires Shape()
      modifies this, H
      ensures Valid() && State() == FRESH
    {
      hide Digest, Compress;
      lengthLow := 0;
      lengthHigh := 0;
      messageBlockIndex := 0;
      H[0] := 0x67452301;
      H[1] := 0xEFCDAB89;
      H[2] := 0x98BADCFE;
      H[3] := 0x10325476;
      H[4] := 0xC3D2E1F0;
      computed := false;
      corrupted := false;
      message := [];
      blocks := 0;
      assert message[..0] == [];
    }

    static function CircularShift(bits: nat, word: Word): Word
      requires 0 < bits < 32
    {
      Or32(ShiftLeft32(word, bits), ShiftRight32(word, 32 - bits))
    }

    /** Appends octets to the message. */
    method Input(bytes: seq<Byte>)
      requires Valid() && |bytes| < TWO_TO_32
      modifies this, H, messageBlock
      ensures Valid() && State() == AfterInput(old(State()), bytes)
    {
      hide Digest, Blocks;
      if bytes == [] {
        return;
      }
      if computed || corrupted {
        corrupted := true;
        return;
      }
      var i := 0;
      while i < |bytes| && !corrupted
        invariant 0 <= i <= |bytes| && Valid() && !computed
        invariant message == old(message) + bytes[..i]
        invariant corrupted <==> |message| == LIMIT
      {
        StoreOctet(bytes[i]);
        assert bytes[..i] + [bytes[i]] == bytes[..i + 1];
        i := i + 1;
      }
      assert bytes[..|bytes|] == bytes;
    }

    /** The body of the loop of Input: buffers one octet and counts its eight bits. */
    method StoreOctet(octet: Byte)
      requires Valid() && !computed && !corrupted
      modifies this, H, messageBlock
      ensures Valid() && !computed
      ensures message == old(message) + [octet]
      ensures corrupted <==> |message| == LIMIT
    {
      hide Digest, Compress, Blocks;
      ghost var buffered, chain := messageBlock[..messageBlockIndex], Chaining();
      messageBlock[messageBlockIndex] := octet;
      messageBlockIndex := messageBlockIndex + 1;
      assert messageBlock[..messageBlockIndex] == buffered + [octet];
      CountOctet(|message|);
      if messageBlockIndex == 64 {
        AbsorbBlock(message, blocks, buffered, chain, octet);
        assert messageBlock[..] == messageBlock[..64];
        ProcessMessageBlock();
        assert messageBlock[..0] == [];
        blocks := blocks + 1;
      } else {
        AbsorbOctet(message, blocks, buffered, chain, octet);
      }
      message := message + [octet];
    }

    /** The two-word counter: it wraps to zero at the octet that makes 2^64 bits. */
    method CountOctet(ghost n: nat)
      requires !corrupted && n < LIMIT && lengthLow < TWO_TO_32 && lengthHigh < TWO_TO_32
      requires lengthLow + TWO_TO_32 * lengthHigh == 8 * n
      modifies this`lengthLow, this`lengthHigh, this`corrupted
      ensures lengthLow < TWO_TO_32 && lengthHigh < TWO_TO_32
      ensures lengthLow + TWO_TO_32 * lengthHigh == (8 * (n + 1)) % TWO_TO_64
      ensures corrupted <==> n + 1 == LIMIT
    {
      lengthLow := (lengthLow + 8) % TWO_TO_32;
      if lengthLow == 0 {
        lengthHigh := (lengthHigh + 1) % TWO_TO_32;
        if lengthHigh == 0 {
          corrupted := true;
        }
      }
    }

    /** Writes the five words of the digest, unless the session is corrupted. */
    method Result(digest: array<Word>) returns (ok: bool)
      requires Valid() && digest.Length == 5 && digest != H
      modifies this, H, messageBlock, digest
      ensures Valid() && State() == AfterResult(old(State()))
      ensures ok <==> !corrupted
      ensures ok ==> Chain(digest[0], digest[1], digest[2], digest[3], digest[4]) == Digest(message)
      ensures !ok ==> digest[..] == old(digest[..])
    {
      hide Digest, Blocks;
      if corrupted {
        return false;
      }
      if !computed {
        PadMessage();
        computed := true;
      }
      for i := 0 to 5
        invariant forall k :: 0 <= k < i ==> digest[k] == H[k]
        invariant Valid() && State() == AfterResult(old(State())) && !corrupted
      {
        digest[i] := H[i];
      }
      return true;
    }

    /** Pads the buffered part to one or two blocks and compresses them. */
    method PadMessage()
      requires Valid() && !computed && !corrupted
      modifies this`messageBlockIndex, H, messageBlock
      ensures messageBlockIndex == 0 && Chaining() == Digest(message)
    {
      hide Digest, Compress, Blocks, BigEndian, Zeros;
      ghost var tail, done, chain := messageBlock[..messageBlockIndex], message[..64 * blocks], Chaining();
      assert message == done + tail;
      if messageBlockIndex > 55 {
        messageBlock[messageBlockIndex] := 0x80;
        messageBlockIndex := messageBlockIndex + 1;
        FillWithZeros(64, tail + [0x80]);
        ghost var first := tail + [0x80] + Zeros(63 - |tail|);
        assert messageBlock[..] == messageBlock[..64] == first;
        ProcessMessageBlock();
        FillWithZeros(56, []);
        StoreLength(Zeros(56));
        DigestOfLong(message, tail, done, blocks);
      } else {
        messageBlock[messageBlockIndex] := 0x80;
        messageBlockIndex := messageBlockIndex + 1;
        FillWithZeros(56, tail + [0x80]);
        StoreLength(tail + [0x80] + Zeros(55 - |tail|));
        DigestOfShort(message, tail, done, blocks);
      }
      ProcessMessageBlock();
    }

    /** Stores the message length as the last eight octets of the block. */
    method StoreLength(ghost before: seq<Byte>)
      requires Shape() && |before| == 56 && messageBlock[..56] == before
      requires lengthLow < TWO_TO_32 && lengthHigh < TWO_TO_32
      modifies messageBlock
      ensures messageBlock[..] == before + BigEndian(lengthLow + TWO_TO_32 * lengthHigh, 8)
    {
      LengthOctets(lengthHigh, lengthLow);
      messageBlock[56] := (lengthHigh / 0x100_0000) % 256;
      messageBlock[57] := (lengthHigh / 0x1_0000) % 256;
      messageBlock[58] := (lengthHigh / 0x100) % 256;
      messageBlock[59] := lengthHigh % 256;
      messageBlock[60] := (lengthLow / 0x100_0000) % 256;
      messageBlock[61] := (lengthLow / 0x1_0000) % 256;
      messageBlock[62] := (lengthLow / 0x100) % 256;
      messageBlock[63] := lengthLow % 256;
    }

    /** The padding loops: zeros from the current index up to n. */
    method FillWithZeros(n: nat, ghost before: seq<Byte>)
      requires Shape() && messageBlockIndex <= n <= 64 && messageBlock[..messageBlockIndex] == before
      modifies this`messageBlockIndex, messageBlock
      ensures messageBlockIndex == n && messageBlock[..n] == before + Zeros(n - |before|)
    {
      while messageBlockIndex < n
        invariant |before| <= messageBlockIndex <= n
        invariant messageBlock[..messageBlockIndex] == before + Zeros(messageBlockIndex - |before|)
      {
        messageBlock[messageBlockIndex] := 0;
        messageBlockIndex := messageBlockIndex + 1;
      }
    }

    /** Compresses the buffered block into H and empties the buffer. */
    method ProcessMessageBlock()
      requires Shape()
      modifies this`messageBlockIndex, H
      ensures messageBlockIndex == 0
      ensures Chaining() == Compress(old(Chaining()), messageBlock[..])
    {
      var w := WordSequence();
      var a, b, c, d, e := FirstRounds(w);
      a, b, c, d, e := LastRounds(w, a, b, c, d, e);
      AddToChain(a, b, c, d, e);
      messageBlockIndex := 0;
    }

    /** The last part of ProcessMessageBlock. */
    method AddToChain(a: Word, b: Word, c: Word, d: Word, e: Word)
      requires Shape()
      modifies H
      ensures Chaining() == Add(old(Chaining()), Chain(a, b, c, d, e))
    {
      H[0] := Add32(H[0], a);
      H[1] := Add32(H[1], b);
      H[2] := Add32(H[2], c);
      H[3] := Add32(H[3], d);
      H[4] := Add32(H[4], e);
    }

    /** The first part of ProcessMessageBlock: the word sequence of the buffered block. */
    method WordSequence() returns (w: array<Word>)
      requires Shape()
      ensures fresh(w) && w.Length == 80
      ensures forall i :: 0 <= i < 80 ==> w[i] == W(messageBlock[..], i)
    {
      ghost var block := messageBlock[..];
      w := new Word[80];
      var t := 0;
      while t < 16
        invariant 0 <= t <= 16 && messageBlock[..] == block
        invariant forall i :: 0 <= i < t ==> w[i] == W(block, i)
      {
        var word := ShiftLeft32(messageBlock[t * 4], 24);
        word := Or32(word, ShiftLeft32(messageBlock[t * 4 + 1], 16));
        word := Or32(word, ShiftLeft32(messageBlock[t * 4 + 2], 8));
        word := Or32(word, messageBlock[t * 4 + 3]);
        WordIsAssembled(messageBlock[t * 4], messageBlock[t * 4 + 1], messageBlock[t * 4 + 2], messageBlock[t * 4 + 3]);
        w[t] := word;
        t := t + 1;
      }
      while t < 80
        invariant 16 <= t <= 80 && messageBlock[..] == block
        invariant forall i :: 0 <= i < t ==> w[i] == W(block, i)
      {
        w[t] := CircularShift(1, Xor32(Xor32(Xor32(w[t - 3], w[t - 8]), w[t - 14]), w[t - 16]));
        t := t + 1;
      }
    }

    /** The rounds of ProcessMessageBlock: the loops for t below 40. */
    method FirstRounds(w: array<Word>) returns (a: Word, b: Word, c: Word, d: Word, e: Word)
      requires Shape() && w.Length == 80
      requires forall i :: 0 <= i < 80 ==> w[i] == W(messageBlock[..], i)
      ensures Chain(a, b, c, d, e) == Rounds(messageBlock[..], Chaining(), w.Length / 2)
    {
      var k: seq<Word> := [0x5A827999, 0x6ED9EBA1, 0x8F1BBCDC, 0xCA62C1D6];
      ghost var block, h := messageBlock[..], Chaining();
      a, b, c, d, e := H[0], H[1], H[2], H[3], H[4];
      var t := 0;
      while t < 20
        invariant 0 <= t <= 20 && Chain(a, b, c, d, e) == Rounds(block, h, t)
      {
        var temp := Add32(Add32(Add32(Add32(CircularShift(5, a), Or32(And32(b, c), And32(Not32(b), d))), e), w[t]), k[0]);
        e := d;
        d := c;
        c := CircularShift(30, b);
        b := a;
        a := temp;
        t := t + 1;
      }
      while t < 40
        invariant 20 <= t <= 40 && Chain(a, b, c, d, e) == Rounds(block, h, t)
      {
        var temp := Add32(Add32(Add32(Add32(CircularShift(5, a), Xor32(Xor32(b, c), d)), e), w[t]), k[1]);
        e := d;
        d := c;
        c := CircularShift(30, b);
        b := a;
        a := temp;
        t := t + 1;
      }
    }

    /** The rounds of ProcessMessageBlock: the loops for t from 40. */
    method LastRounds(w: array<Word>, a0: Word, b0: Word, c0: Word, d0: Word, e0: Word)
      returns (a: Word, b: Word, c: Word, d: Word, e: Word)
      requires Shape() && w.Length == 80
      requires forall i :: 0 <= i < 80 ==> w[i] == W(messageBlock[..], i)
      requires Chain(a0, b0, c0, d0, e0) == Rounds(messageBlock[..], Chaining(), w.Length / 2)
      ensures Add(Chaining(), Chain(a, b, c, d, e)) == Compress(Chaining(), messageBlock[..])
    {
      var k: seq<Word> := [0x5A827999, 0x6ED9EBA1, 0x8F1BBCDC, 0xCA62C1D6];
      ghost var block, h := messageBlock[..], Chaining();
      a, b, c, d, e := a0, b0, c0, d0, e0;
      var t := w.Length / 2;
      while t < 60
        invariant 40 <= t <= 60 && Chain(a, b, c, d, e) == Rounds(block, h, t)
      {
        var temp := Add32(Add32(Add32(Add32(CircularShift(5, a), Or32(Or32(And32(b, c), And32(b, d)), And32(c, d))), e), w[t]), k[2]);
        e := d;
        d := c;
        c := CircularShift(30, b);
        b := a;
        a := temp;
        t := t + 1;
      }
      while t < 80
        invariant 60 <= t <= 80 && Chain(a, b, c, d, e) == Rounds(block, h, t)
      {
        var temp := Add32(Add32(Add32(Add32(CircularShift(5, a), Xor32(Xor32(b, c), d)), e), w[t]), k[3]);
        e := d;
        d := c;
        c := CircularShift(30, b);
        b := a;
        a := temp;
        t := t + 1;
      }
    }
  }

  /** The eight length octets that PadMessage stores. */
  lemma LengthOctets(high: Word, low: Word)
    ensures BigEndian(low + TWO_TO_32 * high, 8) ==
            [(high / 0x100_0000) % 256, (high / 0x1_0000) % 256, (high / 0x100) % 256, high % 256,
             (low / 0x100_0000) % 256, (low / 0x1_0000) % 256, (low / 0x100) % 256, low % 256]
  {
    var v := low + TWO_TO_32 * high;
    assert Pow256(4) == TWO_TO_32;
    forall k: nat | k < 8 ensures Octet(v, k) == if k < 4 then Octet(low, k) else Octet(high, k - 4) {
      OctetOfSum(high, low, 4, k);
    }
    FourOctets(high);
    FourOctets(low);
  }

  lemma FourOctets(v: nat)
    ensures Octet(v, 0) == v % 256 && Octet(v, 1) == (v / 0x100) % 256
    ensures Octet(v, 2) == (v / 0x1_0000) % 256 && Octet(v, 3) == (v / 0x100_0000) % 256
  {
    assert v / 0x100 / 0x100 == v / 0x1_0000 && v / 0x1_0000 / 0x100 == v / 0x100_0000;
    assert Octet(v, 1) == Octet(v / 0x100, 0);
    assert Octet(v, 2) == Octet(v / 0x100, 1) == Octet(v / 0x1_0000, 0);
    assert Octet(v, 3) == Octet(v / 0x100, 2) == Octet(v / 0x1_0000, 1) == Octet(v / 0x100_0000, 0);
  }

  /** The number of padding zeros, by the octets in the last, incomplete block. */
  lemma PaddingZeros(n: nat, k: nat, t: nat)
    requires n == 64 * k + t
    ensures t <= 55 ==> (55 - n) % 64 == 55 - t
    ensures 55 < t < 64 ==> (55 - n) % 64 == 119 - t
  {
    assert 55 - n == 55 - t - 64 * k == 119 - t - 64 * (k + 1);
  }

  /** The digest when the length still fits into the last block. */
  lemma DigestOfShort(m: seq<Byte>, tail: seq<Byte>, done: seq<Byte>, k: nat)
    requires m == done + tail && |done| == 64 * k && |tail| <= 55
    ensures Digest(m) == Compress(Blocks(INITIAL, done), tail + [0x80] + Zeros(55 - |tail|) + BigEndian(8 * |m|, 8))
  {
    PaddingZeros(|m|, k, |tail|);
    var z, length := Zeros(55 - |tail|), BigEndian(8 * |m|, 8);
    assert Pad(m) == done + (tail + [0x80] + z + length);
    OneBlock(INITIAL, done, tail + [0x80] + z + length, k);
  }

  /** The digest when the length needs a block of its own. */
  lemma DigestOfLong(m: seq<Byte>, tail: seq<Byte>, done: seq<Byte>, k: nat)
    requires m == done + tail && |done| == 64 * k && 55 < |tail| < 64
    ensures Digest(m) == Compress(Compress(Blocks(INITIAL, done), tail + [0x80] + Zeros(63 - |tail|)),
                                  Zeros(56) + BigEndian(8 * |m|, 8))
  {
    PaddingZeros(|m|, k, |tail|);
    var z, length := Zeros(63 - |tail|), BigEndian(8 * |m|, 8);
    var first, last := tail + [0x80] + z, Zeros(56) + length;
    assert Zeros(119 - |tail|) == z + Zeros(56);
    assert Pad(m) == done + first + last;
    OneBlock(INITIAL, done, first, k);
    OneBlock(INITIAL, done + first, last, k + 1);
  }

  /** The shifts and ors of ProcessMessageBlock put four octets into a word. */
  lemma WordIsAssembled(b0: Byte, b1: Byte, b2: Byte, b3: Byte)
    ensures Or32(Or32(Or32(ShiftLeft32(b0, 24), ShiftLeft32(b1, 16)), ShiftLeft32(b2, 8)), b3) == WordOf(b0, b1, b2, b3)
  {
    OctetsShifted(b0, b1, b2);
    FirstTwoOctets(b0, b1);
    FirstThreeOctets(b0, b1, b2);
    Pow2Values();
    OrOfDisjoint(0x1_0000 * b0 + 0x100 * b1 + b2, b3, 8);
  }

  lemma OctetsShifted(b0: Byte, b1: Byte, b2: Byte)
    ensures ShiftLeft32(b0, 24) == 0x100_0000 * b0
    ensures ShiftLeft32(b1, 16) == 0x1_0000 * b1
    ensures ShiftLeft32(b2, 8) == 0x100 * b2
  {
    Pow2Values();
  }

  lemma FirstTwoOctets(b0: Byte, b1: Byte)
    ensures Or32(0x100_0000 * b0, 0x1_0000 * b1) == 0x100_0000 * b0 + 0x1_0000 * b1
  {
    Pow2Values();
    OrOfDisjoint(b0, 0x1_0000 * b1, 24);
  }

  lemma FirstThreeOctets(b0: Byte, b1: Byte, b2: Byte)
    ensures Or32(0x100_0000 * b0 + 0x1_0000 * b1, 0x100 * b2) == 0x100_0000 * b0 + 0x1_0000 * b1 + 0x100 * b2
  {
    Pow2Values();
    OrOfDisjoint(0x100 * b0 + b1, 0x100 * b2, 16);
  }

  // ---------------------------------------------------------------------------
  // Runs
  // ---------------------------------------------------------------------------

  function AfterInputs(s: Session, pieces: seq<seq<Byte>>): Session
    decreases |pieces|
  {
    if pieces == [] then s else AfterInputs(AfterInput(s, pieces[0]), pieces[1..])
  }

  lemma InputsJoin(s: Session, a: seq<Byte>, b: seq<Byte>)
    requires !s.corrupted ==> |s.message| < LIMIT
    ensures AfterInput(AfterInput(s, a), b) == AfterInput(s, a + b)
  {
    if a == [] {
      assert a + b == b;
    } else if b == [] {
      assert a + b == a;
    } else {
      assert s.message + a + b == s.message + (a + b);
      if !s.computed && !s.corrupted && |s.message| + |a| < LIMIT <= |s.message| + |a| + |b| {
        var k := LIMIT - |s.message|;
        assert s.message + (a + b)[..k] == s.message + a + b[..k - |a|];
      } else if !s.computed && !s.corrupted && |s.message| + |a| >= LIMIT {
        var k := LIMIT - |s.message|;
        assert (a + b)[..k] == a[..k];
      }
    }
  }

  /** How a message is cut into calls of Input makes no difference, in any state. */
  lemma {:induction false} SplitsDoNotMatter(s: Session, pieces: seq<seq<Byte>>)
    requires !s.corrupted ==> |s.message| < LIMIT
    ensures AfterInputs(s, pieces) == AfterInput(s, Flatten(pieces))
    decreases |pieces|
  {
    if pieces != [] {
      InputsJoin(s, pieces[0], Flatten(pieces[1..]));
      SplitsDoNotMatter(AfterInput(s, pieces[0]), pieces[1..]);
    }
  }

  datatype Event = Reset | Input(bytes: seq<Byte>) | Result

  function Step(s: Session, e: Event): Session {
    match e
    case Reset => FRESH
    case Input(bytes) => AfterInput(s, bytes)
    case Result => AfterResult(s)
  }

  function Run(s: Session, events: seq<Event>): Session {
    if events == [] then s else Step(Run(s, events[..|events| - 1]), events[|events| - 1])
  }

  /** The octets given to Input since the last Reset. */
  function Given(events: seq<Event>): seq<Byte> {
    if events == [] then [] else
      var before := Given(events[..|events| - 1]);
      match events[|events| - 1]
      case Reset => []
      case Input(bytes) => before + bytes
      case Result => before
  }

  /** The octets given to Input between the last Reset and the first Result after it. */
  function GivenInTime(events: seq<Event>): (seq<Byte>, bool) {
    if events == [] then ([], false) else
      var (before, late) := GivenInTime(events[..|events| - 1]);
      match events[|events| - 1]
      case Reset => ([], false)
      case Input(bytes) => (if late then before else before + bytes, late)
      case Result => (before, true)
  }

  /** In every run of a new object a result can be had exactly when the octets given since the
      last Reset are fewer than 2^61 and none of them came after a result; it is then the digest
      of exactly those octets. */
  lemma {:induction false} ResultInRuns(events: seq<Event>)
    ensures var s := Run(FRESH, events);
            && (!s.corrupted <==> |Given(events)| < LIMIT && Given(events) == GivenInTime(events).0)
            && (!s.corrupted ==> s.message == Given(events) && s.computed == GivenInTime(events).1)
    ensures GivenInTime(events).0 <= Given(events)
    ensures !GivenInTime(events).1 ==> GivenInTime(events).0 == Given(events)
  {
    if events != [] {
      var init := events[..|events| - 1];
      ResultInRuns(init);
      match events[|events| - 1]
      case Reset =>
      case Result =>
      case Input(bytes) =>
        if bytes == [] {
          assert Given(init) + bytes == Given(init);
        } else if GivenInTime(init).1 {
          assert |Given(init) + bytes| > |GivenInTime(init).0|;
        } else {
        }
    }
  }
}
