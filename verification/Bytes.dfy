/** Octets, and big-endian numbers as sequences of octets. */
module Bytes {
  import opened Common

  type Byte = b: int | 0 <= b < 256

  const TWO_TO_32: int := 0x1_0000_0000
  const TWO_TO_64: int := 0x1_0000_0000_0000_0000

  function Zeros(n: nat): (s: seq<Byte>)
    ensures |s| == n && forall i :: 0 <= i < n ==> s[i] == 0
  {
    seq(n, _ => 0)
  }

  function Pow256(n: nat): (p: nat)
    ensures p > 0
  {
    if n == 0 then 1 else 256 * Pow256(n - 1)
  }

  /** The octet of v with k octets to its right. */
  function Octet(v: nat, k: nat): Byte {
    if k == 0 then v % 256 else Octet(v / 256, k - 1)
  }

  /** The n low-order octets of v, most significant first. */
  function BigEndian(v: nat, n: nat): (s: seq<Byte>)
    ensures |s| == n
  {
    seq(n, i requires 0 <= i < n => Octet(v, n - 1 - i))
  }

  function FromBigEndian(s: seq<Byte>): (v: nat) {
    if s == [] then 0 else 256 * FromBigEndian(s[..|s| - 1]) + s[|s| - 1]
  }

  /** A number made of a high and a low part has the octets of both. */
  lemma {:induction false} OctetOfSum(high: nat, low: nat, j: nat, k: nat)
    requires low < Pow256(j)
    ensures Octet(high * Pow256(j) + low, k) == if k < j then Octet(low, k) else Octet(high, k - j)
  {
    if j > 0 {
      var x := high * Pow256(j - 1);
      assert high * Pow256(j) == 256 * x;
      assert (256 * x + low) / 256 == x + low / 256 && (256 * x + low) % 256 == low % 256;
      if k > 0 {
        OctetOfSum(high, low / 256, j - 1, k - 1);
      }
    }
  }

  /** The octet that a shift and a mask take out of v. */
  lemma {:induction false} OctetByShift(v: nat, k: nat)
    ensures Octet(v, k) == (v / Pow256(k)) % 256
  {
    if k > 0 {
      OctetByShift(v / 256, k - 1);
      DivideTwice(v, Pow256(k - 1));
    }
  }

  lemma DivideTwice(v: nat, b: nat)
    requires b > 0
    ensures v / 256 / b == v / (256 * b)
  {
    var u := v / 256;
    var q, r := u / b, u % b;
    assert u == b * q + r;
    assert (256 * b) * q == 256 * (b * q);
    QuotientIs(v, 256 * b, q, 256 * r + v % 256);
  }

  lemma {:induction false} BigEndianRoundTrip(v: nat, n: nat)
    requires v < Pow256(n)
    ensures FromBigEndian(BigEndian(v, n)) == v
  {
    if n > 0 {
      BigEndianRoundTrip(v / 256, n - 1);
      forall i | 0 <= i < n - 1 ensures BigEndian(v, n)[i] == BigEndian(v / 256, n - 1)[i] {
        assert Octet(v, n - 1 - i) == Octet(v / 256, n - 2 - i);
      }
      assert BigEndian(v, n)[..n - 1] == BigEndian(v / 256, n - 1);
      assert BigEndian(v, n)[n - 1] == Octet(v, 0) == v % 256;
    }
  }

  function Flatten<T>(pieces: seq<seq<T>>): seq<T> {
    if pieces == [] then [] else pieces[0] + Flatten(pieces[1..])
  }
}
