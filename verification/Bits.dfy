/** Bitwise operations on natural numbers, bit by bit, and on 32-bit words. */
module Bits {
  import opened Bytes

  function Pow2(n: nat): (p: nat)
    ensures p > 0
  {
    if n == 0 then 1 else 2 * Pow2(n - 1)
  }

  function And(x: nat, y: nat): nat {
    if x == 0 || y == 0 then 0
    else 2 * And(x / 2, y / 2) + (if x % 2 == 1 && y % 2 == 1 then 1 else 0)
  }

  function Or(x: nat, y: nat): nat {
    if x == 0 then y else if y == 0 then x
    else 2 * Or(x / 2, y / 2) + (if x % 2 == 1 || y % 2 == 1 then 1 else 0)
  }

  function Xor(x: nat, y: nat): nat {
    if x == 0 then y else if y == 0 then x
    else 2 * Xor(x / 2, y / 2) + (if x % 2 != y % 2 then 1 else 0)
  }

  lemma {:induction false} BitwiseBound(x: nat, y: nat, n: nat)
    requires x < Pow2(n) && y < Pow2(n)
    ensures And(x, y) < Pow2(n) && Or(x, y) < Pow2(n) && Xor(x, y) < Pow2(n)
  {
    if x != 0 && y != 0 {
      BitwiseBound(x / 2, y / 2, n - 1);
    }
  }

  /** Or puts together numbers that have no bits in common. */
  lemma {:induction false} OrOfDisjoint(x: nat, y: nat, n: nat)
    requires y < Pow2(n)
    ensures Or(x * Pow2(n), y) == x * Pow2(n) + y
  {
    if n > 0 && x != 0 && y != 0 {
      var p := Pow2(n - 1);
      assert x * Pow2(n) == 2 * (x * p);
      assert x * p != 0;
      OrOfDisjoint(x, y / 2, n - 1);
    }
  }

  lemma {:induction false} XorTwice(x: nat, k: nat)
    ensures Xor(Xor(x, k), k) == x
  {
    if x == 0 {
      XorSelf(k);
    } else if k != 0 {
      XorTwice(x / 2, k / 2);
      var z := Xor(x, k);
      assert z / 2 == Xor(x / 2, k / 2);
    }
  }

  lemma {:induction false} XorSelf(k: nat)
    ensures Xor(k, k) == 0
  {
    if k != 0 {
      XorSelf(k / 2);
    }
  }

  // ---------------------------------------------------------------------------
  // 32-bit words
  // ---------------------------------------------------------------------------

  lemma Pow2Values()
    ensures Pow2(8) == 0x100 && Pow2(16) == 0x1_0000 && Pow2(24) == 0x100_0000 && Pow2(32) == TWO_TO_32
  {
    assert Pow2(4) == 16 && Pow2(8) == 0x100;
    assert Pow2(12) == 0x1000 && Pow2(16) == 0x1_0000;
    assert Pow2(20) == 0x10_0000 && Pow2(24) == 0x100_0000;
    assert Pow2(28) == 0x1000_0000 && Pow2(32) == TWO_TO_32;
  }

  type Word = w: int | 0 <= w < TWO_TO_32

  function And32(x: Word, y: Word): Word {
    Pow2Values();
    BitwiseBound(x, y, 32);
    And(x, y)
  }

  function Or32(x: Word, y: Word): Word {
    Pow2Values();
    BitwiseBound(x, y, 32);
    Or(x, y)
  }

  function Xor32(x: Word, y: Word): Word {
    Pow2Values();
    BitwiseBound(x, y, 32);
    Xor(x, y)
  }

  function Not32(x: Word): Word {
    TWO_TO_32 - 1 - x
  }

  /** Addition of unsigned 32-bit numbers wraps around. */
  function Add32(x: Word, y: Word): Word {
    (x + y) % TWO_TO_32
  }

  function ShiftLeft32(x: Word, n: nat): Word {
    (x * Pow2(n)) % TWO_TO_32
  }

  function ShiftRight32(x: Word, n: nat): Word {
    DivisionShrinks(x, Pow2(n));
    x / Pow2(n)
  }

  lemma DivisionShrinks(x: nat, p: nat)
    requires p > 0
    ensures 0 <= x / p <= x
  {
    ProductGrows(x / p, p);
    assert x == (x / p) * p + x % p;
  }

  lemma {:induction false} ProductGrows(q: nat, p: nat)
    requires p > 0
    ensures q * p >= q
  {
    if p > 1 {
      ProductGrows(q, p - 1);
      assert q * p == q * (p - 1) + q;
    }
  }
}
