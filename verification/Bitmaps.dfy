/** 32-bit bitmaps, read bit by bit. */
module Bitmaps {

  predicate LowBit(b: bv32) { b & 1 == 1 }
  function Shift(b: bv32): bv32 { b >> 1 }
  function Or(a: bv32, b: bv32): bv32 { a | b }
  function Xor32(a: bv32, b: bv32): bv32 { a ^ b }
  function AndNot(a: bv32, b: bv32): bv32 { a & !b }

  /** Bit i of the bitmap. */
  predicate Bit(b: bv32, i: nat) {
    if i == 0 then LowBit(b) else Bit(Shift(b), i - 1)
  }

  /** 1 << i */
  function Single(i: nat): bv32
  {
    if i == 0 then 1 else Single(i - 1) << 1
  }

  lemma OrStep(a: bv32, b: bv32)
    ensures LowBit(Or(a, b)) == (LowBit(a) || LowBit(b)) && Shift(Or(a, b)) == Or(Shift(a), Shift(b))
  {
  }

  lemma XorStep(a: bv32, b: bv32)
    ensures LowBit(Xor32(a, b)) == (LowBit(a) != LowBit(b)) && Shift(Xor32(a, b)) == Xor32(Shift(a), Shift(b))
  {
  }

  lemma AndNotStep(a: bv32, b: bv32)
    ensures LowBit(AndNot(a, b)) == (LowBit(a) && !LowBit(b)) && Shift(AndNot(a, b)) == AndNot(Shift(a), Shift(b))
  {
  }

  lemma {:induction false} BitOr(a: bv32, b: bv32, i: nat)
    ensures Bit(Or(a, b), i) == (Bit(a, i) || Bit(b, i))
    decreases i
  {
    hide Or, LowBit, Shift;
    OrStep(a, b);
    if i > 0 { BitOr(Shift(a), Shift(b), i - 1); }
  }

  lemma {:induction false} BitXor(a: bv32, b: bv32, i: nat)
    ensures Bit(Xor32(a, b), i) == (Bit(a, i) != Bit(b, i))
    decreases i
  {
    hide Xor32, LowBit, Shift;
    XorStep(a, b);
    if i > 0 { BitXor(Shift(a), Shift(b), i - 1); }
  }

  lemma {:induction false} BitAndNot(a: bv32, b: bv32, i: nat)
    ensures Bit(AndNot(a, b), i) == (Bit(a, i) && !Bit(b, i))
    decreases i
  {
    hide AndNot, LowBit, Shift;
    AndNotStep(a, b);
    if i > 0 { BitAndNot(Shift(a), Shift(b), i - 1); }
  }

  lemma {:induction false} BitZero(i: nat)
    ensures !Bit(0, i)
  {
    assert Shift(0) == 0;
    if i > 0 { BitZero(i - 1); }
  }

  // ----- single bits

  /** The top r bits are clear, so that b can be shifted left r times. */
  predicate TopClear(b: bv32, r: nat)
    decreases r
  {
    r == 0 || (b & 0x80000000 == 0 && TopClear(b << 1, r - 1))
  }

  lemma OneTopClear()
    ensures TopClear(1, 31)
  {
    assert TopClear(0x40000000, 1);
    assert TopClear(0x10000000, 3);
    assert TopClear(0x4000000, 5);
    assert TopClear(0x1000000, 7);
    assert TopClear(0x400000, 9);
    assert TopClear(0x100000, 11);
    assert TopClear(0x40000, 13);
    assert TopClear(0x10000, 15);
    assert TopClear(0x4000, 17);
    assert TopClear(0x1000, 19);
    assert TopClear(0x400, 21);
    assert TopClear(0x100, 23);
    assert TopClear(0x40, 25);
    assert TopClear(0x10, 27);
    assert TopClear(0x4, 29);
  }

  lemma {:induction false} SingleTopClear(i: nat)
    requires i <= 31
    ensures TopClear(Single(i), 31 - i)
  {
    if i == 0 { OneTopClear(); } else { SingleTopClear(i - 1); }
  }

  lemma ShiftBack(b: bv32)
    ensures !LowBit(b << 1)
    ensures b & 0x80000000 == 0 ==> Shift(b << 1) == b
  {
  }

  lemma {:induction false} BitSingle(d: nat, i: nat)
    requires d <= 31
    ensures Bit(Single(d), i) <==> i == d
    decreases i
  {
    if d == 0 {
      if i > 0 { BitZero(i - 1); assert Shift(1) == 0; }
    } else {
      SingleTopClear(d - 1);
      ShiftBack(Single(d - 1));
      if i > 0 { BitSingle(d - 1, i - 1); }
    }
  }

  // ----- bitmaps as sets

  /** The bits below n. */
  ghost function BitsBelow(b: bv32, n: nat): (s: set<nat>)
    ensures forall i: nat :: i in s <==> i < n && Bit(b, i)
  {
    if n == 0 then {} else BitsBelow(b, n - 1) + (if Bit(b, n - 1) then {n - 1} else {})
  }

  function PopCount(b: bv32, n: nat): nat {
    if n == 0 then 0 else PopCount(b, n - 1) + (if Bit(b, n - 1) then 1 else 0)
  }

  lemma {:induction false} PopCountCard(b: bv32, n: nat)
    ensures |BitsBelow(b, n)| == PopCount(b, n)
  {
    if n > 0 { PopCountCard(b, n - 1); }
  }

  lemma Rebuild(a: bv32, b: bv32)
    requires LowBit(a) == LowBit(b) && Shift(a) == Shift(b)
    ensures a == b
  {
  }

  function ShiftN(b: bv32, n: nat): bv32
    decreases n
  {
    if n == 0 then b else ShiftN(Shift(b), n - 1)
  }

  lemma {:induction false} ShiftedBit(bm: bv32, i: nat, x: nat)
    ensures Bit(ShiftN(bm, i), x) == Bit(bm, i + x)
    ensures ShiftN(bm, i + 1) == Shift(ShiftN(bm, i))
    decreases i
  {
    hide Shift, LowBit;
    if i > 0 { ShiftedBit(Shift(bm), i - 1, x); }
  }

  /** Bitmaps without bits from n on that agree below n are equal. */
  lemma {:induction false} SameBits(a: bv32, b: bv32, n: nat)
    requires ShiftN(a, n) == 0 == ShiftN(b, n)
    requires forall i: nat :: i < n ==> Bit(a, i) == Bit(b, i)
    ensures a == b
    decreases n
  {
    hide LowBit, Shift;
    if n > 0 {
      assert Bit(a, 0) == Bit(b, 0);
      forall i: nat | i < n - 1 ensures Bit(Shift(a), i) == Bit(Shift(b), i) { assert Bit(a, i + 1) == Bit(b, i + 1); }
      SameBits(Shift(a), Shift(b), n - 1);
      Rebuild(a, b);
    }
  }
}
