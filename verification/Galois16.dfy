/** The field GF(2^16) with primitive polynomial 0x1100b.

    The field operations are defined here without tables, as carry-less
    multiplication modulo the polynomial; module GaloisTables shows that the
    log and antilog tables compute them.

    Bit-level facts are proved on their own; the algebra above them hides the
    definitions and works with the laws only.
 */
module Galois16 {

  const PRIM_POLY: bv32 := 0x1100b

  function Xor(x: bv16, y: bv16): bv16 { x ^ y }

  function Shr(x: bv16): bv16 { x >> 1 }

  predicate Odd(x: bv16) { x & 1 == 1 }

  function Term(b: bool, y: bv16): bv16 { if b then y else 0 }

  /** One step of the table-building loop: shift left, reduce if bit 16 comes out set. */
  function Double(x: bv16): bv16 {
    var y := (x as bv32) << 1;
    if y & 0x10000 != 0 then (y ^ PRIM_POLY) as bv16 else y as bv16
  }

  function DoubleN(x: bv16, n: nat): bv16 {
    if n == 0 then x else Double(DoubleN(x, n - 1))
  }

  /** The n-th power of the generator 2. */
  function Power(n: nat): bv16 { DoubleN(1, n) }

  /** The n low bits of x times y: y is doubled for each further bit and added where the bit is set. */
  function Product(x: bv16, y: bv16, n: nat): bv16
    decreases n
  {
    if n == 0 then 0 else Xor(Term(Odd(x), y), Product(Shr(x), Double(y), n - 1))
  }

  /** Carry-less multiplication modulo the polynomial. */
  function GfMul(x: bv16, y: bv16): bv16 { Product(x, y, 16) }

  // ----- bit-level facts

  lemma RawXor(a: bv16, b: bv16, c: bv16, d: bv16)
    ensures (a ^ b) ^ c == a ^ (b ^ c)
    ensures (a ^ b) ^ (c ^ d) == (a ^ c) ^ (b ^ d)
    ensures a ^ b == b ^ a
    ensures 0 ^ a == a
    ensures a ^ a == 0
  {
  }

  lemma XorComm(x: bv16, y: bv16)
    ensures Xor(x, y) == Xor(y, x)
  {
    RawXor(x, y, x, y);
  }

  lemma XorAssoc(x: bv16, y: bv16, z: bv16)
    ensures Xor(Xor(x, y), z) == Xor(x, Xor(y, z))
  {
    RawXor(x, y, z, z);
  }

  lemma XorZero(x: bv16)
    ensures Xor(0, x) == x == Xor(x, 0)
    ensures Xor(x, x) == 0
  {
    RawXor(x, 0, x, x);
  }

  lemma XorSwapInner(a: bv16, b: bv16, c: bv16, d: bv16)
    ensures Xor(Xor(a, b), Xor(c, d)) == Xor(Xor(a, c), Xor(b, d))
  {
    hide Xor;
    XorAssoc(a, b, Xor(c, d));
    XorAssoc(b, c, d);
    XorComm(b, c);
    XorAssoc(c, b, d);
    XorAssoc(a, c, Xor(b, d));
  }

  lemma ShrXor(x: bv16, y: bv16)
    ensures Shr(Xor(x, y)) == Xor(Shr(x), Shr(y))
  {
  }

  lemma OddXor(x: bv16, y: bv16)
    ensures Odd(Xor(x, y)) == (Odd(x) != Odd(y))
  {
  }

  lemma TermXor(b: bool, c: bool, y: bv16)
    ensures Term(b != c, y) == Xor(Term(b, y), Term(c, y))
  {
    hide Xor;
    XorZero(y);
    XorZero(0);
  }

  function Top(x: bv16): bv16 { x >> 15 }
  function Shl1(x: bv16): bv16 { x << 1 }
  function Shl3(x: bv16): bv16 { x << 3 }
  function Shl12(x: bv16): bv16 { x << 12 }

  /** The reduction polynomial 0x100b = x^12 + x^3 + x + 1 times the carry bit t. */
  function Carry(t: bv16): bv16 { Xor(Xor(t, Shl1(t)), Xor(Shl3(t), Shl12(t))) }

  /** Doubling written as shifts. */
  lemma DoubleForm(x: bv16)
    ensures Double(x) == Xor(Shl1(x), Carry(Top(x)))
  {
    if x & 0x8000 == 0 {
      assert Top(x) == 0;
      assert Carry(0) == 0;
    } else {
      assert Top(x) == 1;
      assert Carry(1) == 0x100b;
    }
  }

  lemma ShlXor(x: bv16, y: bv16)
    ensures Shl1(Xor(x, y)) == Xor(Shl1(x), Shl1(y))
  {
  }

  lemma Shl3Xor(x: bv16, y: bv16)
    ensures Shl3(Xor(x, y)) == Xor(Shl3(x), Shl3(y))
  {
  }

  lemma Shl12Xor(x: bv16, y: bv16)
    ensures Shl12(Xor(x, y)) == Xor(Shl12(x), Shl12(y))
  {
  }

  lemma TopXor(x: bv16, y: bv16)
    ensures Top(Xor(x, y)) == Xor(Top(x), Top(y))
  {
  }

  lemma CarryXor(t: bv16, u: bv16)
    ensures Carry(Xor(t, u)) == Xor(Carry(t), Carry(u))
  {
    hide Xor, Shl1, Shl3, Shl12;
    ShlXor(t, u);
    Shl3Xor(t, u);
    Shl12Xor(t, u);
    XorSwapInner(t, u, Shl1(t), Shl1(u));
    XorSwapInner(Shl3(t), Shl3(u), Shl12(t), Shl12(u));
    XorSwapInner(Xor(t, Shl1(t)), Xor(u, Shl1(u)), Xor(Shl3(t), Shl12(t)), Xor(Shl3(u), Shl12(u)));
  }

  lemma DoubleXor(x: bv16, y: bv16)
    ensures Double(Xor(x, y)) == Xor(Double(x), Double(y))
  {
    hide Double, Xor, Top, Shl1, Carry;
    DoubleForm(x);
    DoubleForm(y);
    DoubleForm(Xor(x, y));
    TopXor(x, y);
    ShlXor(x, y);
    CarryXor(Top(x), Top(y));
    XorSwapInner(Shl1(x), Shl1(y), Carry(Top(x)), Carry(Top(y)));
  }

  lemma DoubleCases(x: bv16)
    ensures Double(x) == if x & 0x8000 == 0 then x << 1 else (x << 1) ^ 0x100b
  {
  }

  lemma DoubleKernel(x: bv16)
    requires Double(x) == 0
    ensures x == 0
  {
  }

  lemma XorIsZero(x: bv16, y: bv16)
    requires Xor(x, y) == 0
    ensures x == y
  {
  }

  lemma DoubleInjective(x: bv16, y: bv16)
    requires Double(x) == Double(y)
    ensures x == y
  {
    hide Double, Xor;
    DoubleXor(x, y);
    XorZero(Double(x));
    DoubleKernel(Xor(x, y));
    XorIsZero(x, y);
  }

  lemma DoubleZero()
    ensures Double(0) == 0
  {
  }

  // ----- doubling and the product, by their laws

  lemma {:induction false} DoubleNAdd(x: bv16, a: nat, b: nat)
    ensures DoubleN(x, a + b) == DoubleN(DoubleN(x, a), b)
  {
    hide Double;
    if b > 0 { DoubleNAdd(x, a, b - 1); }
  }

  lemma {:induction false} DoubleNInjective(x: bv16, y: bv16, n: nat)
    requires DoubleN(x, n) == DoubleN(y, n)
    ensures x == y
  {
    hide Double;
    if n > 0 {
      DoubleInjective(DoubleN(x, n - 1), DoubleN(y, n - 1));
      DoubleNInjective(x, y, n - 1);
    }
  }

  lemma {:induction false} ProductXorLeft(x: bv16, x': bv16, y: bv16, n: nat)
    ensures Product(Xor(x, x'), y, n) == Xor(Product(x, y, n), Product(x', y, n))
    decreases n
  {
    hide Double, Odd, Xor, Shr, Term;
    if n == 0 {
      XorZero(0);
    } else {
      ShrXor(x, x');
      OddXor(x, x');
      TermXor(Odd(x), Odd(x'), y);
      ProductXorLeft(Shr(x), Shr(x'), Double(y), n - 1);
      XorSwapInner(Term(Odd(x), y), Term(Odd(x'), y), Product(Shr(x), Double(y), n - 1), Product(Shr(x'), Double(y), n - 1));
    }
  }

  lemma DoubleTerm(b: bool, y: bv16)
    ensures Double(Term(b, y)) == Term(b, Double(y))
  {
    hide Double;
    DoubleZero();
  }

  lemma {:induction false} ProductDouble(x: bv16, y: bv16, n: nat)
    ensures Product(x, Double(y), n) == Double(Product(x, y, n))
    decreases n
  {
    hide Double, Odd, Xor, Shr, Term;
    if n == 0 {
      DoubleZero();
    } else {
      ProductDouble(Shr(x), Double(y), n - 1);
      DoubleTerm(Odd(x), y);
      DoubleXor(Term(Odd(x), y), Product(Shr(x), Double(y), n - 1));
    }
  }

  lemma {:induction false} ProductDoubleN(x: bv16, y: bv16, s: nat, n: nat)
    ensures Product(x, DoubleN(y, s), n) == DoubleN(Product(x, y, n), s)
  {
    hide Double, Product;
    if s > 0 {
      ProductDoubleN(x, y, s - 1, n);
      ProductDouble(x, DoubleN(y, s - 1), n);
    }
  }

  // ----- one is neutral

  /** 2^n - 1 */
  function Ones(n: nat): bv16 {
    if n == 0 then 0 else Xor(Shl1(Ones(n - 1)), 1)
  }

  lemma OnesSixteen()
    ensures Ones(16) == 0xffff
  {
    assert Ones(2) == 0x3;
    assert Ones(4) == 0xf;
    assert Ones(6) == 0x3f;
    assert Ones(8) == 0xff;
    assert Ones(10) == 0x3ff;
    assert Ones(12) == 0xfff;
    assert Ones(14) == 0x3fff;
  }

  lemma RawSplit(x: bv16)
    ensures (x >> 1) & 0x8000 == 0
    ensures x == (x & 1) ^ ((x >> 1) << 1)
    ensures x & 1 == 0 || x & 1 == 1
  {
  }

  lemma SplitLowBit(x: bv16)
    ensures x == Xor(Term(Odd(x), 1), Double(Shr(x)))
  {
    hide Double;
    RawSplit(x);
    DoubleCases(Shr(x));
  }

  lemma ShrBound(x: bv16, m: bv16)
    requires x <= Xor(Shl1(m), 1)
    ensures Shr(x) <= m
  {
  }

  lemma {:induction false} ProductOne(x: bv16, n: nat)
    requires x <= Ones(n)
    ensures Product(x, 1, n) == x
    decreases n
  {
    hide Double, Odd, Xor, Shr, Shl1, Term;
    if n > 0 {
      ShrBound(x, Ones(n - 1));
      ProductOne(Shr(x), n - 1);
      ProductDouble(Shr(x), 1, n - 1);
      SplitLowBit(x);
    }
  }

  // ----- powers of the generator

  lemma MulPower(x: bv16, n: nat)
    ensures GfMul(x, Power(n)) == DoubleN(x, n)
  {
    hide Double, Product;
    OnesSixteen();
    ProductOne(x, 16);
    ProductDoubleN(x, 1, n, 16);
  }

  lemma PowerAdd(m: nat, n: nat)
    ensures GfMul(Power(m), Power(n)) == Power(m + n)
  {
    hide Double, Product;
    MulPower(Power(m), n);
    DoubleNAdd(1, m, n);
  }

  /** Four steps of the product at once. */
  function Nibble(x: bv16, y: bv16): bv16 {
    Xor(Term(x & 1 == 1, y),
        Xor(Term(x & 2 == 2, Double(y)),
            Xor(Term(x & 4 == 4, Double(Double(y))), Term(x & 8 == 8, Double(Double(Double(y)))))))
  }

  lemma NibbleBits(x: bv16)
    ensures Odd(Shr(x)) == (x & 2 == 2)
    ensures Odd(Shr(Shr(x))) == (x & 4 == 4)
    ensures Odd(Shr(Shr(Shr(x)))) == (x & 8 == 8)
    ensures Shr(Shr(Shr(Shr(x)))) == x >> 4
  {
  }

  lemma ProductNibble(x: bv16, y: bv16, n: nat)
    requires n >= 4
    ensures Product(x, y, n) == Xor(Nibble(x, y), Product(x >> 4, Double(Double(Double(Double(y)))), n - 4))
  {
    hide Double, Shr, Xor, Term;
    NibbleBits(x);
    var y1, y2, y3 := Double(y), Double(Double(y)), Double(Double(Double(y)));
    var a, b, c, d := Term(x & 1 == 1, y), Term(x & 2 == 2, y1), Term(x & 4 == 4, y2), Term(x & 8 == 8, y3);
    var rest := Product(x >> 4, Double(y3), n - 4);
    assert Product(Shr(Shr(x)), y2, n - 2) == Xor(c, Xor(d, rest));
    assert Product(x, y, n) == Xor(a, Xor(b, Xor(c, Xor(d, rest))));
    XorAssoc(c, d, rest);
    XorAssoc(b, Xor(c, d), rest);
    XorAssoc(a, Xor(b, Xor(c, d)), rest);
  }

  function Double4(y: bv16): bv16 { Double(Double(Double(Double(y)))) }

  /** The product of x and y without recursion, to compute with. */
  function FourNibbles(x: bv16, y: bv16): bv16 {
    Xor(Nibble(x, y),
        Xor(Nibble(x >> 4, Double4(y)),
            Xor(Nibble(x >> 4 >> 4, Double4(Double4(y))),
                Nibble(x >> 4 >> 4 >> 4, Double4(Double4(Double4(y)))))))
  }

  lemma MulFourNibbles(x: bv16, y: bv16)
    ensures GfMul(x, y) == FourNibbles(x, y)
  {
    hide Double, Xor, Nibble, Product;
    ProductNibble(x, y, 16);
    ProductNibble(x >> 4, Double4(y), 12);
    ProductNibble(x >> 4 >> 4, Double4(Double4(y)), 8);
    ProductNibble(x >> 4 >> 4 >> 4, Double4(Double4(Double4(y))), 4);
    ProductNone(x >> 4 >> 4 >> 4 >> 4, Double4(Double4(Double4(Double4(y)))));
    XorZero(Nibble(x >> 4 >> 4 >> 4, Double4(Double4(Double4(y)))));
  }

  lemma ProductNone(x: bv16, y: bv16)
    ensures Product(x, y, 0) == 0
  {
  }

  lemma PowerProduct(m: nat, n: nat, x: bv16, y: bv16)
    requires Power(m) == x && Power(n) == y
    ensures Power(m + n) == FourNibbles(x, y)
  {
    hide Power, FourNibbles, GfMul;
    PowerAdd(m, n);
    MulFourNibbles(x, y);
  }

  lemma PowerTo64()
    ensures Power(64) == 0x5c24 && Power(1) == 2
  {
    hide Power;
    PowerSmall();
    assert Power(16) == 0x100b by { PowerProduct(8, 8, 0x100, 0x100); }
    assert Power(32) == 0x1bfe by { PowerProduct(16, 16, 0x100b, 0x100b); }
    assert Power(64) == 0x5c24 by { PowerProduct(32, 32, 0x1bfe, 0x1bfe); }
  }

  /** The powers of 2 that decide its order. */
  lemma PowerLow()
    ensures Power(257) == 0x165e && Power(256) == 0xb2f && Power(1) == 2
  {
    hide Power;
    PowerTo64();
    assert Power(128) == 0xe647 by { PowerProduct(64, 64, 0x5c24, 0x5c24); }
    assert Power(256) == 0xb2f by { PowerProduct(128, 128, 0xe647, 0xe647); }
    assert Power(257) == 0x165e by { PowerProduct(256, 1, 0xb2f, 0x2); }
  }

  lemma PowerTo1028()
    ensures Power(257) == 0x165e && Power(1028) == 0xa780
  {
    hide Power;
    PowerLow();
    assert Power(514) == 0x5a78 by { PowerProduct(257, 257, 0x165e, 0x165e); }
    assert Power(1028) == 0xa780 by { PowerProduct(514, 514, 0x5a78, 0x5a78); }
  }

  lemma PowerMiddle()
    ensures Power(4112) == 0xbe9 && Power(4369) == 0x1a
  {
    hide Power;
    PowerTo1028();
    assert Power(2056) == 0xe08a by { PowerProduct(1028, 1028, 0xa780, 0xa780); }
    assert Power(4112) == 0xbe9 by { PowerProduct(2056, 2056, 0xe08a, 0xe08a); }
    assert Power(4369) == 0x1a by { PowerProduct(4112, 257, 0xbe9, 0x165e); }
  }

  lemma PowerTo21845()
    ensures Power(17476) == 0x1b && Power(21845) == 0x15e
  {
    hide Power;
    PowerMiddle();
    assert Power(8738) == 0x144 by { PowerProduct(4369, 4369, 0x1a, 0x1a); }
    assert Power(17476) == 0x1b by { PowerProduct(8738, 8738, 0x144, 0x144); }
    assert Power(21845) == 0x15e by { PowerProduct(17476, 4369, 0x1b, 0x1a); }
  }

  lemma PowerTable()
    ensures Power(1) == 2 && Power(256) == 0xb2f
    ensures Power(257) == 0x165e && Power(4112) == 0xbe9
    ensures Power(4369) == 0x1a == Power(69904) && Power(17476) == 0x1b && Power(21845) == 0x15e
  {
    hide Power;
    PowerLow();
    PowerMiddle();
    PowerTo21845();
    assert Power(34952) == 0x145 by { PowerProduct(17476, 17476, 0x1b, 0x1b); }
    assert Power(69904) == 0x1a by { PowerProduct(34952, 34952, 0x145, 0x145); }
  }

  lemma PowerSmall()
    ensures Power(1) == 2 && Power(2) == 4 && Power(4) == 0x10 && Power(8) == 0x100
  {
    assert Power(2) == 4;
    assert Power(4) == 0x10;
    assert Power(6) == 0x40;
  }
}
