/** The field of 256 elements modulo 0x11d, inside the field of 65536 elements: its laws are those of the larger field. */
module GaloisByte {
  import opened Fields
  import opened Polynomials
  import opened Mds
  import opened Bytes
  import opened Galois16
  import opened GaloisField

  function DoubleByte(x: bv8): bv8 { (x << 1) ^ (if x & 0x80 == 0x80 then 0x1d else 0) }

  predicate OddByte(x: bv8) { x & 1 == 1 }
  function Half(x: bv8): bv8 { x >> 1 }

  /** The product of x, taken bit by bit, and y. */
  function ProductByte(x: bv8, y: bv8, n: nat): bv8
    decreases n
  {
    if n == 0 then 0 else XorByte(if OddByte(x) then y else 0, ProductByte(Half(x), DoubleByte(y), n - 1))
  }

  function ByteMul(x: bv8, y: bv8): bv8 { ProductByte(x, y, 8) }

  // ----- the embedding

  /** A root of the polynomial 0x11d. */
  const ROOT: bv16 := 0xe10b

  /** The polynomial whose first n coefficients are the bits of x, times c, at the root. */
  function Value(x: bv8, c: bv16, n: nat): bv16
    decreases n
  {
    if n == 0 then 0 else Xor(Term(OddByte(x), c), Value(Half(x), GfMul(ROOT, c), n - 1))
  }

  function Embed(x: bv8): bv16 { Value(x, 1, 8) }

  lemma RawHalves(x: bv8, y: bv8)
    ensures OddByte(XorByte(x, y)) <==> (OddByte(x)) != (OddByte(y))
    ensures Half(XorByte(x, y)) == XorByte(Half(x), Half(y))
  {
  }

  lemma {:induction false} ValueXor(x: bv8, y: bv8, c: bv16, n: nat)
    ensures Value(XorByte(x, y), c, n) == Xor(Value(x, c, n), Value(y, c, n))
    decreases n
  {
    hide Xor, XorByte, GfMul, Term;
    if n == 0 {
      XorZero(0);
    } else {
      RawHalves(x, y);
      var d := GfMul(ROOT, c);
      ValueXor(Half(x), Half(y), d, n - 1);
      TermXor(OddByte(x), OddByte(y), c);
      XorSwapInner(Term(OddByte(x), c), Term(OddByte(y), c), Value(Half(x), d, n - 1), Value(Half(y), d, n - 1));
    }
  }

  lemma MulTerm(d: bv16, b: bool, c: bv16)
    ensures GfMul(d, Term(b, c)) == Term(b, GfMul(d, c))
  {
    hide GfMul;
    GfMulZero(d);
  }

  lemma MulSwap(c: bv16, d: bv16)
    ensures GfMul(d, GfMul(ROOT, c)) == GfMul(ROOT, GfMul(d, c))
  {
    hide GfMul;
    GfMulAssoc(d, ROOT, c);
    GfMulComm(d, ROOT);
    GfMulAssoc(ROOT, d, c);
  }

  lemma {:induction false} ValueMul(x: bv8, c: bv16, d: bv16, n: nat)
    ensures GfMul(d, Value(x, c, n)) == Value(x, GfMul(d, c), n)
    decreases n
  {
    hide Xor, GfMul, Term;
    if n == 0 {
      GfMulZero(d);
    } else {
      ValueMul(Half(x), GfMul(ROOT, c), d, n - 1);
      MulSwap(c, d);
      MulTerm(d, OddByte(x), c);
      GfDistrib(d, Term(OddByte(x), c), Value(Half(x), GfMul(ROOT, c), n - 1));
    }
  }

  lemma EmbedXor(x: bv8, y: bv8)
    ensures Embed(XorByte(x, y)) == Xor(Embed(x), Embed(y))
  {
    hide Value, XorByte, Xor;
    ValueXor(x, y, 1, 8);
  }

  /** Multiplying by the root takes each power to the next one. */
  lemma NextPower(c: bv16, d: bv16)
    requires FourNibbles(ROOT, c) == d
    ensures GfMul(ROOT, c) == d
  {
    hide FourNibbles, GfMul;
    MulFourNibbles(ROOT, c);
  }

  lemma RootPowers()
    ensures GfMul(ROOT, 1) == 0xe10b && GfMul(ROOT, 0xe10b) == 0x5be3 && GfMul(ROOT, 0x5be3) == 0xfdf9
    ensures GfMul(ROOT, 0xfdf9) == 0xf6ce && GfMul(ROOT, 0xf6ce) == 0xfd3d && GfMul(ROOT, 0xfd3d) == 0x470b
    ensures GfMul(ROOT, 0x470b) == 0x0a72 && GfMul(ROOT, 0x0a72) == 0x50d5
  {
    hide GfMul;
    NextPower(1, 0xe10b);
    NextPower(0xe10b, 0x5be3);
    NextPower(0x5be3, 0xfdf9);
    NextPower(0xfdf9, 0xf6ce);
    NextPower(0xf6ce, 0xfd3d);
    NextPower(0xfd3d, 0x470b);
    NextPower(0x470b, 0x0a72);
    NextPower(0x0a72, 0x50d5);
  }

  /** The value of eight bits, with the powers of the root as numbers. */
  function Combined(a: bool, b: bool, c: bool, d: bool, e: bool, f: bool, g: bool, h: bool): bv16 {
    Xor(Term(a, 1), Xor(Term(b, 0xe10b), Xor(Term(c, 0x5be3), Xor(Term(d, 0xfdf9),
      Xor(Term(e, 0xf6ce), Xor(Term(f, 0xfd3d), Xor(Term(g, 0x470b), Term(h, 0x0a72))))))))
  }

  lemma EmbedIs(x: bv8)
    ensures Embed(x) == Combined(OddByte(x), OddByte(Half(x)), OddByte(Half(Half(x))), OddByte(Half(Half(Half(x)))),
      OddByte(Half(Half(Half(Half(x))))), OddByte(Half(Half(Half(Half(Half(x)))))), OddByte(Half(Half(Half(Half(Half(Half(x))))))),
      OddByte(Half(Half(Half(Half(Half(Half(Half(x)))))))))
  {
    hide Xor, GfMul, Term;
    RootPowers();
    var x4 := Half(Half(Half(Half(x))));
    var h := Term(OddByte(Half(Half(Half(x4)))), 0x0a72);
    XorZero(h);
    assert Value(Half(Half(Half(x4))), 0x0a72, 1) == h;
    assert Value(Half(Half(x4)), 0x470b, 2) == Xor(Term(OddByte(Half(Half(x4))), 0x470b), h);
    assert Value(x4, 0xf6ce, 4) == Xor(Term(OddByte(x4), 0xf6ce), Xor(Term(OddByte(Half(x4)), 0xfd3d), Value(Half(Half(x4)), 0x470b, 2)));
    assert Value(Half(Half(x)), 0x5be3, 6) == Xor(Term(OddByte(Half(Half(x))), 0x5be3), Xor(Term(OddByte(Half(Half(Half(x)))), 0xfdf9), Value(x4, 0xf6ce, 4)));
  }

  lemma CombinedKernel(a: bool, b: bool, c: bool, d: bool, e: bool, f: bool, g: bool, h: bool)
    requires Combined(a, b, c, d, e, f, g, h) == 0
    ensures !a && !b && !c && !d && !e && !f && !g && !h
  {
  }

  lemma NoBits(x: bv8)
    requires !OddByte(x) && !OddByte(Half(x)) && !OddByte(Half(Half(x))) && !OddByte(Half(Half(Half(x))))
    requires !OddByte(Half(Half(Half(Half(x))))) && !OddByte(Half(Half(Half(Half(Half(x)))))) && !OddByte(Half(Half(Half(Half(Half(Half(x)))))))
    requires !OddByte(Half(Half(Half(Half(Half(Half(Half(x))))))))
    ensures x == 0
  {
  }

  lemma EmbedKernel(x: bv8)
    requires Embed(x) == 0
    ensures x == 0
  {
    hide Embed, Combined;
    EmbedIs(x);
    CombinedKernel(OddByte(x), OddByte(Half(x)), OddByte(Half(Half(x))), OddByte(Half(Half(Half(x)))),
      OddByte(Half(Half(Half(Half(x))))), OddByte(Half(Half(Half(Half(Half(x)))))), OddByte(Half(Half(Half(Half(Half(Half(x))))))),
      OddByte(Half(Half(Half(Half(Half(Half(Half(x)))))))));
    NoBits(x);
  }

  lemma SameByte(x: bv8, y: bv8)
    requires XorByte(x, y) == 0
    ensures x == y
  {
  }

  lemma EmbedInjective(x: bv8, y: bv8)
    requires Embed(x) == Embed(y)
    ensures x == y
  {
    hide Embed, XorByte, Xor;
    EmbedXor(x, y);
    XorZero(Embed(x));
    EmbedKernel(XorByte(x, y));
    SameByte(x, y);
  }

  lemma EmbedSmall()
    ensures Embed(0) == 0 && Embed(1) == 1 && Embed(2) == ROOT && Embed(0x80) == 0x0a72 && Embed(0x1d) == 0x50d5
  {
    hide Embed;
    EmbedIs(0);
    EmbedIs(1);
    EmbedIs(2);
    EmbedIs(0x80);
    EmbedIs(0x1d);
  }

  /** x has no bits from n on. */
  predicate Fits(x: bv8, n: nat) {
    if n == 0 then x == 0 else Fits(Half(x), n - 1)
  }

  lemma RawShifts(x: bv8)
    ensures Half(Half(Half(Half(Half(Half(Half(Half(x)))))))) == 0
    ensures Half(Half(Half(Half(Half(Half(Half((x & 0x7f)))))))) == 0
  {
  }

  lemma FitsSeven(x: bv8)
    requires Half(Half(Half(Half(Half(Half(Half(x))))))) == 0
    ensures Fits(x, 7)
  {
    var x3 := Half(Half(Half(x)));
    assert Fits(Half(Half(x3)), 2);
    assert Fits(x3, 4);
    assert Fits(Half(x), 6);
  }

  lemma FitsEight(x: bv8)
    ensures Fits(x, 8)
  {
    RawShifts(x);
    FitsSeven(Half(x));
  }

  lemma {:induction false} ValueFits(x: bv8, c: bv16, n: nat)
    requires Fits(x, n)
    ensures Value(x, c, n + 1) == Value(x, c, n)
    decreases n
  {
    hide Xor, GfMul;
    if n == 0 {
      XorZero(0);
      assert !OddByte(x);
    } else {
      ValueFits(Half(x), GfMul(ROOT, c), n - 1);
    }
  }

  lemma RawDouble(x: bv8)
    ensures x == XorByte(x & 0x7f, if x & 0x80 == 0x80 then 0x80 else 0)
    ensures DoubleByte(x) == XorByte((x & 0x7f) << 1, if x & 0x80 == 0x80 then 0x1d else 0)
    ensures !OddByte((x & 0x7f) << 1) && Half((x & 0x7f) << 1) == x & 0x7f
  {
  }

  lemma EmbedShift(x: bv8)
    requires Fits(x, 7) && !OddByte(x << 1) && Half(x << 1) == x
    ensures Embed(x << 1) == GfMul(ROOT, Embed(x))
  {
    hide Xor, GfMul, Fits;
    var c := GfMul(ROOT, 1);
    ValueMul(x, 1, ROOT, 8);
    ValueFits(x, c, 7);
    XorZero(Value(x, c, 7));
    assert Value(x << 1, 1, 8) == Xor(0, Value(x, c, 7));
  }

  /** Doubling a byte is multiplying by the root. */
  lemma EmbedDouble(x: bv8)
    ensures Embed(DoubleByte(x)) == GfMul(ROOT, Embed(x))
  {
    hide Embed, DoubleByte, GfMul, Xor, XorByte, Fits;
    RawDouble(x);
    RawShifts(x);
    var z, top, carry := x & 0x7f, if x & 0x80 == 0x80 then 0x80 else 0, if x & 0x80 == 0x80 then 0x1d else 0;
    FitsSeven(z);
    EmbedShift(z);
    EmbedXor(z << 1, carry);
    EmbedXor(z, top);
    GfDistrib(ROOT, Embed(z), Embed(top));
    EmbedSmall();
    RootPowers();
    GfMulZero(ROOT);
  }

  lemma LowBit(x: bv8)
    ensures x == XorByte(if OddByte(x) then 1 else 0, DoubleByte(Half(x)))
  {
  }

  lemma {:induction false} EmbedProduct(x: bv8, y: bv8, n: nat)
    requires Fits(x, n)
    ensures Embed(ProductByte(x, y, n)) == GfMul(Embed(x), Embed(y))
    decreases n
  {
    hide Embed, DoubleByte, XorByte, Xor, GfMul;
    EmbedSmall();
    if n == 0 {
      GfMulZero(Embed(y));
    } else {
      var h, low := Half(x), if OddByte(x) then 1 else 0;
      EmbedProduct(h, DoubleByte(y), n - 1);
      EmbedDouble(y);
      LowBit(x);
      EmbedXor(low, DoubleByte(h));
      EmbedDouble(h);
      EmbedXor(if OddByte(x) then y else 0, ProductByte(h, DoubleByte(y), n - 1));
      StepProduct(Embed(low), Embed(h), Embed(y));
      GfMulOne(Embed(y));
      GfMulZero(Embed(y));
    }
  }

  lemma StepProduct(low: bv16, h: bv16, y: bv16)
    ensures GfMul(Xor(low, GfMul(ROOT, h)), y) == Xor(GfMul(low, y), GfMul(h, GfMul(ROOT, y)))
  {
    hide Xor, GfMul;
    GfMulComm(Xor(low, GfMul(ROOT, h)), y);
    GfDistrib(y, low, GfMul(ROOT, h));
    GfMulComm(y, low);
    GfMulComm(y, GfMul(ROOT, h));
    GfMulComm(ROOT, h);
    GfMulAssoc(h, ROOT, y);
  }

  /** The embedding takes products to products. */
  lemma EmbedMul(x: bv8, y: bv8)
    ensures Embed(ByteMul(x, y)) == GfMul(Embed(x), Embed(y))
  {
    hide Embed, Fits, GfMul;
    FitsEight(x);
    EmbedProduct(x, y, 8);
  }

  // ----- inverses

  /** Different bytes are at most 256. */
  lemma ByteCount(s: seq<bv8>)
    requires Distinct(s)
    ensures |s| <= 256
  {
    hide ByteKey;
    var t: seq<nat> := seq(|s|, i requires 0 <= i < |s| => ByteKey(s[i]));
    forall i, j | 0 <= i < j < |t| ensures t[i] != t[j] {
      if t[i] == t[j] { ByteKeyInjective(s[i], s[j]); }
    }
    DistinctBelow(t, 256);
  }

  lemma CancelByte(x: bv8, y: bv8, z: bv8)
    requires x != 0 && ByteMul(x, y) == ByteMul(x, z)
    ensures y == z
  {
    hide Embed, ByteMul, GfMul, GfInv;
    EmbedMul(x, y);
    EmbedMul(x, z);
    EmbedSmall();
    if Embed(x) == 0 { EmbedInjective(x, 0); }
    CancelWord(Embed(x), Embed(y));
    CancelWord(Embed(x), Embed(z));
    EmbedInjective(y, z);
  }

  lemma CancelWord(x: bv16, y: bv16)
    requires x != 0
    ensures GfMul(GfInv(x), GfMul(x, y)) == y
  {
    hide GfMul, GfInv;
    GfMulAssoc(GfInv(x), x, y);
    GfMulComm(GfInv(x), x);
    MulInverse(x);
    GfMulOne(y);
  }

  /** The 256 multiples of a nonzero byte are different, so that one of them is 1. */
  lemma SomeInverse(x: bv8)
    requires x != 0
    ensures exists y :: ByteMul(x, y) == 1
  {
    hide ByteMul;
    if forall y :: ByteMul(x, y) != 1 {
      var s := seq(257, i requires 0 <= i < 257 => if i < 256 then ByteMul(x, i as bv8) else 1);
      forall i, j | 0 <= i < j < 257 ensures s[i] != s[j] {
        if j < 256 && s[i] == s[j] {
          CancelByte(x, i as bv8, j as bv8);
          ByteKeyOf(i);
          ByteKeyOf(j);
        }
      }
      ByteCount(s);
    }
  }

  ghost function ByteInv(x: bv8): (y: bv8)
    ensures x != 0 ==> ByteMul(x, y) == 1
  {
    if x == 0 then 0
    else
      SomeInverse(x);
      var y :| ByteMul(x, y) == 1; y
  }

  // ----- the field

  ghost function ByteField(): Field<bv8> {
    Field(0, 1, (x, y) => XorByte(x, y), (x, y) => ByteMul(x, y), x => ByteInv(x))
  }

  lemma ByteMulComm(x: bv8, y: bv8)
    ensures ByteMul(x, y) == ByteMul(y, x)
  {
    hide Embed, ByteMul, GfMul;
    EmbedMul(x, y);
    EmbedMul(y, x);
    GfMulComm(Embed(x), Embed(y));
    EmbedInjective(ByteMul(x, y), ByteMul(y, x));
  }

  lemma ByteMulAssoc(x: bv8, y: bv8, z: bv8)
    ensures ByteMul(ByteMul(x, y), z) == ByteMul(x, ByteMul(y, z))
  {
    hide Embed, ByteMul, GfMul;
    EmbedMul(x, y);
    EmbedMul(ByteMul(x, y), z);
    EmbedMul(y, z);
    EmbedMul(x, ByteMul(y, z));
    GfMulAssoc(Embed(x), Embed(y), Embed(z));
    EmbedInjective(ByteMul(ByteMul(x, y), z), ByteMul(x, ByteMul(y, z)));
  }

  lemma ByteDistrib(x: bv8, y: bv8, z: bv8)
    ensures ByteMul(x, XorByte(y, z)) == XorByte(ByteMul(x, y), ByteMul(x, z))
  {
    hide Embed, ByteMul, GfMul, XorByte, Xor;
    EmbedMul(x, XorByte(y, z));
    EmbedXor(y, z);
    EmbedMul(x, y);
    EmbedMul(x, z);
    EmbedXor(ByteMul(x, y), ByteMul(x, z));
    GfDistrib(Embed(x), Embed(y), Embed(z));
    EmbedInjective(ByteMul(x, XorByte(y, z)), XorByte(ByteMul(x, y), ByteMul(x, z)));
  }

  lemma ByteUnits(x: bv8)
    ensures ByteMul(1, x) == x && ByteMul(0, x) == 0
  {
    hide Embed, ByteMul, GfMul;
    EmbedSmall();
    EmbedMul(1, x);
    EmbedMul(0, x);
    GfMulOne(Embed(x));
    GfMulZero(Embed(x));
    EmbedInjective(ByteMul(1, x), x);
    EmbedInjective(ByteMul(0, x), 0);
  }

  lemma ByteFieldIsField()
    ensures IsField(ByteField())
  {
    hide XorByte, ByteMul, ByteInv;
    forall x, y, z ensures ByteField().AddLaws(x, y, z) && ByteField().MulLaws(x, y, z) {
      XorByteComm(x, y);
      XorByteAssoc(x, y, z);
      XorByteZero(x);
      ByteMulComm(x, y);
      ByteMulAssoc(x, y, z);
      ByteUnits(x);
      ByteDistrib(x, y, z);
    }
  }

  // ----- the order of 2

  lemma PowersTowardsRoot()
    ensures Power(1799) == 0xb045 && Power(4112) == 0x0be9
  {
    hide Power;
    PowerTo1028();
    PowerMiddle();
    assert Power(514) == 0x5a78 by { PowerProduct(257, 257, 0x165e, 0x165e); }
    assert Power(771) == 0x0a68 by { PowerProduct(514, 257, 0x5a78, 0x165e); }
    assert Power(1799) == 0xb045 by { PowerProduct(1028, 771, 0xa780, 0x0a68); }
  }

  /** The root is a power of the generator of the larger field; 5911 == 23 * 257. */
  lemma RootIsPower()
    ensures Power(5911) == ROOT
  {
    hide Power;
    PowersTowardsRoot();
    assert Power(5911) == 0xe10b by { PowerProduct(4112, 1799, 0x0be9, 0xb045); }
  }

  lemma {:induction false} EmbedPow(i: nat)
    ensures Embed(Pow(ByteField(), 2, i)) == Power(5911 * i)
  {
    hide Embed, Power, ByteMul, XorByte, ByteInv, GfMul;
    EmbedSmall();
    if i == 0 {
      PowerZero();
    } else {
      var p := Pow(ByteField(), 2, i - 1);
      EmbedPow(i - 1);
      EmbedMul(p, 2);
      RootIsPower();
      PowerAdd(5911 * (i - 1), 5911);
    }
  }

  /** A multiple of 5911 is a period only if the factor is a multiple of 255. */
  lemma NoPeriod(d: nat)
    requires 0 < d < 255
    ensures !Period(5911 * d)
  {
    hide Power, Period;
    var c, r := 23 * d / 255, 23 * d % 255;
    assert 23 * d == 255 * c + r && 0 < r < 255;
    KnownNonPeriods();
    PeriodMultiple(65535, c);
    PeriodSum(257 * r, c * 65535);
    assert 257 * r + c * 65535 == 5911 * d;
    NoShortPeriod(257 * r);
  }

  lemma PowersOfTwo(i: nat, j: nat)
    requires i < j < i + 255
    ensures Pow(ByteField(), 2, i) != Pow(ByteField(), 2, j)
  {
    hide Embed, Power, Pow, Period;
    EmbedPow(i);
    EmbedPow(j);
    NoPeriod(j - i);
    assert 5911 * j == 5911 * (j - i) + 5911 * i;
    PowerCancel(5911 * (j - i), 5911 * i);
  }

  lemma OrderOfTwo()
    ensures Pow(ByteField(), 2, 255) == 1
  {
    hide Embed, Power, Pow;
    EmbedPow(255);
    KnownNonPeriods();
    PeriodMultiple(65535, 23);
    EmbedSmall();
    EmbedInjective(Pow(ByteField(), 2, 255), 1);
  }
}
