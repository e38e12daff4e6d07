/** The generator 2 has order 65535, so its powers are the nonzero elements and GF(2^16) is a field. */
module GaloisField {
  import opened Fields
  import opened Galois16
  import opened Mds

  const FIELD_SIZE: nat := 65536
  const GROUP_SIZE: nat := 65535

  /** 2^n == 1 */
  ghost predicate Period(n: nat) { Power(n) == 1 }

  lemma PowerShift(m: nat, n: nat)
    ensures Power(m + n) == DoubleN(Power(m), n)
  {
    hide Double;
    DoubleNAdd(1, m, n);
  }

  lemma PowerCancel(m: nat, n: nat)
    ensures Power(m + n) == Power(n) <==> Period(m)
  {
    hide Double, DoubleN;
    PowerShift(m, n);
    PowerShift(0, n);
    assert Power(0) == 1 by { PowerZero(); }
    if Power(m + n) == Power(n) { DoubleNInjective(Power(m), 1, n); }
  }

  lemma PowerZero()
    ensures Power(0) == 1
  {
  }

  lemma PeriodSum(m: nat, n: nat)
    requires Period(n)
    ensures Period(m + n) <==> Period(m)
  {
    hide Power;
    PowerCancel(m, n);
  }

  lemma {:induction false} PeriodMultiple(m: nat, c: nat)
    requires Period(m)
    ensures Period(c * m)
  {
    hide Power;
    if c == 0 {
      PowerZero();
    } else {
      PeriodMultiple(m, c - 1);
      PeriodSum((c - 1) * m, m);
    }
  }

  /** The periods are closed under the greatest common divisor. */
  lemma {:induction false} PeriodGcd(a: nat, b: nat) returns (g: nat, x: nat, y: nat)
    requires a > 0 && Period(a) && Period(b)
    ensures g > 0 && Period(g) && a == g * x && b == g * y
    decreases a + b
  {
    hide Power;
    if b == 0 {
      g, x, y := a, 1, 0;
    } else if b >= a {
      PeriodSum(b - a, a);
      g, x, y := PeriodGcd(a, b - a);
      y := x + y;
    } else {
      PeriodSum(a - b, b);
      g, x, y := PeriodGcd(a - b, b);
      x := x + y;
    }
  }

  /** g is the greatest common divisor of a and b, with its Bezout coefficients. */
  lemma {:induction false} Bezout(a: nat, b: nat) returns (g: nat, u: int, v: int, x: nat, y: nat)
    requires a > 0
    ensures g > 0 && u * a + v * b == g && a == g * x && b == g * y
    decreases a + b
  {
    if b == 0 {
      g, u, v, x, y := a, 1, 0, 1, 0;
    } else if b >= a {
      g, u, v, x, y := Bezout(a, b - a);
      u, y := u - v, x + y;
    } else {
      g, u, v, x, y := Bezout(a - b, b);
      v, x := v - u, x + y;
    }
  }

  ghost predicate OrderPrime(p: nat) { p == 3 || p == 5 || p == 17 || p == 257 }

  lemma SmallFactor(p: nat, x: nat, y: nat)
    requires OrderPrime(p) && x * y == p && x <= 16
    ensures x == 1 || y == 1
  {
    if x == 0 {} else if x == 2 {} else if x == 3 {} else if x == 4 {} else if x == 5 {} else if x == 6 {}
    else if x == 7 {} else if x == 8 {} else if x == 9 {} else if x == 10 {} else if x == 11 {}
    else if x == 12 {} else if x == 13 {} else if x == 14 {} else if x == 15 {} else if x == 16 {}
  }

  lemma ProductAbove(x: nat, y: nat)
    requires x >= 17 && y >= 17
    ensures x * y >= 289
  {
  }

  lemma IsPrime(p: nat, x: nat, y: nat)
    requires OrderPrime(p) && x * y == p
    ensures x == 1 || y == 1
  {
    if x <= 16 {
      SmallFactor(p, x, y);
    } else if y <= 16 {
      SmallFactor(p, y, x);
    } else {
      ProductAbove(x, y);
    }
  }

  /** A prime that divides e*g divides e or g. */
  lemma Euclid(p: nat, e: nat, g: nat, n: nat) returns (inE: bool, c: int)
    requires OrderPrime(p) && e > 0 && e * g == p * n
    ensures if inE then e == p * c else g == p * c
  {
    var d, u, v, x, y := Bezout(e, p);
    IsPrime(p, d, y);
    if y == 1 {
      inE, c := true, x;
    } else {
      inE, c := false, u * n + v * g;
      calc {
        g;
        (u * e + v * p) * g;
        u * (e * g) + p * (v * g);
        u * (p * n) + p * (v * g);
        p * (u * n + v * g);
      }
    }
  }

  lemma KnownNonPeriods()
    ensures !Period(255) && !Period(3855) && !Period(13107) && !Period(21845)
    ensures Period(65535)
  {
    hide Power;
    PowerTable();
    PowerCancel(255, 1);
    PowerCancel(3855, 257);
    PowerCancel(65535, 4369);
    PowerCancel(13107, 4369);
  }

  lemma DivisorPeriod(g: nat, c: nat, n: nat)
    requires Period(g) && g * c == n
    ensures Period(n)
  {
    hide Power;
    PeriodMultiple(g, c);
  }

  /** No proper divisor of 65535 = 3*5*17*257 is a period: one of the four maximal ones would be. */
  lemma NoDivisorPeriod(g: nat, e: nat)
    requires g * e == 65535 && e > 1
    ensures !Period(g)
  {
    hide Power;
    KnownNonPeriods();
    if Period(g) {
      var b, c := Euclid(3, e, g, 21845);
      if b { DivisorPeriod(g, c, 21845); assert false; }
      var g1 := c;
      var b1, c1 := Euclid(5, e, g1, 4369);
      if b1 { DivisorPeriod(g, c1, 13107); assert false; }
      var g2 := c1;
      var b2, c2 := Euclid(17, e, g2, 257);
      if b2 { DivisorPeriod(g, c2, 3855); assert false; }
      IsPrime(257, e, c2);
    }
  }

  lemma LargerCofactor(g: nat, x: nat, y: nat)
    requires 0 < g * x < g * y
    ensures y > 1
  {
    assert g * x == g + g * (x - 1);
  }

  lemma NoShortPeriod(n: nat)
    requires 0 < n < GROUP_SIZE
    ensures !Period(n)
  {
    hide Power;
    if Period(n) {
      KnownNonPeriods();
      var g, x, y := PeriodGcd(n, GROUP_SIZE);
      LargerCofactor(g, x, y);
      NoDivisorPeriod(g, y);
    }
  }

  lemma PowersDistinct(i: nat, j: nat)
    requires i < j < GROUP_SIZE
    ensures Power(i) != Power(j)
  {
    hide Power;
    PowerCancel(j - i, i);
    NoShortPeriod(j - i);
  }

  lemma PowerNonzero(n: nat)
    ensures Power(n) != 0
  {
    hide Double;
    if Power(n) == 0 {
      ZeroDoubled(n);
      DoubleNInjective(1, 0, n);
    }
  }

  lemma {:induction false} ZeroDoubled(n: nat)
    ensures DoubleN(0, n) == 0
  {
    hide Double;
    DoubleZero();
    if n > 0 { ZeroDoubled(n - 1); }
  }

  /** The value as an array index. */
  function Key(x: bv16): (k: nat)
    ensures k < FIELD_SIZE
  {
    x as nat
  }

  lemma KeyInjective(x: bv16, y: bv16)
    requires Key(x) == Key(y)
    ensures x == y
  {
    assert (x as nat) as bv16 == x;
    assert (y as nat) as bv16 == y;
  }

  lemma KeyNonzero(x: bv16)
    requires x != 0
    ensures Key(x) != 0
  {
    if Key(x) == Key(0) { KeyInjective(x, 0); }
  }

  /** Distinct nonzero 16-bit values are at most 65535. */
  lemma NonzeroCount(s: seq<bv16>)
    requires Distinct(s) && forall i :: 0 <= i < |s| ==> s[i] != 0
    ensures |s| <= GROUP_SIZE
  {
    hide Key;
    var t: seq<nat> := seq(|s|, i requires 0 <= i < |s| => Key(s[i]));
    forall i, j | 0 <= i < j < |t| ensures t[i] != t[j] {
      if t[i] == t[j] { KeyInjective(s[i], s[j]); }
    }
    DistinctCard(t);
    var range := UpTo(FIELD_SIZE) - {0};
    forall x | x in (set i | 0 <= i < |t| :: t[i]) ensures x in range {
      var i :| 0 <= i < |t| && t[i] == x;
      KeyNonzero(s[i]);
    }
    SubsetCard(set i | 0 <= i < |t| :: t[i], range);
  }

  /** The powers of 2 below 65535 are all the nonzero values. */
  lemma EveryNonzeroIsPower(x: bv16)
    requires x != 0
    ensures exists i: nat :: i < GROUP_SIZE && Power(i) == x
  {
    hide Power;
    if forall i: nat :: i < GROUP_SIZE ==> Power(i) != x {
      var s := seq(FIELD_SIZE, i requires 0 <= i < FIELD_SIZE => if i < GROUP_SIZE then Power(i) else x);
      forall i, j | 0 <= i < j < |s| ensures s[i] != s[j] {
        if j < GROUP_SIZE { PowersDistinct(i, j); }
      }
      forall i | 0 <= i < |s| ensures s[i] != 0 { PowerNonzero(i); }
      NonzeroCount(s);
    }
  }

  lemma SubsetSameCard<T>(a: set<T>, b: set<T>)
    requires a <= b && |a| == |b|
    ensures a == b
  {
    assert |b - a| == |b| - |a|;
  }

  /** All 65536 words: the powers of 2, then 0. */
  ghost function Word(n: nat): bv16 {
    if n < GROUP_SIZE then Power(n) else 0
  }

  lemma WordKeysDiffer(a: nat, b: nat)
    requires a < b < FIELD_SIZE
    ensures Key(Word(a)) != Key(Word(b))
  {
    hide Power, Key;
    if b < GROUP_SIZE { PowersDistinct(a, b); } else { PowerNonzero(a); }
    if Key(Word(a)) == Key(Word(b)) { KeyInjective(Word(a), Word(b)); }
  }

  lemma KeyIsOnto(i: nat)
    requires i < FIELD_SIZE
    ensures exists n: nat :: n < FIELD_SIZE && Key(Word(n)) == i
  {
    hide Word, Key, UpTo;
    var t: seq<nat> := seq(FIELD_SIZE, n requires 0 <= n < FIELD_SIZE => Key(Word(n)));
    forall a, b | 0 <= a < b < |t| ensures t[a] != t[b] { WordKeysDiffer(a, b); }
    DistinctCard(t);
    var image := set n | 0 <= n < |t| :: t[n];
    assert image <= UpTo(FIELD_SIZE);
    SubsetSameCard(image, UpTo(FIELD_SIZE));
    assert i in image;
    var n :| 0 <= n < |t| && t[n] == i;
    assert Key(Word(n)) == i;
  }

  /** Every number below 65536 is the key of the word it converts to: the keys of all words are 65536 different numbers. */
  lemma KeyOfNumber(i: nat)
    requires i < FIELD_SIZE
    ensures Key(i as bv16) == i
  {
    hide Key, Word;
    KeyIsOnto(i);
    var n: nat :| n < FIELD_SIZE && Key(Word(n)) == i;
    KeyBack(Word(n));
  }

  lemma KeyBack(x: bv16)
    ensures Key(x) as bv16 == x
  {
  }

  /** The exponent of x. */
  ghost function Log(x: bv16): (i: nat)
    requires x != 0
    ensures i < GROUP_SIZE && Power(i) == x
  {
    EveryNonzeroIsPower(x);
    var i: nat :| i < GROUP_SIZE && Power(i) == x;
    i
  }

  function GfPow(x: bv16, n: nat): bv16 {
    if n == 0 then 1 else GfMul(GfPow(x, n - 1), x)
  }

  /** The inverse of x, as its power 2^16 - 2. */
  function GfInv(x: bv16): bv16 { GfPow(x, 65534) }

  lemma {:induction false} GfPowPower(i: nat, n: nat)
    ensures GfPow(Power(i), n) == Power(n * i)
  {
    hide Power, GfMul;
    if n == 0 {
      PowerZero();
    } else {
      GfPowPower(i, n - 1);
      PowerAdd((n - 1) * i, i);
    }
  }

  lemma MulInverse(x: bv16)
    requires x != 0
    ensures GfMul(x, GfInv(x)) == 1
  {
    hide Power, GfMul, GfPow;
    var i := Log(x);
    GfPowPower(i, 65534);
    PowerAdd(i, 65534 * i);
    KnownNonPeriods();
    PeriodMultiple(GROUP_SIZE, i);
  }

  lemma {:induction false} ProductZero(x: bv16, n: nat)
    ensures Product(0, x, n) == 0 == Product(x, 0, n)
    decreases n
  {
    hide Double, Odd, Xor, Shr;
    if n > 0 {
      ShrZero();
      DoubleZero();
      XorZero(0);
      ProductZero(Double(x), n - 1);
      ProductZero(Shr(x), n - 1);
    }
  }

  lemma ShrZero()
    ensures Shr(0) == 0 && !Odd(0)
  {
  }

  lemma GfMulComm(x: bv16, y: bv16)
    ensures GfMul(x, y) == GfMul(y, x)
  {
    hide Power, Product;
    if x == 0 || y == 0 {
      ProductZero(x, 16);
      ProductZero(y, 16);
    } else {
      PowerAdd(Log(x), Log(y));
      PowerAdd(Log(y), Log(x));
    }
  }

  lemma GfMulAssoc(x: bv16, y: bv16, z: bv16)
    ensures GfMul(GfMul(x, y), z) == GfMul(x, GfMul(y, z))
  {
    hide Power, Product;
    if x == 0 || y == 0 || z == 0 {
      ProductZero(x, 16);
      ProductZero(y, 16);
      ProductZero(z, 16);
      ProductZero(GfMul(x, y), 16);
      ProductZero(GfMul(y, z), 16);
    } else {
      PowerAdd(Log(x), Log(y));
      PowerAdd(Log(y), Log(z));
      PowerAdd(Log(x) + Log(y), Log(z));
      PowerAdd(Log(x), Log(y) + Log(z));
    }
  }

  lemma GfMulOne(x: bv16)
    ensures GfMul(x, 1) == x == GfMul(1, x)
  {
    hide Power, Product, DoubleN;
    GfMulComm(x, 1);
    PowerZero();
    MulPower(x, 0);
    DoubleNNone(x);
  }

  lemma DoubleNNone(x: bv16)
    ensures DoubleN(x, 0) == x
  {
  }

  lemma GfDistrib(x: bv16, y: bv16, z: bv16)
    ensures GfMul(x, Xor(y, z)) == Xor(GfMul(x, y), GfMul(x, z))
  {
    hide Xor, Product;
    GfMulComm(x, Xor(y, z));
    GfMulComm(x, y);
    GfMulComm(x, z);
    ProductXorLeft(y, z, x, 16);
  }

  /** GF(2^16) with the operations of this code. */
  function Gf16(): Field<bv16> {
    Field(0, 1, Xor, GfMul, GfInv)
  }

  lemma Gf16IsField()
    ensures IsField(Gf16())
  {
    hide Xor, GfMul, GfInv;
    forall x, y, z ensures Gf16().AddLaws(x, y, z) && Gf16().MulLaws(x, y, z) {
      Gf16Adds(x, y, z);
      Gf16Multiplies(x, y, z);
    }
  }

  lemma Gf16Adds(x: bv16, y: bv16, z: bv16)
    ensures Gf16().AddLaws(x, y, z)
  {
    hide Xor, GfMul, GfInv;
    XorComm(x, y);
    XorAssoc(x, y, z);
    XorZero(x);
  }

  lemma Gf16Multiplies(x: bv16, y: bv16, z: bv16)
    ensures Gf16().MulLaws(x, y, z)
  {
    hide Xor, GfMul, GfInv;
    GfMulComm(x, y);
    GfMulAssoc(x, y, z);
    GfMulOne(x);
    GfMulZero(x);
    GfDistrib(x, y, z);
    if x != 0 { MulInverse(x); }
  }

  lemma GfMulZero(x: bv16)
    ensures GfMul(0, x) == 0 == GfMul(x, 0)
  {
    ProductZero(x, 16);
  }
}
