/** Algebraic signatures: backward Horner loops over split multiplication tables. */
module AlgSig {
  import opened Bytes
  import opened Galois16
  import opened Horner

  function HighNibble(s: bv8): bv8 { (s >> 4) & 0x0f }
  function LowNibble(s: bv8): bv8 { s & 0x0f }
  function Raised(n: bv8): bv8 { (n << 4) & 0xf0 }

  lemma Nibbles(s: bv8)
    ensures XorByte(Raised(HighNibble(s)), LowNibble(s)) == s
    ensures HighNibble(s) < 16 && LowNibble(s) < 16
  {
  }

  lemma NibbleKey(n: bv8)
    ensures ByteKey(n) < 16 <==> n < 16
  {
  }

  function Xor8(): Symbols<bv8> { Symbols(0, (x, y) => XorByte(x, y)) }
  function Xor16(): Symbols<bv16> { Symbols(0, (x, y) => Xor(x, y)) }

  lemma Xor8IsXor()
    ensures IsXor(Xor8())
  {
    hide XorByte;
    forall x: bv8, y: bv8, z: bv8 ensures Xor8().LawsAt(x, y, z) {
      XorByteComm(x, y);
      XorByteAssoc(x, y, z);
      XorByteZero(x);
    }
  }

  lemma Xor16IsXor()
    ensures IsXor(Xor16())
  {
    hide Xor;
    forall x: bv16, y: bv16, z: bv16 ensures Xor16().LawsAt(x, y, z) {
      XorComm(x, y);
      XorAssoc(x, y, z);
      XorZero(x);
    }
  }

  /** Multiplication by a point, and by one. */
  function Times<S>(mult: (S, S) -> S, a: S): S -> S { x => mult(x, a) }
  function ByOne<S>(): S -> S { x => x }

  /** The signature component of a buffer at a point. */
  ghost function Component8(times: bv8 -> bv8, b: seq<bv8>): bv8 { Eval(Xor8(), times, b) }
  ghost function Component16(times: bv16 -> bv16, b: seq<bv16>): bv16 { Eval(Xor16(), times, b) }

  // ----- symbols of 8 bits

  /** l holds the products of the upper halves, r those of the lower halves. */
  ghost predicate Split8(mult: (bv8, bv8) -> bv8, l: array<bv8>, r: array<bv8>, a: bv8)
    reads l, r
  {
    && l.Length == r.Length == 16
    && forall n: bv8 {:trigger ByteKey(n)} :: ByteKey(n) < 16 ==> l[ByteKey(n)] == mult(Raised(n), a) && r[ByteKey(n)] == mult(n, a)
  }

  method FillSplit8(mult: (bv8, bv8) -> bv8, l: array<bv8>, r: array<bv8>, a: bv8)
    requires l != r && l.Length == r.Length == 16
    modifies l, r
    ensures Split8(mult, l, r, a)
  {
    hide ByteKey, Raised;
    for i := 0 to 16
      invariant forall n: bv8 {:trigger ByteKey(n)} :: ByteKey(n) < i ==> l[ByteKey(n)] == mult(Raised(n), a) && r[ByteKey(n)] == mult(n, a)
    {
      var n := i as bv8;
      ByteKeyOf(i);
      forall x: bv8 {:trigger ByteKey(x)} | ByteKey(x) == i ensures x == n { ByteKeyInjective(x, n); }
      l[i] := mult(Raised(n), a);
      r[i] := mult(n, a);
    }
  }

  /** Two lookups make a product. */
  method Lookup8(mult: (bv8, bv8) -> bv8, l: array<bv8>, r: array<bv8>, a: bv8, s: bv8) returns (p: bv8)
    requires Split8(mult, l, r, a) && Linear(Xor8(), Times(mult, a))
    ensures p == mult(s, a)
  {
    hide ByteKey, Raised, HighNibble, LowNibble, XorByte;
    Nibbles(s);
    NibbleKey(HighNibble(s));
    NibbleKey(LowNibble(s));
    LinearAt(Xor8(), Times(mult, a), Raised(HighNibble(s)), LowNibble(s));
    p := XorByte(l[ByteKey(HighNibble(s))], r[ByteKey(LowNibble(s))]);
  }

  lemma LastSymbol<S(!new)>(g: Symbols<S>, times: S -> S, b: seq<S>)
    requires IsXor(g) && Linear(g, times) && |b| > 0
    ensures Eval(g, times, b[|b| - 1..]) == b[|b| - 1]
  {
    assert b[|b| - 1..] == [b[|b| - 1]];
    EvalOne(g, times, b[|b| - 1]);
  }

  lemma NextSymbol<S>(g: Symbols<S>, times: S -> S, b: seq<S>, i: nat)
    requires i < |b|
    ensures Eval(g, times, b[i..]) == g.Add(b[i], times(Eval(g, times, b[i + 1..])))
  {
    assert b[i..][1..] == b[i + 1..];
  }

  lemma ByOneLinear<S(!new)>(g: Symbols<S>)
    ensures Linear(g, ByOne())
  {
  }

  /** One step back through the buffer at point a. */
  method Step8(mult: (bv8, bv8) -> bv8, l: array<bv8>, r: array<bv8>, a: bv8, s: bv8, buf: seq<bv8>, i: nat) returns (p: bv8)
    requires Split8(mult, l, r, a) && Linear(Xor8(), Times(mult, a)) && i < |buf| && s == Component8(Times(mult, a), buf[i + 1..])
    ensures p == Component8(Times(mult, a), buf[i..])
  {
    hide Split8, XorByte, Eval, Linear;
    NextSymbol(Xor8(), Times(mult, a), buf, i);
    var t := Lookup8(mult, l, r, a, s);
    p := XorByte(buf[i], t);
  }

  lemma StepByOne8(s: bv8, buf: seq<bv8>, i: nat)
    requires i < |buf| && s == Component8(ByOne(), buf[i + 1..])
    ensures XorByte(s, buf[i]) == Component8(ByOne(), buf[i..])
  {
    hide XorByte, Eval;
    NextSymbol(Xor8(), ByOne(), buf, i);
    XorByteComm(s, buf[i]);
  }

  /** The component of a buffer's last symbol alone, and of nothing. */
  lemma StartComponent8(times: bv8 -> bv8, buf: seq<bv8>)
    requires Linear(Xor8(), times)
    ensures buf == [] ==> Component8(times, buf) == 0
    ensures buf != [] ==> Component8(times, buf[|buf| - 1..]) == buf[|buf| - 1]
  {
    hide XorByte;
    Xor8IsXor();
    if buf != [] { LastSymbol(Xor8(), times, buf); }
  }

  class AlgSig8 {
    const mult: (bv8, bv8) -> bv8
    const tbl1L: array<bv8>
    const tbl1R: array<bv8>
    const tbl2L: array<bv8>
    const tbl2R: array<bv8>
    const tbl3L: array<bv8>
    const tbl3R: array<bv8>

    /** The tables are those of the points 2, 4 and 8. */
    ghost predicate Valid()
      reads tbl1L, tbl1R, tbl2L, tbl2R, tbl3L, tbl3R
    {
      && Split8(mult, tbl1L, tbl1R, 2) && Split8(mult, tbl2L, tbl2R, 4) && Split8(mult, tbl3L, tbl3R, 8)
      && Linear(Xor8(), Times(mult, 2)) && Linear(Xor8(), Times(mult, 4)) && Linear(Xor8(), Times(mult, 8))
    }

    constructor (mult: (bv8, bv8) -> bv8)
      requires Linear(Xor8(), Times(mult, 2)) && Linear(Xor8(), Times(mult, 4)) && Linear(Xor8(), Times(mult, 8))
      ensures Valid() && this.mult == mult
      ensures fresh(tbl1L) && fresh(tbl1R) && fresh(tbl2L) && fresh(tbl2R) && fresh(tbl3L) && fresh(tbl3R)
    {
      hide Split8, Linear;
      this.mult := mult;
      var l1, r1, l2, r2, l3, r3 := new bv8[16], new bv8[16], new bv8[16], new bv8[16], new bv8[16], new bv8[16];
      FillSplit8(mult, l1, r1, 2);
      FillSplit8(mult, l2, r2, 4);
      FillSplit8(mult, l3, r3, 8);
      tbl1L, tbl1R, tbl2L, tbl2R, tbl3L, tbl3R := l1, r1, l2, r2, l3, r3;
    }

    /** The values of the polynomial of the buffer at 1, 2, 4 and 8. */
    method Compute32(buf: seq<bv8>, sig: array<bv8>)
      requires Valid() && sig.Length == 4 && sig !in {tbl1L, tbl1R, tbl2L, tbl2R, tbl3L, tbl3R}
      modifies sig
      ensures sig[0] == Component8(ByOne(), buf) && sig[1] == Component8(Times(mult, 2), buf)
      ensures sig[2] == Component8(Times(mult, 4), buf) && sig[3] == Component8(Times(mult, 8), buf)
    {
      hide Split8, XorByte, Component8, Linear;
      var len := |buf|;
      ByOneLinear(Xor8());
      StartComponent8(ByOne(), buf);
      StartComponent8(Times(mult, 2), buf);
      StartComponent8(Times(mult, 4), buf);
      StartComponent8(Times(mult, 8), buf);
      if len == 0 {
        sig[0], sig[1], sig[2], sig[3] := 0, 0, 0, 0;
        return;
      }
      var last := buf[len - 1];
      sig[0], sig[1], sig[2], sig[3] := last, last, last, last;
      var i := len - 2;
      while i >= 0
        invariant -1 <= i <= len - 2 && Valid()
        invariant sig[0] == Component8(ByOne(), buf[i + 1..]) && sig[1] == Component8(Times(mult, 2), buf[i + 1..])
        invariant sig[2] == Component8(Times(mult, 4), buf[i + 1..]) && sig[3] == Component8(Times(mult, 8), buf[i + 1..])
      {
        StepByOne8(sig[0], buf, i);
        var p1 := Step8(mult, tbl1L, tbl1R, 2, sig[1], buf, i);
        var p2 := Step8(mult, tbl2L, tbl2R, 4, sig[2], buf, i);
        var p3 := Step8(mult, tbl3L, tbl3R, 8, sig[3], buf, i);
        sig[0], sig[1], sig[2], sig[3] := XorByte(sig[0], buf[i]), p1, p2, p3;
        i := i - 1;
      }
      assert buf[0..] == buf;
    }
  }
}
