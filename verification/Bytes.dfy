/** Exclusive or on bytes, with the laws the proofs use. */
module Bytes {

  function XorByte(a: bv8, b: bv8): bv8 { a ^ b }

  lemma RawXorByte(a: bv8, b: bv8, c: bv8)
    ensures (a ^ b) ^ c == a ^ (b ^ c)
    ensures a ^ b == b ^ a
    ensures 0 ^ a == a
    ensures a ^ a == 0
  {
  }

  lemma XorByteComm(a: bv8, b: bv8)
    ensures XorByte(a, b) == XorByte(b, a)
  {
    RawXorByte(a, b, a);
  }

  lemma XorByteAssoc(a: bv8, b: bv8, c: bv8)
    ensures XorByte(XorByte(a, b), c) == XorByte(a, XorByte(b, c))
  {
    RawXorByte(a, b, c);
  }

  lemma XorByteZero(a: bv8)
    ensures XorByte(0, a) == a == XorByte(a, 0)
    ensures XorByte(a, a) == 0
  {
    RawXorByte(a, 0, a);
  }

  function ZeroBlock(n: nat): (r: seq<bv8>)
    ensures |r| == n && forall i :: 0 <= i < n ==> r[i] == 0
  {
    seq(n, i => 0)
  }

  /** A byte as a number. */
  function ByteKey(b: bv8): (k: nat)
    ensures k < 256
  {
    b as nat
  }

  lemma ByteKeyInjective(x: bv8, y: bv8)
    requires ByteKey(x) == ByteKey(y)
    ensures x == y
  {
    assert (x as nat) as bv8 == x;
    assert (y as nat) as bv8 == y;
  }

  lemma ByteKeyOf(i: nat)
    requires i < 256
    ensures ByteKey(i as bv8) == i
  {
  }
}
