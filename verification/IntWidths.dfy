/** The 32-bit integers that the encoding pipeline puts sizes into, and the objects small enough for them. */
module IntWidths {
  import opened Arithmetic
  import opened Preprocessing

  const INT_MAX := 0x7fff_ffff
  const HEADER_SIZE := 80
  const MAX_FRAGMENTS := 256

  /** A 64-bit length stored in a 32-bit integer, two's complement. */
  function Narrow(x: nat): int {
    (x + 0x8000_0000) % 0x1_0000_0000 - 0x8000_0000
  }

  /** Division that rounds toward zero. */
  function TruncDiv(x: int, a: nat): int
    requires a >= 1
  {
    if x >= 0 then x / a else -(-x / a)
  }

  /** The aligned size of an object, computed from its narrowed length. */
  function NarrowedAligned(k: nat, w: nat, len: nat): int
    requires k >= 1 && w >= 8
  {
    MulAtLeast(k, w / 8);
    TruncDiv(Narrow(len) + k * (w / 8) - 1, k * (w / 8)) * (k * (w / 8))
  }

  lemma NarrowExact(x: nat)
    ensures Narrow(x) == x <==> x <= INT_MAX
    ensures x > INT_MAX ==> Narrow(x) <= x - 0x1_0000_0000
  {
    var q, r := (x + 0x8000_0000) / 0x1_0000_0000, (x + 0x8000_0000) % 0x1_0000_0000;
    assert x + 0x8000_0000 == q * 0x1_0000_0000 + r && 0 <= r < 0x1_0000_0000;
  }

  lemma NegativeAligned(x: int, a: nat)
    requires a >= 1 && x < 0
    ensures TruncDiv(x, a) * a <= 0
  {
    var q := -x / a;
    assert q >= 0;
    MulMono(0, q, a);
    assert TruncDiv(x, a) * a == -(q * a);
  }

  /** The blocks hold the object exactly if its length fits the integer; then the aligned size is the intended one. */
  lemma BlocksHold(k: nat, w: nat, len: nat)
    requires k >= 1 && w >= 8 && Narrow(len) + k * (w / 8) <= INT_MAX && k * (w / 8) <= INT_MAX
    ensures len <= NarrowedAligned(k, w, len) <==> len <= INT_MAX
    ensures len <= INT_MAX ==> NarrowedAligned(k, w, len) == AlignedDataSize(k, w, len)
  {
    var a := k * (w / 8);
    MulAtLeast(k, w / 8);
    NarrowExact(len);
    var n := Narrow(len) + a - 1;
    hide Narrow;
    if n >= 0 {
      var q := n / a;
      assert q * a <= n by { assert n == q * a + n % a; }
      if len <= INT_MAX { CeilDiv(len, a, q); }
    } else {
      NegativeAligned(n, a);
    }
  }

  /** Every size on the way of an object of len bytes, and the number of matrix entries, as integers without overflow. */
  ghost predicate IntsFit(k: nat, m: nat, w: nat, len: nat)
    requires k >= 1 && w >= 8
  {
    && Narrow(len) == len && len + k * (w / 8) <= INT_MAX
    && AlignedDataSize(k, w, len) <= INT_MAX && Blocksize(k, w, len) + HEADER_SIZE <= INT_MAX
    && (k + m) * k <= INT_MAX
  }

  /** Two comparisons on the length tell whether they all fit. */
  lemma FitsExactly(k: nat, m: nat, w: nat, len: nat)
    requires k >= 1 && w >= 8 && k + m <= MAX_FRAGMENTS
    ensures IntsFit(k, m, w, len) <==> len + k * (w / 8) <= INT_MAX && Blocksize(k, w, len) + HEADER_SIZE <= INT_MAX
  {
    NarrowExact(len);
    BlocksizeFits(k, w, len);
    AlignedIs(k, w, len);
    MulMono(k + m, MAX_FRAGMENTS, k);
    hide AlignedDataSize, Blocksize, Narrow;
  }

  lemma AlignedIs(k: nat, w: nat, len: nat)
    requires k >= 1 && w >= 8
    ensures AlignedDataSize(k, w, len) == k * Blocksize(k, w, len)
  {
    var a, ws := AlignedDataSize(k, w, len), w / 8;
    MulAtLeast(k, ws);
    var q := (len + k * ws - 1) / (k * ws);
    assert a == q * (k * ws) == k * (q * ws);
    DivUnique(a, k, q * ws, 0);
  }

  /** From two fragments on the header needs no comparison of its own. */
  lemma HeaderFits(k: nat, w: nat, len: nat)
    requires 2 <= k <= MAX_FRAGMENTS && w >= 8 && len + k * (w / 8) <= INT_MAX
    ensures Blocksize(k, w, len) + HEADER_SIZE <= INT_MAX
  {
    BlocksizeFits(k, w, len);
    hide Blocksize;
    MulMono(2, k, Blocksize(k, w, len));
  }
}
