/** Buffers of bytes read as little-endian 16-bit words, and the loops that combine them. */
module Regions {
  import opened Vectors
  import opened Mds
  import opened Bytes
  import opened Galois16
  import opened GaloisField

  function MakeWord(lo: bv8, hi: bv8): bv16 { (hi as bv16 << 8) | lo as bv16 }
  function LowByte(w: bv16): bv8 { (w & 0xff) as bv8 }
  function HighByte(w: bv16): bv8 { (w >> 8) as bv8 }

  lemma WordBytes(w: bv16)
    ensures MakeWord(LowByte(w), HighByte(w)) == w
  {
  }

  lemma BytesWord(lo: bv8, hi: bv8)
    ensures LowByte(MakeWord(lo, hi)) == lo && HighByte(MakeWord(lo, hi)) == hi
  {
  }

  lemma Halved(w: bv16)
    ensures w as nat == ((w & 0xff) as nat) + 256 * ((w >> 8) as nat)
  {
  }

  lemma Widened(b: bv8)
    ensures (b as bv16) as nat == ByteKey(b)
  {
  }

  lemma WordHalves(lo: bv8, hi: bv8)
    ensures MakeWord(lo, hi) & 0xff == lo as bv16 && MakeWord(lo, hi) >> 8 == hi as bv16
  {
  }

  /** The low-order byte comes first. */
  lemma MakeWordValue(lo: bv8, hi: bv8)
    ensures MakeWord(lo, hi) as nat == ByteKey(lo) + 256 * ByteKey(hi)
  {
    hide MakeWord, ByteKey;
    WordHalves(lo, hi);
    Halved(MakeWord(lo, hi));
    Widened(lo);
    Widened(hi);
  }

  lemma WordXor(a: bv8, b: bv8, c: bv8, d: bv8)
    ensures MakeWord(XorByte(a, c), XorByte(b, d)) == Xor(MakeWord(a, b), MakeWord(c, d))
  {
  }

  /** The w-th 16-bit word of a buffer. */
  function WordAt(s: seq<bv8>, w: nat): bv16
    requires 2 * w + 1 < |s|
  {
    MakeWord(s[2 * w], s[2 * w + 1])
  }

  /** Buffers with the same words have the same bytes. */
  lemma SameWords(s: seq<bv8>, t: seq<bv8>)
    requires |s| == |t| && |s| % 2 == 0
    requires forall w :: 0 <= w < |s| / 2 ==> WordAt(s, w) == WordAt(t, w)
    ensures s == t
  {
    hide MakeWord, LowByte, HighByte;
    forall i | 0 <= i < |s| ensures s[i] == t[i] {
      var w := i / 2;
      assert WordAt(s, w) == WordAt(t, w);
      BytesWord(s[2 * w], s[2 * w + 1]);
      BytesWord(t[2 * w], t[2 * w + 1]);
    }
  }

  /** The w-th word of each buffer. */
  function WordColumn(bufs: seq<seq<bv8>>, w: nat): (c: seq<bv16>)
    requires forall i :: 0 <= i < |bufs| ==> 2 * w + 1 < |bufs[i]|
    ensures |c| == |bufs| && forall i :: 0 <= i < |bufs| ==> c[i] == WordAt(bufs[i], w)
  {
    seq(|bufs|, i requires 0 <= i < |bufs| => WordAt(bufs[i], w))
  }

  /** The x-th byte of each buffer. */
  function ByteColumn(bufs: seq<seq<bv8>>, x: nat): (c: seq<bv8>)
    requires forall i :: 0 <= i < |bufs| ==> x < |bufs[i]|
    ensures |c| == |bufs| && forall i :: 0 <= i < |bufs| ==> c[i] == bufs[i][x]
  {
    seq(|bufs|, i requires 0 <= i < |bufs| => bufs[i][x])
  }

  /** The contents of a list of buffers. */
  function Contents(bufs: seq<array<bv8>>): (c: seq<seq<bv8>>)
    reads bufs
    ensures |c| == |bufs| && forall i :: 0 <= i < |bufs| ==> c[i] == bufs[i][..]
  {
    seq(|bufs|, i requires 0 <= i < |bufs| reads bufs => bufs[i][..])
  }

  ghost predicate AllSized(bufs: seq<array<bv8>>, blocksize: nat) {
    forall i :: 0 <= i < |bufs| ==> bufs[i].Length == blocksize
  }

  /** k data and m parity buffers, all separate and of the same length. */
  ghost predicate Stripe(data: seq<array<bv8>>, parity: seq<array<bv8>>, k: nat, m: nat, blocksize: nat) {
    && |data| == k && |parity| == m
    && AllSized(data, blocksize) && AllSized(parity, blocksize)
    && Distinct(data) && Distinct(parity)
    && (forall i, j :: 0 <= i < k && 0 <= j < m ==> data[i] != parity[j])
  }

  lemma StripeSizes(data: seq<array<bv8>>, parity: seq<array<bv8>>, k: nat, m: nat, blocksize: nat)
    requires Stripe(data, parity, k, m, blocksize)
    ensures |data| == k && |parity| == m && AllSized(data, blocksize) && AllSized(parity, blocksize)
  {
  }

  lemma StripeApart(data: seq<array<bv8>>, parity: seq<array<bv8>>, k: nat, m: nat, blocksize: nat)
    requires Stripe(data, parity, k, m, blocksize)
    ensures forall i, j :: 0 <= i < |data| && 0 <= j < |parity| ==> data[i] != parity[j]
    ensures forall i, j :: 0 <= i < j < |parity| ==> parity[i] != parity[j]
    ensures forall i :: 0 <= i < |data| ==> data[i].Length == blocksize
    ensures forall i :: 0 <= i < |parity| ==> parity[i].Length == blocksize
  {
  }

  /** What is held is what was stored, but for the missing fragments. */
  ghost predicate Keeps(held: seq<seq<bv8>>, orig: seq<seq<bv8>>, miss: set<nat>) {
    |held| == |orig| && forall i :: 0 <= i < |held| && i !in miss ==> held[i] == orig[i]
  }

  /** The buffers of the lost fragments. */
  ghost function LostSet(data: seq<array<bv8>>, parity: seq<array<bv8>>, miss: set<nat>): set<array<bv8>> {
    set i: nat | i < |data| + |parity| && i in miss :: (data + parity)[i]
  }

  lemma SizeOf(data: seq<array<bv8>>, parity: seq<array<bv8>>, i: nat, blocksize: nat)
    requires AllSized(data, blocksize) && AllSized(parity, blocksize) && i < |data| + |parity|
    ensures (data + parity)[i].Length == blocksize
  {
  }

  method StoreWord(a: array<bv8>, i: nat, w: bv16)
    requires 2 * i + 1 < a.Length
    modifies a
    ensures a[..] == old(a[..])[2 * i := LowByte(w)][2 * i + 1 := HighByte(w)]
    ensures WordAt(a[..], i) == w
    ensures forall j :: 0 <= j < a.Length / 2 && j != i ==> WordAt(a[..], j) == old(WordAt(a[..], j))
  {
    hide LowByte, HighByte, MakeWord;
    a[2 * i], a[2 * i + 1] := LowByte(w), HighByte(w);
    WordBytes(w);
  }

  /** The first n bytes have the other buffer's added, the rest are as before. */
  ghost predicate XoredTo(now: seq<bv8>, before: seq<bv8>, other: seq<bv8>, n: nat) {
    |now| == |before| == |other| && forall j :: 0 <= j < |now| ==> now[j] == if j < n then XorByte(before[j], other[j]) else before[j]
  }

  lemma XoredStart(s: seq<bv8>, other: seq<bv8>)
    requires |s| == |other|
    ensures XoredTo(s, s, other, 0)
  {
  }

  lemma XoredAll(now: seq<bv8>, before: seq<bv8>, other: seq<bv8>)
    requires XoredTo(now, before, other, |now|)
    ensures |now| == |before| == |other| && forall j :: 0 <= j < |now| ==> now[j] == XorByte(before[j], other[j])
  {
  }

  /** A stretch of bytes, which may be a word that is read, combined and written at once. */
  method XorSpan(from: array<bv8>, to: array<bv8>, lo: nat, hi: nat, ghost before: seq<bv8>)
    requires from != to && from.Length == to.Length && lo <= hi <= to.Length && XoredTo(to[..], before, from[..], lo)
    modifies to
    ensures XoredTo(to[..], before, from[..], hi)
  {
    hide XorByte;
    for b := lo to hi
      invariant XoredTo(to[..], before, from[..], b)
    {
      to[b] := XorByte(to[b], from[b]);
    }
  }

  /** to ^= from, four bytes at a time and then the bytes left over. */
  method RegionXor(from: array<bv8>, to: array<bv8>, blocksize: nat)
    requires from != to && from.Length == to.Length == blocksize
    modifies to
    ensures forall j :: 0 <= j < blocksize ==> to[j] == XorByte(old(to[j]), from[j])
  {
    ghost var before := to[..];
    XoredStart(before, from[..]);
    hide XorByte, XoredTo;
    var adjBlocksize, trailingBytes := blocksize / 4, blocksize % 4;
    for i := 0 to adjBlocksize
      invariant XoredTo(to[..], before, from[..], 4 * i)
    {
      XorSpan(from, to, 4 * i, 4 * i + 4, before);
    }
    XorSpan(from, to, blocksize - trailingBytes, blocksize, before);
    XoredAll(to[..], before, from[..]);
  }

  lemma RegionXorWords(from: seq<bv8>, before: seq<bv8>, after: seq<bv8>, w: nat)
    requires |from| == |before| == |after| && 2 * w + 1 < |from|
    requires forall j :: 0 <= j < |from| ==> after[j] == XorByte(before[j], from[j])
    ensures WordAt(after, w) == Xor(WordAt(before, w), WordAt(from, w))
  {
    hide MakeWord, Xor, XorByte;
    WordXor(before[2 * w], before[2 * w + 1], from[2 * w], from[2 * w + 1]);
  }

  /** The product of a single byte, cut to a byte. */
  function ByteTimes(x: bv8, mult: bv16): bv8 { LowByte(GfMul(x as bv16, mult)) }

  /** to = from * mult, or to ^= from * mult, word by word. The last byte of an odd region is multiplied on its own; it is
      read as a signed character, and the log table has no place for a negative one. */
  method RegionMultiply(from: array<bv8>, to: array<bv8>, mult: bv16, xor: bool, blocksize: nat)
    requires from != to && from.Length == to.Length == blocksize
    requires blocksize % 2 == 1 ==> from[blocksize - 1] < 0x80
    modifies to
    ensures forall w :: 0 <= w < blocksize / 2 ==>
      WordAt(to[..], w) == if xor then Xor(old(WordAt(to[..], w)), GfMul(WordAt(from[..], w), mult))
                           else GfMul(WordAt(from[..], w), mult)
    ensures blocksize % 2 == 1 && xor ==> to[blocksize - 1] == XorByte(old(to[blocksize - 1]), ByteTimes(from[blocksize - 1], mult))
    ensures blocksize % 2 == 1 && !xor ==> to[blocksize - 1] == ByteTimes(from[blocksize - 1], mult)
  {
    hide GfMul, Xor, MakeWord, XorByte, ByteTimes;
    var adjBlocksize, trailingBytes := blocksize / 2, blocksize % 2;
    if xor {
      for i := 0 to adjBlocksize
        invariant forall w :: 0 <= w < i ==> WordAt(to[..], w) == Xor(old(WordAt(to[..], w)), GfMul(WordAt(from[..], w), mult))
        invariant forall w :: i <= w < adjBlocksize ==> WordAt(to[..], w) == old(WordAt(to[..], w))
        invariant trailingBytes == 1 ==> to[blocksize - 1] == old(to[blocksize - 1])
      {
        StoreWord(to, i, Xor(MakeWord(to[2 * i], to[2 * i + 1]), GfMul(MakeWord(from[2 * i], from[2 * i + 1]), mult)));
      }
    } else {
      for i := 0 to adjBlocksize
        invariant forall w :: 0 <= w < i ==> WordAt(to[..], w) == GfMul(WordAt(from[..], w), mult)
      {
        StoreWord(to, i, GfMul(MakeWord(from[2 * i], from[2 * i + 1]), mult));
      }
    }
    if trailingBytes == 1 {
      var last := blocksize - 1;
      to[last] := if xor then XorByte(to[last], ByteTimes(from[last], mult)) else ByteTimes(from[last], mult);
    }
  }

  /** The operations of the field record are the ones of this module. */
  lemma Gf16Ops(x: bv16, y: bv16)
    ensures Gf16().Add(x, y) == Xor(x, y) && Gf16().Mul(x, y) == GfMul(x, y)
    ensures Gf16().zero == 0 && Gf16().one == 1
  {
    hide Xor, GfMul, GfInv;
  }

  lemma DotStep(row: seq<bv16>, col: seq<bv16>, i: nat)
    requires i < |row| && i < |col|
    ensures Dot(Gf16(), row, col, i + 1) == Xor(Dot(Gf16(), row, col, i), GfMul(col[i], row[i]))
    ensures row[i] == 1 ==> Dot(Gf16(), row, col, i + 1) == Xor(Dot(Gf16(), row, col, i), col[i])
  {
    hide Xor, GfMul, Gf16;
    Gf16Ops(Dot(Gf16(), row, col, i), GfMul(row[i], col[i]));
    Gf16Ops(row[i], col[i]);
    GfMulComm(row[i], col[i]);
    GfMulOne(col[i]);
  }

  /** to = the combination of the buffers with the coefficients of a matrix row. */
  method RegionDotProduct(fromBufs: seq<array<bv8>>, to: array<bv8>, row: seq<bv16>, numEntries: nat, blocksize: nat)
    requires numEntries == |fromBufs| == |row| && blocksize % 2 == 0
    requires AllSized(fromBufs, blocksize) && to.Length == blocksize && to !in fromBufs
    modifies to
    ensures forall w :: 0 <= w < blocksize / 2 ==>
      WordAt(to[..], w) == Dot(Gf16(), row, WordColumn(Contents(fromBufs), w), numEntries)
  {
    ghost var from := Contents(fromBufs);
    hide DotDone;
    forall i | 0 <= i < blocksize { to[i] := 0; }
    DotNone(row, from, blocksize, to[..]);
    for i := 0 to numEntries
      invariant Contents(fromBufs) == from && DotDone(row, from, blocksize, to[..], i)
    {
      assert from[i] == fromBufs[i][..];
      AddEntry(fromBufs[i], to, row, i, blocksize, from);
      assert Contents(fromBufs) == from;
    }
    DotAll(row, from, blocksize, to[..]);
  }

  /** Each word is the dot product of the first n entries. */
  ghost predicate DotDone(row: seq<bv16>, from: seq<seq<bv8>>, blocksize: nat, now: seq<bv8>, n: nat) {
    && n <= |row| == |from| && |now| == blocksize && (forall i :: 0 <= i < |from| ==> |from[i]| == blocksize)
    && forall w {:trigger WordAt(now, w)} :: 0 <= w < blocksize / 2 ==> WordAt(now, w) == Dot(Gf16(), row, WordColumn(from, w), n)
  }

  lemma DotNone(row: seq<bv16>, from: seq<seq<bv8>>, blocksize: nat, now: seq<bv8>)
    requires |row| == |from| && |now| == blocksize && (forall i :: 0 <= i < |from| ==> |from[i]| == blocksize)
    requires forall i :: 0 <= i < blocksize ==> now[i] == 0
    ensures DotDone(row, from, blocksize, now, 0)
  {
    hide MakeWord, Gf16;
    ZeroWord();
    Gf16Ops(0, 0);
  }

  lemma DotAll(row: seq<bv16>, from: seq<seq<bv8>>, blocksize: nat, now: seq<bv8>)
    requires DotDone(row, from, blocksize, now, |row|)
    ensures |now| == blocksize && forall w :: 0 <= w < blocksize / 2 ==> WordAt(now, w) == Dot(Gf16(), row, WordColumn(from, w), |row|)
  {
  }

  lemma DotNext(row: seq<bv16>, from: seq<seq<bv8>>, blocksize: nat, before: seq<bv8>, now: seq<bv8>, i: nat)
    requires i < |row| && DotDone(row, from, blocksize, before, i) && |now| == blocksize
    requires forall w {:trigger WordAt(now, w)} :: 0 <= w < blocksize / 2 ==>
      WordAt(now, w) == Xor(WordAt(before, w), if row[i] == 1 then WordAt(from[i], w) else GfMul(WordAt(from[i], w), row[i]))
    ensures DotDone(row, from, blocksize, now, i + 1)
  {
    hide Xor, GfMul, Gf16, WordAt;
    forall w {:trigger WordAt(now, w)} | 0 <= w < blocksize / 2 ensures WordAt(now, w) == Dot(Gf16(), row, WordColumn(from, w), i + 1) {
      DotStep(row, WordColumn(from, w), i);
    }
  }

  /** Adds the i-th entry's multiple of its buffer; a factor of one is a plain exclusive or. */
  method AddEntry(fromBuf: array<bv8>, to: array<bv8>, row: seq<bv16>, i: nat, blocksize: nat, ghost from: seq<seq<bv8>>)
    requires i < |row| && DotDone(row, from, blocksize, to[..], i) && blocksize % 2 == 0
    requires fromBuf != to && fromBuf.Length == blocksize && fromBuf[..] == from[i]
    modifies to
    ensures DotDone(row, from, blocksize, to[..], i + 1)
  {
    hide Xor, GfMul, Gf16, WordAt;
    ghost var before := to[..];
    assert |before| == blocksize;
    hide DotDone;
    var mult := row[i];
    if mult == 1 {
      RegionXor(fromBuf, to, blocksize);
      forall w | 0 <= w < blocksize / 2 ensures WordAt(to[..], w) == Xor(WordAt(before, w), WordAt(from[i], w)) {
        RegionXorWords(from[i], before, to[..], w);
      }
    } else {
      RegionMultiply(fromBuf, to, mult, true, blocksize);
    }
    DotNext(row, from, blocksize, before, to[..], i);
  }

  lemma ZeroWord()
    ensures MakeWord(0, 0) == 0
  {
  }
}
