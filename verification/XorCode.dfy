/** Flat XOR codes: each parity is the exclusive or of the data its bitmap names. */
module XorCode {
  import opened Bytes
  import opened Bitmaps
  import opened Regions

  const MAX_DATA: nat := 32

  datatype XorCode = XorCode(k: nat, m: nat, hd: nat, parityBms: seq<bv32>, dataBms: seq<bv32>)

  predicate IsDataInParity(dataIdx: nat, parityBm: bv32) { Bit(parityBm, dataIdx) }
  predicate DoesParityHaveData(parityIdx: nat, dataBm: bv32) { Bit(dataBm, parityIdx) }

  ghost predicate Sized(c: XorCode) {
    1 <= c.k < MAX_DATA && 1 <= c.m < MAX_DATA && |c.parityBms| == c.m && |c.dataBms| == c.k
  }

  /** The parities a data fragment takes part in. */
  ghost function Column(c: XorCode, i: nat): (s: set<nat>)
    requires i < |c.dataBms|
    ensures s == BitsBelow(c.dataBms[i], c.m)
  {
    BitsBelow(c.dataBms[i], c.m)
  }

  /** data_bms is the transpose of parity_bms. */
  ghost predicate Transposed(c: XorCode)
    requires Sized(c)
  {
    && (forall i: nat, j: nat :: i < c.k && j < c.m ==> (Bit(c.parityBms[j], i) <==> Bit(c.dataBms[i], j)))
    && (forall i: nat, j: nat :: c.k <= i && j < c.m ==> !Bit(c.parityBms[j], i))
  }

  /** What makes a code correct hd - 1 losses: different columns, all of weight hd - 1. */
  ghost predicate ValidCode(c: XorCode) {
    && Sized(c) && (c.hd == 3 || c.hd == 4) && Transposed(c)
    && (forall i: nat :: i < c.k ==> |Column(c, i)| == c.hd - 1)
    && (forall i: nat, j: nat :: i < j < c.k ==> Column(c, i) != Column(c, j))
  }

  // ----- buffers

  /** The exclusive or of the first n bytes that the bitmap names. */
  function XorRow(bm: bv32, col: seq<bv8>, n: nat): bv8
    requires n <= |col|
  {
    if n == 0 then 0 else XorByte(XorRow(bm, col, n - 1), if Bit(bm, n - 1) then col[n - 1] else 0)
  }

  /** The exclusive or of the data buffers that the bitmap names. */
  ghost function ParityOf(bm: bv32, d: seq<seq<bv8>>, blocksize: nat): (r: seq<bv8>)
    requires forall i :: 0 <= i < |d| ==> |d[i]| == blocksize
    ensures |r| == blocksize
    ensures forall x :: 0 <= x < blocksize ==> r[x] == XorRow(bm, ByteColumn(d, x), |d|)
  {
    seq(blocksize, x requires 0 <= x < blocksize => XorRow(bm, ByteColumn(d, x), |d|))
  }

  ghost predicate IsXorCodeword(c: XorCode, blocksize: nat, frags: seq<seq<bv8>>) {
    && |c.parityBms| == c.m && |frags| == c.k + c.m
    && (forall i :: 0 <= i < c.k + c.m ==> |frags[i]| == blocksize)
    && (forall j :: 0 <= j < c.m ==> frags[c.k + j] == ParityOf(c.parityBms[j], frags[..c.k], blocksize))
  }

  lemma XorByteSwap(a: bv8, b: bv8, c: bv8)
    ensures XorByte(XorByte(a, b), c) == XorByte(XorByte(a, c), b)
  {
    hide XorByte;
    XorByteAssoc(a, b, c);
    XorByteComm(b, c);
    XorByteAssoc(a, c, b);
  }

  /** buf2 ^= buf1, in words of eight bytes and then byte by byte. */
  method XorBufsAndStore(buf1: array<bv8>, buf2: array<bv8>, blocksize: nat)
    requires buf1 != buf2 && buf1.Length == buf2.Length == blocksize
    modifies buf2
    ensures forall j :: 0 <= j < blocksize ==> buf2[j] == XorByte(old(buf2[j]), buf1[j])
  {
    ghost var before := buf2[..];
    XoredStart(before, buf1[..]);
    hide XorByte, XoredTo;
    var residualBytes := blocksize % 16;
    var fastBlocksize := if blocksize > residualBytes then blocksize - residualBytes else 0;
    var fastIntBlocksize := fastBlocksize / 8;
    for i := 0 to fastIntBlocksize
      invariant XoredTo(buf2[..], before, buf1[..], 8 * i)
    {
      XorSpan(buf1, buf2, 8 * i, 8 * i + 8, before);
    }
    XorSpan(buf1, buf2, fastBlocksize, blocksize, before);
    XoredAll(buf2[..], before, buf1[..]);
  }

  /** What a buffer holds after the first n data buffers named by the bitmap were added to it. */
  ghost function Added(start: seq<bv8>, bm: bv32, d: seq<seq<bv8>>, n: nat): (r: seq<bv8>)
    requires n <= |d| && forall i :: 0 <= i < |d| ==> |d[i]| == |start|
    ensures |r| == |start|
    ensures forall x :: 0 <= x < |start| ==> r[x] == XorByte(start[x], XorRow(bm, ByteColumn(d, x), n))
  {
    seq(|start|, x requires 0 <= x < |start| => XorByte(start[x], XorRow(bm, ByteColumn(d, x), n)))
  }

  lemma AddedNone(start: seq<bv8>, bm: bv32, d: seq<seq<bv8>>)
    requires forall i :: 0 <= i < |d| ==> |d[i]| == |start|
    ensures Added(start, bm, d, 0) == start
  {
    hide XorByte;
    forall x | 0 <= x < |start| ensures Added(start, bm, d, 0)[x] == start[x] { XorByteZero(start[x]); }
  }

  lemma AddedStep(start: seq<bv8>, bm: bv32, d: seq<seq<bv8>>, n: nat)
    requires n < |d| && forall i :: 0 <= i < |d| ==> |d[i]| == |start|
    ensures if Bit(bm, n) then forall x :: 0 <= x < |start| ==> Added(start, bm, d, n + 1)[x] == XorByte(Added(start, bm, d, n)[x], d[n][x])
            else Added(start, bm, d, n + 1) == Added(start, bm, d, n)
  {
    hide XorByte, Bit;
    var r, r' := Added(start, bm, d, n), Added(start, bm, d, n + 1);
    forall x | 0 <= x < |start| ensures r'[x] == if Bit(bm, n) then XorByte(r[x], d[n][x]) else r[x] {
      var row := XorRow(bm, ByteColumn(d, x), n);
      XorByteAssoc(start[x], row, d[n][x]);
      XorByteZero(row);
    }
  }

  /** Adds data buffer i to a buffer if its bitmap says so. */
  method AddIfNamed(from: array<bv8>, to: array<bv8>, blocksize: nat, bm: bv32, ghost d: seq<seq<bv8>>, i: nat, ghost start: seq<bv8>)
    requires from != to && from.Length == to.Length == blocksize == |start|
    requires i < |d| && from[..] == d[i] && forall l :: 0 <= l < |d| ==> |d[l]| == blocksize
    requires to[..] == Added(start, bm, d, i)
    modifies to
    ensures to[..] == Added(start, bm, d, i + 1)
  {
    hide XorByte, Bit, Added;
    AddedStep(start, bm, d, i);
    if IsDataInParity(i, bm) {
      XorBufsAndStore(from, to, blocksize);
    }
  }

  lemma SizedParts(c: XorCode)
    requires Sized(c)
    ensures |c.parityBms| == c.m && |c.dataBms| == c.k
  {
  }

  method EncodeColumn(c: XorCode, data: seq<array<bv8>>, parity: seq<array<bv8>>, blocksize: nat, i: nat, ghost d: seq<seq<bv8>>, ghost start: seq<seq<bv8>>)
    requires Sized(c) && Stripe(data, parity, c.k, c.m, blocksize) && i < c.k && d == Contents(data)
    requires |start| == c.m && forall j :: 0 <= j < c.m ==> |start[j]| == blocksize
    requires forall j :: 0 <= j < c.m ==> parity[j][..] == Added(start[j], c.parityBms[j], d, i)
    modifies parity
    ensures Contents(data) == d
    ensures forall j :: 0 <= j < c.m ==> parity[j][..] == Added(start[j], c.parityBms[j], d, i + 1)
  {
    hide *;
    StripeSizes(data, parity, c.k, c.m, blocksize);
    StripeApart(data, parity, c.k, c.m, blocksize);
    assert |c.parityBms| == c.m by { SizedParts(c); }
    for j := 0 to c.m
      invariant Contents(data) == d
      invariant forall l :: 0 <= l < j ==> parity[l][..] == Added(start[l], c.parityBms[l], d, i + 1)
      invariant forall l :: j <= l < c.m ==> parity[l][..] == Added(start[l], c.parityBms[l], d, i)
    {
      AddIfNamed(data[i], parity[j], blocksize, c.parityBms[j], d, i, start[j]);
    }
  }

  /** Adds every data buffer into every parity buffer whose bitmap names it. */
  method XorCodeEncode(c: XorCode, data: seq<array<bv8>>, parity: seq<array<bv8>>, blocksize: nat)
    requires Sized(c) && Stripe(data, parity, c.k, c.m, blocksize)
    modifies parity
    ensures Contents(data) == old(Contents(data))
    ensures forall j :: 0 <= j < c.m ==> parity[j][..] == Added(old(parity[j][..]), c.parityBms[j], Contents(data), c.k)
  {
    hide Added, Bit;
    ghost var d, start := Contents(data), Contents(parity);
    forall j | 0 <= j < c.m ensures parity[j][..] == Added(start[j], c.parityBms[j], d, 0) { AddedNone(start[j], c.parityBms[j], d); }
    for i := 0 to c.k
      invariant Contents(data) == d
      invariant forall j :: 0 <= j < c.m ==> parity[j][..] == Added(start[j], c.parityBms[j], d, i)
    {
      EncodeColumn(c, data, parity, blocksize, i, d, start);
    }
  }

  /** Adding the named data buffers to a zeroed buffer gives the parity; to any other buffer, the parity
      with the old contents on top. */
  lemma AddedIsParity(start: seq<bv8>, bm: bv32, d: seq<seq<bv8>>)
    requires forall i :: 0 <= i < |d| ==> |d[i]| == |start|
    ensures Added(start, bm, d, |d|) == ParityOf(bm, d, |start|) <==> start == ZeroBlock(|start|)
  {
    hide XorByte, Bit, XorRow;
    var r, p := Added(start, bm, d, |d|), ParityOf(bm, d, |start|);
    forall x | 0 <= x < |start| ensures r[x] == p[x] <==> start[x] == 0 {
      XorByteZero(p[x]);
      XorByteZero(start[x]);
      XorByteAssoc(start[x], p[x], p[x]);
    }
    if r == p {
      forall x | 0 <= x < |start| ensures start[x] == 0 { assert r[x] == p[x]; }
    }
  }

  lemma CodewordParity(c: XorCode, blocksize: nat, d: seq<seq<bv8>>, p: seq<seq<bv8>>, j: nat)
    requires |c.parityBms| == c.m && |d| == c.k && |p| == c.m && j < c.m
    requires IsXorCodeword(c, blocksize, d + p) && forall i :: 0 <= i < c.k ==> |d[i]| == blocksize
    ensures p[j] == ParityOf(c.parityBms[j], d, blocksize)
  {
    hide ParityOf;
    var frags := d + p;
    assert frags[..c.k] == d && frags[c.k + j] == p[j];
  }

  lemma ParitiesMake(c: XorCode, blocksize: nat, d: seq<seq<bv8>>, p: seq<seq<bv8>>)
    requires |c.parityBms| == c.m && |d| == c.k && |p| == c.m
    requires (forall i :: 0 <= i < c.k ==> |d[i]| == blocksize) && forall j :: 0 <= j < c.m ==> |p[j]| == blocksize
    requires forall j :: 0 <= j < c.m ==> p[j] == ParityOf(c.parityBms[j], d, blocksize)
    ensures IsXorCodeword(c, blocksize, d + p)
  {
    hide ParityOf;
    var frags := d + p;
    assert frags[..c.k] == d;
    forall j | 0 <= j < c.m ensures frags[c.k + j] == ParityOf(c.parityBms[j], frags[..c.k], blocksize) { assert frags[c.k + j] == p[j]; }
  }

  lemma CodewordParts(c: XorCode, blocksize: nat, d: seq<seq<bv8>>, p: seq<seq<bv8>>)
    requires |c.parityBms| == c.m && |d| == c.k && |p| == c.m
    requires (forall i :: 0 <= i < c.k ==> |d[i]| == blocksize) && forall j :: 0 <= j < c.m ==> |p[j]| == blocksize
    ensures IsXorCodeword(c, blocksize, d + p) <==> forall j :: 0 <= j < c.m ==> p[j] == ParityOf(c.parityBms[j], d, blocksize)
  {
    hide *;
    if IsXorCodeword(c, blocksize, d + p) {
      forall j | 0 <= j < c.m ensures p[j] == ParityOf(c.parityBms[j], d, blocksize) { CodewordParity(c, blocksize, d, p, j); }
    }
    if forall j :: 0 <= j < c.m ==> p[j] == ParityOf(c.parityBms[j], d, blocksize) { ParitiesMake(c, blocksize, d, p); }
  }

  /** What encoding leaves is a codeword exactly if every parity buffer was zero on entry. */
  lemma EncodedIsXorCodeword(c: XorCode, blocksize: nat, d: seq<seq<bv8>>, before: seq<seq<bv8>>, p: seq<seq<bv8>>)
    requires |c.parityBms| == c.m && |d| == c.k && |before| == |p| == c.m
    requires (forall i :: 0 <= i < c.k ==> |d[i]| == blocksize) && forall j :: 0 <= j < c.m ==> |before[j]| == blocksize
    requires forall j :: 0 <= j < c.m ==> p[j] == Added(before[j], c.parityBms[j], d, c.k)
    ensures IsXorCodeword(c, blocksize, d + p) <==> forall j :: 0 <= j < c.m ==> before[j] == ZeroBlock(blocksize)
  {
    hide Added, ParityOf, ZeroBlock;
    forall j | 0 <= j < c.m ensures |p[j]| == blocksize && (p[j] == ParityOf(c.parityBms[j], d, blocksize) <==> before[j] == ZeroBlock(blocksize)) {
      AddedIsParity(before[j], c.parityBms[j], d);
    }
    hide IsXorCodeword;
    CodewordParts(c, blocksize, d, p);
  }
}
