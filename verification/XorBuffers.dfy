/** Filling one buffer of an XOR stripe from the others. */
module XorBuffers {
  import opened Bytes
  import opened Bitmaps
  import opened Mds
  import opened Regions
  import opened XorCode
  import opened XorRepair

  /** The known ones of the fragments d and p are as stored. */
  ghost predicate Holds(c: XorCode, d: seq<seq<bv8>>, p: seq<seq<bv8>>, orig: seq<seq<bv8>>, known: set<nat>) {
    && |d| == c.k && |p| == c.m && |orig| == c.k + c.m
    && (forall i :: 0 <= i < c.k && i in known ==> d[i] == orig[i])
    && (forall j :: 0 <= j < c.m && c.k + j in known ==> p[j] == orig[c.k + j])
  }

  /** The buffers of the listed fragments, the first of which has index base. */
  ghost function Targets(bufs: seq<array<bv8>>, l: seq<nat>, base: nat): (s: seq<array<bv8>>)
    requires forall i :: 0 <= i < |l| ==> base <= l[i] < base + |bufs|
    ensures |s| == |l| && forall i :: 0 <= i < |l| ==> s[i] == bufs[l[i] - base]
    ensures Distinct(bufs) && Distinct(l) ==> Distinct(s)
  {
    seq(|l|, i requires 0 <= i < |l| => bufs[l[i] - base])
  }

  /** The list is none of the buffers. */
  ghost predicate Apart(list: array?<int>, bufs: seq<array<bv8>>) {
    forall i :: 0 <= i < |bufs| ==> bufs[i] as object != list
  }

  // ----- exclusive ors of named buffers

  lemma {:induction false} XorRowWithout(bm: bv32, col: seq<bv8>, d: nat, n: nat)
    requires d < |col| && n <= |col|
    ensures XorRow(bm, col, n) == XorByte(XorRow(bm, col[d := 0], n), if d < n && Bit(bm, d) then col[d] else 0)
  {
    hide XorByte, Bit;
    if n == 0 {
      XorByteZero(0);
    } else {
      XorRowWithout(bm, col, d, n - 1);
      var rest, x := XorRow(bm, col[d := 0], n - 1), if Bit(bm, n - 1) then col[n - 1] else 0;
      XorByteZero(rest);
      XorByteSwap(rest, if d < n - 1 && Bit(bm, d) then col[d] else 0, x);
      XorByteZero(XorByte(rest, x));
    }
  }

  lemma {:induction false} XorRowSum(a: bv32, b: bv32, col: seq<bv8>, n: nat)
    requires n <= |col|
    ensures XorRow(Xor32(a, b), col, n) == XorByte(XorRow(a, col, n), XorRow(b, col, n))
  {
    hide XorByte, Xor32, Bit;
    if n == 0 {
      XorByteZero(0);
    } else {
      XorRowSum(a, b, col, n - 1);
      BitXor(a, b, n - 1);
      var s, t := XorRow(a, col, n - 1), XorRow(b, col, n - 1);
      var u, v := if Bit(a, n - 1) then col[n - 1] else 0, if Bit(b, n - 1) then col[n - 1] else 0;
      XorByteZero(col[n - 1]);
      XorByteZero(0);
      FourBytes(s, u, t, v);
    }
  }

  lemma FourBytes(s: bv8, u: bv8, t: bv8, v: bv8)
    ensures XorByte(XorByte(s, u), XorByte(t, v)) == XorByte(XorByte(s, t), XorByte(u, v))
  {
    hide XorByte;
    XorByteAssoc(XorByte(s, u), t, v);
    XorByteSwap(s, u, t);
    XorByteAssoc(XorByte(s, t), u, v);
  }

  lemma {:induction false} XorRowAgree(bm: bv32, col: seq<bv8>, col': seq<bv8>, n: nat)
    requires n <= |col| == |col'| && forall i :: 0 <= i < n && Bit(bm, i) ==> col[i] == col'[i]
    ensures XorRow(bm, col, n) == XorRow(bm, col', n)
  {
    hide XorByte, Bit;
    if n > 0 { XorRowAgree(bm, col, col', n - 1); }
  }

  /** Taking every other named buffer out of a parity leaves the one named buffer that is not known. */
  lemma AddedRecovers(bm: bv32, o: seq<seq<bv8>>, d: nat, blocksize: nat)
    requires d < |o| && Bit(bm, d) && forall i :: 0 <= i < |o| ==> |o[i]| == blocksize
    ensures Added(ParityOf(bm, o, blocksize), bm, o[d := ZeroBlock(blocksize)], |o|) == o[d]
  {
    hide XorByte, Bit, XorRow;
    var e := o[d := ZeroBlock(blocksize)];
    var r := Added(ParityOf(bm, o, blocksize), bm, e, |o|);
    forall x | 0 <= x < blocksize ensures r[x] == o[d][x] {
      var col := ByteColumn(o, x);
      assert ByteColumn(e, x) == col[d := 0];
      var row := XorRow(bm, col[d := 0], |o|);
      XorRowWithout(bm, col, d, |o|);
      XorByteComm(row, col[d]);
      XorByteAssoc(col[d], row, row);
      XorByteZero(row);
      XorByteZero(col[d]);
    }
  }

  /** The sum of two parities is the parity of the sum of their bitmaps. */
  lemma ParitySum(a: bv32, b: bv32, o: seq<seq<bv8>>, blocksize: nat, s: seq<bv8>)
    requires forall i :: 0 <= i < |o| ==> |o[i]| == blocksize
    requires |s| == blocksize
    requires forall x :: 0 <= x < blocksize ==> s[x] == XorByte(ParityOf(a, o, blocksize)[x], ParityOf(b, o, blocksize)[x])
    ensures s == ParityOf(Xor32(a, b), o, blocksize)
  {
    hide XorByte, Xor32, XorRow, ParityOf;
    forall x | 0 <= x < blocksize ensures s[x] == ParityOf(Xor32(a, b), o, blocksize)[x] {
      XorRowSum(a, b, ByteColumn(o, x), |o|);
    }
  }

  /** Only the named buffers matter. */
  lemma AddedAgrees(start: seq<bv8>, bm: bv32, d: seq<seq<bv8>>, d': seq<seq<bv8>>, n: nat)
    requires n <= |d| == |d'| && forall i :: 0 <= i < |d| ==> |d[i]| == |start| == |d'[i]|
    requires forall i :: 0 <= i < n && Bit(bm, i) ==> d[i] == d'[i]
    ensures Added(start, bm, d, n) == Added(start, bm, d', n)
  {
    hide XorByte, Bit, XorRow;
    forall x | 0 <= x < |start| ensures Added(start, bm, d, n)[x] == Added(start, bm, d', n)[x] {
      XorRowAgree(bm, ByteColumn(d, x), ByteColumn(d', x), n);
    }
  }

  // ----- the loops

  lemma RecoverStep(start: seq<bv8>, bm: bv32, o: seq<seq<bv8>>, d: nat, i: nat)
    requires d < |o| && i < |o| && forall l :: 0 <= l < |o| ==> |o[l]| == |start|
    requires i == d ==> o[i] == ZeroBlock(|start|)
    ensures i == d || !Bit(bm, i) ==> Added(start, bm, o, i + 1) == Added(start, bm, o, i)
  {
    hide XorByte, Bit, Added;
    AddedStep(start, bm, o, i);
    if i == d {
      forall x | 0 <= x < |start| ensures Added(start, bm, o, i + 1)[x] == Added(start, bm, o, i)[x] {
        XorByteZero(Added(start, bm, o, i)[x]);
      }
    }
  }

  /** Copies the source into data buffer d and adds the other data buffers that the bitmap names. */
  method RecoverFrom(c: XorCode, data: seq<array<bv8>>, parity: seq<array<bv8>>, src: array<bv8>, bm: bv32, d: nat, blocksize: nat, ghost o: seq<seq<bv8>>)
    requires Sized(c) && Stripe(data, parity, c.k, c.m, blocksize) && d < c.k && src !in data && src.Length == blocksize
    requires |o| == c.k && forall i :: 0 <= i < c.k ==> |o[i]| == blocksize
    requires src[..] == ParityOf(bm, o, blocksize)
    requires Bit(bm, d) && forall i :: 0 <= i < c.k && i != d && Bit(bm, i) ==> data[i][..] == o[i]
    modifies data[d]
    ensures data[d][..] == o[d]
  {
    hide XorByte, Bit, Added, ParityOf;
    ghost var e, start := o[d := ZeroBlock(blocksize)], src[..];
    forall x | 0 <= x < blocksize { data[d][x] := src[x]; }
    assert data[d][..] == start;
    AddedNone(start, bm, e);
    for i := 0 to c.k
      invariant data[d][..] == Added(start, bm, e, i)
      invariant forall l :: 0 <= l < c.k && l != d && Bit(bm, l) ==> data[l][..] == o[l]
    {
      RecoverStep(start, bm, e, d, i);
      if i != d && IsDataInParity(i, bm) {
        AddedStep(start, bm, e, i);
        XorBufsAndStore(data[i], data[d], blocksize);
      }
    }
    AddedRecovers(bm, o, d, blocksize);
  }

  /** A read-only list, terminated by -1. */
  ghost predicate EndsList(a: seq<int>, l: seq<nat>) {
    |l| < |a| && (forall i :: 0 <= i < |l| ==> a[i] == l[i]) && a[|l|] == -1
  }

  /** The listed parities have the data added that their bitmaps name. */
  ghost predicate AddedTo(c: XorCode, after: seq<seq<bv8>>, before: seq<seq<bv8>>, d: seq<seq<bv8>>, mp: seq<nat>, blocksize: nat) {
    && Sized(c) && ParityList(c, mp) && |after| == |before| == |mp| && |d| == c.k
    && (forall x :: 0 <= x < |mp| ==> |before[x]| == blocksize) && (forall i :: 0 <= i < c.k ==> |d[i]| == blocksize)
    && forall x :: 0 <= x < |mp| ==> after[x] == Added(before[x], c.parityBms[mp[x] - c.k], d, c.k)
  }

  /** Adds every data buffer into those listed parity buffers whose bitmap names it. */
  method SelectiveEncode(c: XorCode, data: seq<array<bv8>>, parity: seq<array<bv8>>, missingParity: seq<int>, blocksize: nat, ghost mp: seq<nat>)
    requires Sized(c) && Stripe(data, parity, c.k, c.m, blocksize)
    requires ParityList(c, mp) && EndsList(missingParity, mp)
    modifies Targets(parity, mp, c.k)
    ensures Contents(data) == old(Contents(data))
    ensures AddedTo(c, Contents(Targets(parity, mp, c.k)), old(Contents(Targets(parity, mp, c.k))), Contents(data), mp, blocksize)
  {
    hide Added, Bit, Targets, Named, Contents;
    ghost var d, to := Contents(data), Targets(parity, mp, c.k);
    ghost var start, bms := Contents(to), Named(c, mp);
    forall x | 0 <= x < |mp| ensures to[x][..] == Added(start[x], bms[x], d, 0) {
      AddedNone(start[x], bms[x], d);
    }
    for i := 0 to c.k
      invariant Contents(data) == d
      invariant forall x :: 0 <= x < |mp| ==> to[x][..] == Added(start[x], bms[x], d, i)
    {
      SelectiveColumn(c, data, parity, missingParity, blocksize, i, mp, d, to, start, bms);
    }
  }

  ghost function Named(c: XorCode, mp: seq<nat>): (s: seq<bv32>)
    requires Sized(c) && ParityList(c, mp)
    ensures |s| == |mp| && forall x :: 0 <= x < |mp| ==> s[x] == c.parityBms[mp[x] - c.k]
  {
    seq(|mp|, x requires 0 <= x < |mp| => c.parityBms[mp[x] - c.k])
  }

  method SelectiveColumn(c: XorCode, data: seq<array<bv8>>, parity: seq<array<bv8>>, missingParity: seq<int>, blocksize: nat, i: nat,
      ghost mp: seq<nat>, ghost d: seq<seq<bv8>>, ghost to: seq<array<bv8>>, ghost start: seq<seq<bv8>>, ghost bms: seq<bv32>)
    requires Sized(c) && Stripe(data, parity, c.k, c.m, blocksize) && i < c.k && d == Contents(data)
    requires ParityList(c, mp) && EndsList(missingParity, mp) && to == Targets(parity, mp, c.k) && bms == Named(c, mp)
    requires |start| == |mp| && forall x :: 0 <= x < |mp| ==> |start[x]| == blocksize
    requires forall x :: 0 <= x < |mp| ==> to[x][..] == Added(start[x], bms[x], d, i)
    modifies to
    ensures Contents(data) == d
    ensures forall x :: 0 <= x < |mp| ==> to[x][..] == Added(start[x], bms[x], d, i + 1)
  {
    hide Added, Bit, Targets, Named, Contents;
    var j := 0;
    while missingParity[j] > -1
      invariant 0 <= j <= |mp| && Contents(data) == d
      invariant forall x :: 0 <= x < j ==> to[x][..] == Added(start[x], bms[x], d, i + 1)
      invariant forall x :: j <= x < |mp| ==> to[x][..] == Added(start[x], bms[x], d, i)
      decreases |mp| - j
    {
      var parityIndex := missingParity[j] - c.k;
      assert parity[parityIndex] == to[j];
      AddIfNamed(data[i], parity[parityIndex], blocksize, c.parityBms[parityIndex], d, i, start[j]);
      j := j + 1;
    }
  }
}
