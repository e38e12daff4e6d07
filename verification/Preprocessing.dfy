/** Splitting an object into fragments, sorting fragments by index, and joining them again. */
module Preprocessing {
  import opened Arithmetic
  import opened Bytes
  import opened Erasures

  const EBADHEADER := 207
  const EINSUFFFRAGS := 208

  /** A fragment buffer: the header fields the pipeline uses, and the payload behind the header. */
  class Fragment {
    var idx: int
    var size: int
    var origDataSize: int
    const payload: array<bv8>

    /** A zeroed buffer; the header is filled in later. */
    constructor (bufferSize: nat)
      ensures fresh(payload) && payload.Length == bufferSize
      ensures forall j :: 0 <= j < bufferSize ==> payload[j] == 0
    {
      idx, size, origDataSize := 0, 0, 0;
      payload := new bv8[bufferSize](i => 0);
    }

    method AddMetadata(index: int, origSize: int, blocksize: int)
      modifies this
      ensures idx == index && origDataSize == origSize && size == blocksize
    {
      idx, origDataSize, size := index, origSize, blocksize;
    }
  }

  /** The data length rounded up to a multiple of k words of w bits. */
  function AlignedDataSize(k: nat, w: nat, dataLen: nat): (r: nat)
    requires k >= 1 && w >= 8
  {
    var alignment := k * (w / 8);
    MulAtLeast(k, w / 8);
    ((dataLen + alignment - 1) / alignment) * alignment
  }

  /** The payload size of each fragment of an object. */
  function Blocksize(k: nat, w: nat, dataLen: nat): (b: nat)
    requires k >= 1 && w >= 8
  {
    AlignedDataSize(k, w, dataLen) / k
  }

  /** k blocks hold all of the data, each is a whole number of words, and one word less each would not do. */
  lemma BlocksizeFits(k: nat, w: nat, dataLen: nat)
    requires k >= 1 && w >= 8
    ensures Blocksize(k, w, dataLen) % (w / 8) == 0
    ensures dataLen <= k * Blocksize(k, w, dataLen) < dataLen + k * (w / 8)
  {
    var ws := w / 8;
    var a := k * ws;
    MulAtLeast(k, ws);
    var q := (dataLen + a - 1) / a;
    CeilDiv(dataLen, a, q);
    assert q * a == k * (q * ws) by { assert q * (k * ws) == k * (q * ws); }
    DivUnique(q * a, k, q * ws, 0);
    assert ws * q == q * ws;
    DivUnique(q * ws, ws, q, 0);
  }

  /** The i-th block of the data, padded with zeros. */
  function Block(orig: seq<bv8>, b: nat, i: nat): (r: seq<bv8>)
    ensures |r| == b
  {
    seq(b, j requires 0 <= j < b => if i * b + j < |orig| then orig[i * b + j] else 0)
  }

  /** The data offset after i blocks: i*b, or the end of the data. */
  function Offset(len: nat, b: nat, i: nat): (r: nat)
    ensures r <= len
  {
    if i * b < len then i * b else len
  }

  lemma OffsetStep(len: nat, b: nat, i: nat)
    ensures Offset(len, b, i + 1) == Offset(len, b, i) + (if len - Offset(len, b, i) > b then b else len - Offset(len, b, i))
    ensures Offset(len, b, i) < len ==> Offset(len, b, i) == i * b
  {
    assert (i + 1) * b == i * b + b;
  }

  /** Fragment i of the object: its header and its payload. */
  ghost predicate IsFragment(f: Fragment, i: nat, b: nat, len: nat, payload: seq<bv8>)
    reads f, f.payload
  {
    f.idx == i && f.size == b && f.origDataSize == len && f.payload[..] == payload
  }

  /** All fragments and all payload buffers are different objects. */
  ghost predicate SeparatePieces(data: seq<Fragment>, parity: seq<Fragment>) {
    && (forall i, j :: 0 <= i < j < |data| ==> data[i] != data[j] && data[i].payload != data[j].payload)
    && (forall i, j :: 0 <= i < j < |parity| ==> parity[i] != parity[j] && parity[i].payload != parity[j].payload)
    && (forall i, j :: 0 <= i < |data| && 0 <= j < |parity| ==> data[i] != parity[j] && data[i].payload != parity[j].payload)
  }

  /** Copies the data into k zeroed buffers of one block each; the parity buffers stay zero. */
  method PrepareFragmentsForEncode(k: nat, m: nat, w: nat, origData: seq<bv8>)
    returns (data: seq<Fragment>, parity: seq<Fragment>, blocksize: nat)
    requires k >= 1 && w >= 8
    ensures blocksize == Blocksize(k, w, |origData|)
    ensures |data| == k && |parity| == m
    ensures forall i :: 0 <= i < k ==> data[i].payload[..] == Block(origData, blocksize, i)
    ensures forall i :: 0 <= i < m ==> parity[i].payload.Length == blocksize
    ensures forall i :: 0 <= i < k ==> fresh(data[i]) && fresh(data[i].payload)
    ensures forall i :: 0 <= i < m ==> fresh(parity[i]) && fresh(parity[i].payload)
    ensures SeparatePieces(data, parity)
  {
    var alignedDataLen := AlignedDataSize(k, w, |origData|);
    blocksize := alignedDataLen / k;
    var dataLen, offset := |origData|, 0;
    data, parity := [], [];
    for i := 0 to k
      invariant |data| == i
      invariant offset == Offset(|origData|, blocksize, i) && dataLen == |origData| - offset
      invariant forall j :: 0 <= j < i ==> fresh(data[j]) && fresh(data[j].payload) && data[j].payload[..] == Block(origData, blocksize, j)
      invariant forall j, l :: 0 <= j < l < i ==> data[j] != data[l] && data[j].payload != data[l].payload
    {
      var copySize := if dataLen > blocksize then blocksize else dataLen;
      var fragment := new Fragment(blocksize);
      OffsetStep(|origData|, blocksize, i);
      forall j | 0 <= j < copySize { fragment.payload[j] := origData[offset + j]; }
      assert fragment.payload[..] == Block(origData, blocksize, i);
      data := data + [fragment];
      offset := offset + copySize;
      dataLen := dataLen - copySize;
    }
    for i := 0 to m
      invariant |parity| == i
      invariant forall j :: 0 <= j < i ==> fresh(parity[j]) && fresh(parity[j].payload) && parity[j].payload.Length == blocksize
      invariant forall j, l :: 0 <= j < l < i ==> parity[j] != parity[l] && parity[j].payload != parity[l].payload
      invariant forall j, l :: 0 <= j < k && 0 <= l < i ==> data[j] != parity[l] && data[j].payload != parity[l].payload
      invariant forall j :: 0 <= j < k ==> data[j].payload[..] == Block(origData, blocksize, j)
    {
      var fragment := new Fragment(blocksize);
      parity := parity + [fragment];
    }
  }

  /** The place of a fragment is its index; of several fragments with the same index the last one stays. */
  ghost predicate Placed(k: nat, m: nat, fragments: seq<Fragment>, data: seq<Fragment?>, parity: seq<Fragment?>, n: nat)
    requires n <= |fragments|
    reads set f | f in fragments
  {
    && |data| == k && |parity| == m
    && (forall i :: 0 <= i < k && data[i] != null ==> data[i] in fragments && data[i].idx == i)
    && (forall i :: 0 <= i < m && parity[i] != null ==> parity[i] in fragments && parity[i].idx == k + i)
    && (forall j :: 0 <= j < n ==> 0 <= fragments[j].idx < k + m && Slot(data, parity, fragments[j].idx) != null)
  }

  /** The fragment with index i, if there is one. */
  ghost function Slot(data: seq<Fragment?>, parity: seq<Fragment?>, i: int): Fragment?
    requires 0 <= i < |data| + |parity|
  {
    if i < |data| then data[i] else parity[i - |data|]
  }

  /** Of several fragments with the same index the last one is kept. */
  ghost predicate LastPlaced(k: nat, m: nat, fragments: seq<Fragment>, data: seq<Fragment?>, parity: seq<Fragment?>, n: nat)
    requires n <= |fragments| && Placed(k, m, fragments, data, parity, n)
    reads set f | f in fragments
  {
    forall j :: 0 <= j < n && (forall l :: j < l < n ==> fragments[l].idx != fragments[j].idx) ==>
      Slot(data, parity, fragments[j].idx) == fragments[j]
  }

  method PlaceFragments(k: nat, m: nat, fragments: seq<Fragment>)
    returns (ret: int, data: seq<Fragment?>, parity: seq<Fragment?>)
    ensures ret == if forall i :: 0 <= i < |fragments| ==> 0 <= fragments[i].idx < k + m then 0 else -EBADHEADER
    ensures ret == 0 ==> Placed(k, m, fragments, data, parity, |fragments|) && LastPlaced(k, m, fragments, data, parity, |fragments|)
  {
    hide *;
    data := seq(k, i => null);
    parity := seq(m, i => null);
    PlaceNone(k, m, fragments, data, parity);
    NegativeCode();
    for i := 0 to |fragments|
      invariant |data| == k && |parity| == m && Placed(k, m, fragments, data, parity, i) && LastPlaced(k, m, fragments, data, parity, i)
      invariant forall j :: 0 <= j < i ==> 0 <= fragments[j].idx < k + m
    {
      var index := fragments[i].idx;
      if index < 0 || index >= k + m {
        ret := -EBADHEADER;
        return;
      }
      PlaceOne(k, m, fragments, data, parity, i);
      PlaceLast(k, m, fragments, data, parity, i);
      if index < k {
        data := data[index := fragments[i]];
      } else {
        parity := parity[index - k := fragments[i]];
      }
    }
    ret := 0;
  }

  lemma PlaceNone(k: nat, m: nat, fragments: seq<Fragment>, data: seq<Fragment?>, parity: seq<Fragment?>)
    requires |data| == k && |parity| == m && (forall i :: 0 <= i < k ==> data[i] == null) && forall i :: 0 <= i < m ==> parity[i] == null
    ensures Placed(k, m, fragments, data, parity, 0) && LastPlaced(k, m, fragments, data, parity, 0)
  {
  }

  lemma PlaceOne(k: nat, m: nat, fragments: seq<Fragment>, data: seq<Fragment?>, parity: seq<Fragment?>, n: nat)
    requires n < |fragments| && 0 <= fragments[n].idx < k + m && |data| == k && |parity| == m && Placed(k, m, fragments, data, parity, n)
    ensures var f := fragments[n];
      if f.idx < k then Placed(k, m, fragments, data[f.idx := f], parity, n + 1) else Placed(k, m, fragments, data, parity[f.idx - k := f], n + 1)
  {
  }

  lemma PlaceLast(k: nat, m: nat, fragments: seq<Fragment>, data: seq<Fragment?>, parity: seq<Fragment?>, n: nat)
    requires n < |fragments| && 0 <= fragments[n].idx < k + m && |data| == k && |parity| == m
    requires Placed(k, m, fragments, data, parity, n) && LastPlaced(k, m, fragments, data, parity, n)
    requires var f := fragments[n];
      if f.idx < k then Placed(k, m, fragments, data[f.idx := f], parity, n + 1) else Placed(k, m, fragments, data, parity[f.idx - k := f], n + 1)
    ensures var f := fragments[n];
      if f.idx < k then LastPlaced(k, m, fragments, data[f.idx := f], parity, n + 1)
      else LastPlaced(k, m, fragments, data, parity[f.idx - k := f], n + 1)
  {
    var f := fragments[n];
    var data' := if f.idx < k then data[f.idx := f] else data;
    var parity' := if f.idx < k then parity else parity[f.idx - k := f];
    forall j | 0 <= j < n + 1 && (forall l :: j < l < n + 1 ==> fragments[l].idx != fragments[j].idx)
      ensures Slot(data', parity', fragments[j].idx) == fragments[j]
    {
      if j < n {
        assert fragments[n].idx != fragments[j].idx;
        assert forall l :: j < l < n ==> fragments[l].idx != fragments[j].idx;
        assert Slot(data, parity, fragments[j].idx) == fragments[j];
      }
    }
  }

  /** Appends the empty places of part, counted from base, to an increasing list of empty places below base. */
  method ListEmpty(part: seq<Fragment?>, base: nat, before: seq<int>) returns (missing: seq<int>)
    requires forall j, l :: 0 <= j < l < |before| ==> before[j] < before[l]
    requires forall j :: 0 <= j < |before| ==> 0 <= before[j] < base
    ensures forall j, l :: 0 <= j < l < |missing| ==> missing[j] < missing[l]
    ensures forall j :: 0 <= j < |missing| ==> 0 <= missing[j] < base + |part|
    ensures forall x :: 0 <= x < base ==> (x in missing <==> x in before)
    ensures forall i :: 0 <= i < |part| ==> (base + i in missing <==> part[i] == null)
  {
    missing := before;
    for i := 0 to |part|
      invariant forall j, l :: 0 <= j < l < |missing| ==> missing[j] < missing[l]
      invariant forall j :: 0 <= j < |missing| ==> 0 <= missing[j] < base + i
      invariant forall x :: 0 <= x < base ==> (x in missing <==> x in before)
      invariant forall l :: 0 <= l < i ==> (base + l in missing <==> part[l] == null)
    {
      if part[i] == null {
        missing := missing + [i + base];
      }
    }
  }

  method GetFragmentPartition(k: nat, m: nat, fragments: seq<Fragment>)
    returns (ret: int, data: seq<Fragment?>, parity: seq<Fragment?>, missing: seq<int>)
    ensures ret == if forall i :: 0 <= i < |fragments| ==> 0 <= fragments[i].idx < k + m then 0 else -207
    ensures ret == 0 ==> Placed(k, m, fragments, data, parity, |fragments|) && LastPlaced(k, m, fragments, data, parity, |fragments|)
    ensures ret == 0 ==> MissingList(missing, k + m)
    ensures ret == 0 ==> forall i: nat :: i in Missing(missing) <==> i < k + m && Slot(data, parity, i) == null
  {
    hide *;
    missing := [-1];
    ret, data, parity := PlaceFragments(k, m, fragments);
    NegativeCode();
    if ret < 0 {
      return;
    }
    PlacedLength(k, m, fragments, data, parity);
    missing := ListEmpty(data, 0, []);
    missing := ListEmpty(parity, k, missing);
    EmptySlots(data, parity, missing);
    missing := missing + [-1];
  }

  lemma NegativeCode()
    ensures -EBADHEADER == -207
  {
  }

  lemma PlacedLength(k: nat, m: nat, fragments: seq<Fragment>, data: seq<Fragment?>, parity: seq<Fragment?>)
    ensures Placed(k, m, fragments, data, parity, |fragments|) ==> |data| == k && |parity| == m
  {
  }

  /** An increasing list of the empty places, terminated by -1. */
  lemma EmptySlots(data: seq<Fragment?>, parity: seq<Fragment?>, l: seq<int>)
    requires forall j, i :: 0 <= j < i < |l| ==> l[j] < l[i]
    requires forall j :: 0 <= j < |l| ==> 0 <= l[j] < |data| + |parity|
    requires forall i :: 0 <= i < |data| ==> (i in l <==> data[i] == null)
    requires forall i :: 0 <= i < |parity| ==> (|data| + i in l <==> parity[i] == null)
    ensures MissingList(l + [-1], |data| + |parity|)
    ensures forall i: nat :: i in Missing(l + [-1]) <==> i < |data| + |parity| && Slot(data, parity, i) == null
  {
    MissingMembers(l);
    hide Missing;
    forall i: nat ensures i in l <==> i < |data| + |parity| && Slot(data, parity, i) == null {
      if |data| <= i < |data| + |parity| { assert parity[i - |data|] == Slot(data, parity, i); }
    }
  }

  lemma MissingMembers(l: seq<int>)
    requires forall j :: 0 <= j < |l| ==> l[j] >= 0
    ensures forall i: nat :: i in Missing(l + [-1]) <==> i in l
  {
    forall i: nat ensures i in Missing(l + [-1]) <==> i in l {
      if i in l {
        var j :| 0 <= j < |l| && l[j] == i;
        assert (l + [-1])[j] == i;
      }
    }
  }

  // ----- joining

  /** The chunks one after the other, cut off after len bytes. */
  function Join(chunks: seq<seq<bv8>>, len: nat): (r: seq<bv8>)
    ensures |r| <= len
  {
    if chunks == [] then []
    else
      var last := chunks[|chunks| - 1];
      var front := Join(chunks[..|chunks| - 1], len);
      var left := len - |front|;
      front + last[..if left > |last| then |last| else left]
  }

  function PadTo(s: seq<bv8>, len: nat): (r: seq<bv8>)
    requires |s| <= len
  {
    s + ZeroBlock(len - |s|)
  }

  lemma BlockTake(orig: seq<bv8>, b: nat, n: nat, o: nat, take: nat)
    requires o + take <= |orig| && take <= b && (take > 0 ==> o == n * b)
    ensures Block(orig, b, n)[..take] == orig[o..o + take]
  {
  }

  lemma JoinLast(chunks: seq<seq<bv8>>, len: nat, n: nat)
    requires |chunks| == n + 1
    ensures Join(chunks[..0], len) == []
    ensures var front := Join(chunks[..n], len); var left := len - |front|;
      Join(chunks, len) == front + chunks[n][..if left > |chunks[n]| then |chunks[n]| else left]
  {
  }

  lemma TakeMore(s: seq<bv8>, o: nat, t: nat)
    requires o + t <= |s|
    ensures s[..o] + s[o..o + t] == s[..o + t]
  {
  }

  /** Joining the padded blocks of an object gives the object back. */
  lemma {:induction false} JoinBlocks(orig: seq<bv8>, b: nat, chunks: seq<seq<bv8>>)
    requires forall i :: 0 <= i < |chunks| ==> chunks[i] == Block(orig, b, i)
    ensures Join(chunks, |orig|) == orig[..Offset(|orig|, b, |chunks|)]
  {
    if chunks != [] {
      hide Join, Block, Offset;
      var n := |chunks| - 1;
      JoinBlocks(orig, b, chunks[..n]);
      OffsetStep(|orig|, b, n);
      var o := Offset(|orig|, b, n);
      var left := |orig| - o;
      var take := if left > b then b else left;
      JoinLast(chunks, |orig|, n);
      BlockTake(orig, b, n, o, take);
      TakeMore(orig, o, take);
    }
  }

  lemma OffsetAtEnd(len: nat, b: nat, i: nat)
    requires len <= i * b
    ensures Offset(len, b, i) == len
  {
  }

  lemma JoinAllBlocks(orig: seq<bv8>, b: nat, chunks: seq<seq<bv8>>)
    requires forall i :: 0 <= i < |chunks| ==> chunks[i] == Block(orig, b, i)
    requires |orig| <= |chunks| * b
    ensures PadTo(Join(chunks, |orig|), |orig|) == orig
  {
    hide Block, Join, Offset;
    JoinBlocks(orig, b, chunks);
    OffsetAtEnd(|orig|, b, |chunks|);
    assert orig[..|orig|] == orig;
  }

  /** The k blocks one after the other are the object and zeros behind it. */
  lemma BlocksArePadded(orig: seq<bv8>, b: nat, chunks: seq<seq<bv8>>)
    requires forall i :: 0 <= i < |chunks| ==> chunks[i] == Block(orig, b, i)
    requires |orig| <= |chunks| * b
    ensures Join(chunks, |chunks| * b) == PadTo(orig, |chunks| * b)
  {
    hide Join;
    var n := |chunks|;
    var padded := PadTo(orig, n * b);
    forall i | 0 <= i < n ensures chunks[i] == Block(padded, b, i) {
      MulMono(i + 1, n, b);
      assert (i + 1) * b == i * b + b;
    }
    hide Block, PadTo;
    JoinBlocks(padded, b, chunks);
    OffsetAtEnd(n * b, b, n);
    assert padded[..n * b] == padded;
  }

  ghost predicate GoodHeaders(fragments: seq<Fragment>)
    reads set f | f in fragments
  {
    forall i :: 0 <= i < |fragments| ==>
      fragments[i].idx >= 0 && fragments[i].size >= 0 && fragments[i].origDataSize == fragments[0].origDataSize
  }

  ghost predicate HasIndex(fragments: seq<Fragment>, n: nat, i: int)
    requires n <= |fragments|
    reads set f | f in fragments
  {
    exists j :: 0 <= j < n && fragments[j].idx == i
  }

  /** f is the first of the first n fragments with index i. */
  ghost predicate IsFirst(fragments: seq<Fragment>, n: nat, i: int, f: Fragment)
    requires n <= |fragments|
    reads set f | f in fragments
  {
    exists j :: 0 <= j < n && fragments[j] == f && f.idx == i && forall l :: 0 <= l < j ==> fragments[l].idx != i
  }

  /** data[i] is the first fragment with index i, or null if there is none. */
  ghost predicate FirstByIndex(fragments: seq<Fragment>, n: nat, data: seq<Fragment?>)
    requires n <= |fragments|
    reads set f | f in fragments
  {
    forall i :: 0 <= i < |data| ==>
      if data[i] == null then !HasIndex(fragments, n, i) else IsFirst(fragments, n, i, data[i])
  }

  lemma NoneFirst(fragments: seq<Fragment>, data: seq<Fragment?>)
    requires forall i :: 0 <= i < |data| ==> data[i] == null
    ensures FirstByIndex(fragments, 0, data)
  {
  }

  lemma FirstStep(fragments: seq<Fragment>, n: nat, i: int, f: Fragment?)
    requires n < |fragments|
    requires if f == null then !HasIndex(fragments, n, i) else IsFirst(fragments, n, i, f)
    ensures f != null ==> IsFirst(fragments, n + 1, i, f)
    ensures f == null && fragments[n].idx == i ==> IsFirst(fragments, n + 1, i, fragments[n])
    ensures f == null && fragments[n].idx != i ==> !HasIndex(fragments, n + 1, i)
  {
  }

  ghost function CountPresent(data: seq<Fragment?>): nat {
    if data == [] then 0 else CountPresent(data[..|data| - 1]) + (if data[|data| - 1] == null then 0 else 1)
  }

  lemma {:induction false} CountAll(data: seq<Fragment?>)
    ensures CountPresent(data) <= |data|
    ensures CountPresent(data) == |data| <==> forall i :: 0 <= i < |data| ==> data[i] != null
  {
    if data != [] { CountAll(data[..|data| - 1]); }
  }

  lemma {:induction false} CountUpdate(data: seq<Fragment?>, i: nat, f: Fragment)
    requires i < |data| && data[i] == null
    ensures CountPresent(data[i := f]) == CountPresent(data) + 1
  {
    var n := |data| - 1;
    if i < n {
      CountUpdate(data[..n], i, f);
      assert data[i := f][..n] == data[..n][i := f];
    } else {
      assert data[i := f][..n] == data[..n];
    }
  }

  /** Finds the data fragments; numData counts them. */
  method CollectData(k: nat, fragments: seq<Fragment>) returns (ret: int, data: seq<Fragment?>, numData: nat, origDataSize: int)
    requires |fragments| >= k && forall i :: 0 <= i < |fragments| ==> fragments[i].origDataSize >= 0
    ensures ret == if GoodHeaders(fragments) then 0 else -EBADHEADER
    ensures ret == 0 ==> |data| == k && FirstByIndex(fragments, |fragments|, data) && numData == CountPresent(data)
    ensures ret == 0 && |fragments| > 0 ==> origDataSize == fragments[0].origDataSize
  {
    hide IsFirst, HasIndex;
    data := seq(k, i => null);
    assert FirstByIndex(fragments, 0, data) by { NoneFirst(fragments, data); }
    origDataSize, numData := -1, 0;
    CountNone(k);
    for i := 0 to |fragments|
      invariant |data| == k && FirstByIndex(fragments, i, data) && numData == CountPresent(data)
      invariant if i == 0 then origDataSize == -1 else origDataSize == fragments[0].origDataSize
      invariant GoodHeaders(fragments[..i])
    {
      var index := fragments[i].idx;
      forall l | 0 <= l < k
        ensures data[l] != null ==> IsFirst(fragments, i + 1, l, data[l])
        ensures data[l] == null && index == l ==> IsFirst(fragments, i + 1, l, fragments[i])
        ensures data[l] == null && index != l ==> !HasIndex(fragments, i + 1, l)
      {
        FirstStep(fragments, i, l, data[l]);
      }
      if index < 0 || fragments[i].size < 0 {
        ret := -EBADHEADER;
        return;
      }
      if origDataSize < 0 {
        origDataSize := fragments[i].origDataSize;
      } else if fragments[i].origDataSize != origDataSize {
        ret := -EBADHEADER;
        return;
      }
      if index < k && data[index] == null {
        CountUpdate(data, index, fragments[i]);
        data := data[index := fragments[i]];
        numData := numData + 1;
      }
    }
    assert fragments[..|fragments|] == fragments;
    ret := 0;
  }

  lemma {:induction false} CountNone(k: nat)
    ensures CountPresent(seq(k, i => null)) == 0
  {
    if k > 0 {
      CountNone(k - 1);
      var s: seq<Fragment?> := seq(k, i => null);
      assert s[..k - 1] == seq(k - 1, i => null);
    }
  }

  ghost predicate SizesFit(fragments: seq<Fragment>)
    reads set f | f in fragments
  {
    forall i :: 0 <= i < |fragments| ==> fragments[i].size <= fragments[i].payload.Length
  }

  /** The payloads, as many bytes of each as its header says. */
  ghost function Chunks(data: seq<Fragment>): (c: seq<seq<bv8>>)
    requires SizesFit(data) && forall i :: 0 <= i < |data| ==> 0 <= data[i].size
    reads set f | f in data
    reads set f | f in data :: f.payload
    ensures |c| == |data| && forall i :: 0 <= i < |data| ==> c[i] == data[i].payload[..data[i].size]
  {
    if data == [] then [] else
      var last := data[|data| - 1];
      Chunks(data[..|data| - 1]) + [last.payload[..last.size]]
  }

  /** Copies payloads one after the other until len bytes are there; what is not filled stays zero. */
  method JoinPayloads(data: seq<Fragment>, len: nat) returns (out: seq<bv8>)
    requires SizesFit(data) && forall i :: 0 <= i < |data| ==> 0 <= data[i].size
    ensures out == PadTo(Join(Chunks(data), len), len)
  {
    hide Join, Chunks, SizesFit;
    ghost var chunks := Chunks(data);
    JoinNone(chunks, len);
    var payload, left := [], len;
    var i := 0;
    while i < |data| && left > 0
      invariant 0 <= i <= |data|
      invariant payload == Join(chunks[..i], len) && left == len - |payload|
    {
      var fragmentSize := data[i].size;
      var payloadSize := if left > fragmentSize then fragmentSize else left;
      JoinStep(chunks, i, len);
      FitsAt(data, i);
      payload := payload + data[i].payload[..payloadSize];
      left := left - payloadSize;
      i := i + 1;
    }
    JoinFull(chunks, i, len);
    out := payload + ZeroBlock(left);
  }

  lemma FitsAt(data: seq<Fragment>, i: nat)
    requires SizesFit(data) && i < |data|
    ensures data[i].size <= data[i].payload.Length
  {
  }

  lemma JoinNone(chunks: seq<seq<bv8>>, len: nat)
    ensures Join(chunks[..0], len) == []
  {
  }

  lemma JoinStep(chunks: seq<seq<bv8>>, i: nat, len: nat)
    requires i < |chunks|
    ensures Join(chunks[..i + 1], len)
         == Join(chunks[..i], len) + chunks[i][..if len - |Join(chunks[..i], len)| > |chunks[i]| then |chunks[i]| else len - |Join(chunks[..i], len)|]
  {
    assert chunks[..i + 1][..i] == chunks[..i];
  }

  /** Once len bytes are there the rest of the chunks add nothing. */
  lemma {:induction false} JoinFull(chunks: seq<seq<bv8>>, i: nat, len: nat)
    requires i <= |chunks| && (i == |chunks| || |Join(chunks[..i], len)| == len)
    ensures Join(chunks, len) == Join(chunks[..i], len)
  {
    if i == |chunks| {
      assert chunks[..i] == chunks;
    } else {
      var n := |chunks| - 1;
      assert chunks[..n][..i] == chunks[..i];
      JoinFull(chunks[..n], i, len);
    }
  }

  lemma FirstHasIndex(fragments: seq<Fragment>, data: seq<Fragment?>)
    requires FirstByIndex(fragments, |fragments|, data)
    ensures forall i :: 0 <= i < |data| ==> (data[i] != null <==> HasIndex(fragments, |fragments|, i))
    ensures forall i :: 0 <= i < |data| ==> data[i] != null ==> data[i] in fragments && data[i].idx == i
  {
  }

  lemma FoundAll(k: nat, fragments: seq<Fragment>, data: seq<Fragment?>)
    requires |data| == k && FirstByIndex(fragments, |fragments|, data)
    ensures CountPresent(data) == k <==> forall i :: 0 <= i < k ==> HasIndex(fragments, |fragments|, i)
    ensures CountPresent(data) == k ==> forall i :: 0 <= i < k ==> data[i] != null && data[i] in fragments
  {
    hide *;
    CountAll(data);
    FirstHasIndex(fragments, data);
  }

  lemma ChosenFit(fragments: seq<Fragment>, chosen: seq<Fragment>)
    requires SizesFit(fragments) && GoodHeaders(fragments) && forall i :: 0 <= i < |chosen| ==> chosen[i] in fragments
    ensures SizesFit(chosen) && forall i :: 0 <= i < |chosen| ==> 0 <= chosen[i].size
  {
  }

  /** Joins the data payloads if all k data fragments are among the given ones. */
  method FragmentsToString(k: nat, fragments: seq<Fragment>) returns (ret: int, out: seq<bv8>, ghost chosen: seq<Fragment>)
    requires SizesFit(fragments) && forall i :: 0 <= i < |fragments| ==> fragments[i].origDataSize >= 0
    ensures ret == if |fragments| < k then -1
                   else if !GoodHeaders(fragments) then -EBADHEADER
                   else if forall i :: 0 <= i < k ==> HasIndex(fragments, |fragments|, i) then 0
                   else -1
    ensures ret == 0 && |fragments| > 0 ==>
      && |chosen| == k && FirstByIndex(fragments, |fragments|, chosen)
      && SizesFit(chosen) && (forall i :: 0 <= i < k ==> 0 <= chosen[i].size)
      && out == PadTo(Join(Chunks(chosen), fragments[0].origDataSize), fragments[0].origDataSize)
  {
    hide GoodHeaders, FirstByIndex, HasIndex, SizesFit, Chunks, Join, PadTo, CountPresent;
    out, chosen := [], [];
    if |fragments| < k {
      ret := -1;
      return;
    }
    var data, numData, origDataSize;
    ret, data, numData, origDataSize := CollectData(k, fragments);
    if ret != 0 {
      return;
    }
    FoundAll(k, fragments, data);
    if numData != k {
      ret := -1;
      return;
    }
    var found: seq<Fragment> := data;
    chosen := found;
    ChosenFit(fragments, chosen);
    if |fragments| > 0 {
      out := JoinPayloads(found, origDataSize);
    }
    ret := 0;
  }

  /** Replaces each empty place by a new zeroed buffer. */
  method AllocateMissing(part: seq<Fragment?>, bufferSize: nat) returns (full: seq<Fragment>, ghost news: set<object>)
    ensures |full| == |part| && fresh(news)
    ensures forall i :: 0 <= i < |part| ==> if part[i] != null then full[i] == part[i]
              else full[i] in news && full[i].payload in news && full[i].payload[..] == ZeroBlock(bufferSize)
    ensures forall i, j :: 0 <= i < j < |part| && (part[i] == null || part[j] == null) ==>
              full[i] != full[j] && full[i].payload != full[j].payload
  {
    full, news := [], {};
    for i := 0 to |part|
      invariant |full| == i && fresh(news)
      invariant forall j :: 0 <= j < i ==> if part[j] != null then full[j] == part[j]
                else full[j] in news && full[j].payload in news && full[j].payload[..] == ZeroBlock(bufferSize)
      invariant forall j, l :: 0 <= j < l < i && (part[j] == null || part[l] == null) ==>
                full[j] != full[l] && full[j].payload != full[l].payload
    {
      var f := part[i];
      if f == null {
        f := new Fragment(bufferSize);
        assert f.payload[..] == ZeroBlock(bufferSize);
        news := news + {f, f.payload};
      }
      full := full + [f];
    }
  }

  /** The header of the first fragment that is present. */
  method FirstHeader(data: seq<Fragment?>, parity: seq<Fragment?>) returns (origSize: int, payloadSize: int)
    ensures (forall f :: f in data + parity ==> f == null) ==> origSize == -1 && payloadSize == -1
    ensures (exists f :: f in data + parity && f != null) ==>
      exists f :: f in data + parity && f != null && origSize == f.origDataSize && payloadSize == f.size
  {
    origSize, payloadSize := -1, -1;
    for i := 0 to |data|
      invariant origSize == -1 && payloadSize == -1 && forall j :: 0 <= j < i ==> data[j] == null
    {
      if data[i] != null {
        assert data[i] in data + parity;
        return data[i].origDataSize, data[i].size;
      }
    }
    for i := 0 to |parity|
      invariant origSize == -1 && payloadSize == -1 && forall j :: 0 <= j < i ==> parity[j] == null
    {
      if parity[i] != null {
        assert parity[i] in data + parity;
        return parity[i].origDataSize, parity[i].size;
      }
    }
  }
}
