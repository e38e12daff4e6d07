/** Rebuilding a single fragment of an object, with the Reed-Solomon backend. */
module Reconstruction {
  import opened Arithmetic
  import opened Bytes
  import opened Vectors
  import opened Mds
  import opened MatrixOps
  import opened Systematic
  import opened GaloisField
  import opened Regions
  import opened Erasures
  import opened RsCodec
  import opened Preprocessing
  import opened ErasureCode

  /** The payload that reconstruction delivers: the backend refuses fewer than k different fragments, its wrapper
      does not look at the answer, and the payload stays zero. */
  ghost function Rebuilt(frags: seq<seq<bv8>>, k: nat, b: nat, given: set<nat>, dest: nat): seq<bv8>
    requires dest < |frags|
  {
    if dest in given || |given| >= k then frags[dest] else ZeroBlock(b)
  }

  /** The backend call; its return code is dropped. */
  method RunReconstruct(matrix: array2<bv16>, data: seq<array<bv8>>, parity: seq<array<bv8>>, k: nat, m: nat, missing: seq<int>, dest: nat, b: nat,
      ghost frags: seq<seq<bv8>>, ghost given: set<nat>)
    requires matrix.Length0 == k + m && matrix.Length1 == k && IsRsGenerator(Rows(matrix), k, m)
    requires WordStripe(data, parity, k, m, b) && |frags| == k + m == |data| + |parity|
    requires MissingList(missing, k + m) && |Missing(missing)| == k + m - |given|
    requires forall i: nat :: i in Missing(missing) <==> i < k + m && i !in given
    requires dest < k + m && dest !in given
    requires IsCodeword(Rows(matrix), k, m, b, frags)
    requires Fragments(data, parity) == Gapped(frags, b, given)
    modifies (data + parity)[dest]
    ensures (data + parity)[dest][..] == Rebuilt(frags, k, b, given, dest)
  {
    GapsAreMissing(frags, b, given, Missing(missing), Fragments(data, parity));
    FragmentIs(data, parity, dest);
    hide IsRsGenerator, WordAt, MissingList, Missing, Gapped, IsCodeword, Fragments;
    var ret := RsReconstruct(matrix, data, parity, k, m, missing, dest, b, frags);
  }

  lemma FragmentIs(data: seq<array<bv8>>, parity: seq<array<bv8>>, i: nat)
    requires i < |data| + |parity|
    ensures Fragments(data, parity)[i] == (data + parity)[i][..]
  {
  }

  lemma PayloadAt(data: seq<Fragment>, parity: seq<Fragment>, i: nat)
    requires i < |data| + |parity|
    ensures (Payloads(data) + Payloads(parity))[i] == (data + parity)[i].payload
  {
  }

  /** Rebuilds the fragment in its new buffer and writes its header. */
  method RebuildInPlace(matrix: array2<bv16>, data: seq<Fragment>, parity: seq<Fragment>, k: nat, m: nat, missing: seq<int>, dest: nat, b: nat, origSize: nat,
      ghost frags: seq<seq<bv8>>, ghost given: set<nat>)
    requires k >= 1 && |data| == k && |parity| == m && SeparatePieces(data, parity)
    requires matrix.Length0 == k + m && matrix.Length1 == k && IsRsGenerator(Rows(matrix), k, m)
    requires MissingList(missing, k + m) && |Missing(missing)| == k + m - |given|
    requires forall i: nat :: i in Missing(missing) <==> i < k + m && i !in given
    requires dest < k + m && dest !in given
    requires IsCodeword(Rows(matrix), k, m, b, frags) && b % 2 == 0
    requires Fragments(Payloads(data), Payloads(parity)) == Gapped(frags, b, given)
    modifies (Payloads(data) + Payloads(parity))[dest], (data + parity)[dest]
    ensures |frags| == k + m && IsFragment((data + parity)[dest], dest, b, origSize, Rebuilt(frags, k, b, given, dest))
  {
    hide *;
    CodewordParts(Rows(matrix), k, m, b, frags);
    StripeOfPieces(data, parity, k, m, b, frags, given);
    PayloadAt(data, parity, dest);
    RunReconstruct(matrix, Payloads(data), Payloads(parity), k, m, missing, dest, b, frags, given);
    var rebuilt := if dest < k then data[dest] else parity[dest - k];
    rebuilt.AddMetadata(dest, origSize, b);
    Finished(rebuilt, dest, b, origSize, Rebuilt(frags, k, b, given, dest));
  }

  /** Copies a whole fragment, header and payload. */
  method CopyFragment(from: Fragment, to: Fragment)
    requires from != to && from.payload != to.payload && from.payload.Length == to.payload.Length
    modifies to, to.payload
    ensures to.idx == from.idx && to.size == from.size && to.origDataSize == from.origDataSize && to.payload[..] == from.payload[..]
  {
    to.idx, to.size, to.origDataSize := from.idx, from.size, from.origDataSize;
    forall i | 0 <= i < to.payload.Length { to.payload[i] := from.payload[i]; }
  }

  /** Whether an index is in a -1 terminated list. */
  method DestinationMissing(missing: seq<int>, dest: nat, ghost n: nat) returns (r: bool)
    requires MissingList(missing, n)
    ensures r <==> dest in Missing(missing)
  {
    r := false;
    var i := 0;
    while missing[i] > -1
      invariant 0 <= i < |missing| && (r <==> exists j :: 0 <= j < i && missing[j] == dest)
      decreases |missing| - i
    {
      if missing[i] == dest {
        r := true;
      }
      i := i + 1;
    }
  }

  /** The buffer of a fragment that was not given is new. */
  lemma MissingIsNew(data: seq<Fragment>, parity: seq<Fragment>, k: nat, m: nat, miss: set<nat>, news: set<object>, dest: nat)
    requires |data| == k && |parity| == m && LostIn(data, parity, miss, news) && dest < k + m && dest in miss
    ensures (data + parity)[dest] in news && (Payloads(data) + Payloads(parity))[dest] in news
  {
    var f := (data + parity)[dest];
    if dest < k {
      assert f in LostPieces(data, miss);
    } else {
      assert dest - k in Above(miss, k);
      assert f in LostPieces(parity, Above(miss, k));
    }
    assert (Payloads(data) + Payloads(parity))[dest] in LostSet(Payloads(data), Payloads(parity), miss);
  }

  /** The given fragment with that index. */
  lemma GivenPiece(k: nat, m: nat, fs: seq<Fragment>, data: seq<Fragment?>, parity: seq<Fragment?>, orig: seq<bv8>, frags: seq<seq<bv8>>, dest: nat)
    requires k >= 1 && |frags| == k + m && PiecesOf(fs, k, m, orig, frags) && Placed(k, m, fs, data, parity, |fs|)
    requires dest in IndexSet(fs) && dest < k + m == |data| + |parity|
    ensures var f := Slot(data, parity, dest); f != null && f in fs && IsFragment(f, dest, Blocksize(k, W, |orig|), |orig|, frags[dest])
  {
    hide Blocksize;
    PlacedIndices(k, m, fs, data, parity);
    PreparedPieces(k, m, fs, data, parity, orig, frags);
    var f := Slot(data, parity, dest);
    assert f in data + parity;
    if dest >= k { assert f == parity[dest - k] && k + (dest - k) == dest; }
  }

  /** Copies the given fragment with index dest. */
  method CopyGiven(k: nat, m: nat, fs: seq<Fragment>, data: seq<Fragment?>, parity: seq<Fragment?>, dest: nat, out: Fragment, b: nat,
      ghost orig: seq<bv8>, ghost frags: seq<seq<bv8>>)
    requires k >= 1 && |frags| == k + m && PiecesOf(fs, k, m, orig, frags) && Placed(k, m, fs, data, parity, |fs|)
    requires dest in IndexSet(fs) && dest < k + m && |data| == k && |parity| == m
    requires b == Blocksize(k, W, |orig|) == out.payload.Length && |frags[dest]| == b
    requires out !in fs && forall f :: f in fs ==> f.payload != out.payload
    modifies out, out.payload
    ensures IsFragment(out, dest, b, |orig|, frags[dest])
  {
    GivenPiece(k, m, fs, data, parity, orig, frags, dest);
    var from := if dest < k then data[dest] else parity[dest - k];
    assert |from.payload[..]| == b;
    hide *;
    CopyFragment(from, out);
  }

  /** Prepares the buffers, rebuilds the fragment in its own and copies it. */
  method RebuildMissing(matrix: array2<bv16>, k: nat, m: nat, fs: seq<Fragment>, data': seq<Fragment?>, parity': seq<Fragment?>, missing: seq<int>,
      dest: nat, out: Fragment, b: nat, ghost orig: seq<bv8>, ghost frags: seq<seq<bv8>>, ghost given: set<nat>)
    requires k >= 1 && matrix.Length0 == k + m && matrix.Length1 == k && IsRsGenerator(Rows(matrix), k, m)
    requires |fs| > 0 && IsStripeOf(Rows(matrix), k, m, orig, frags) && PiecesOf(fs, k, m, orig, frags) && Separate(fs)
    requires Placed(k, m, fs, data', parity', |fs|) && given == IndexSet(fs) && dest < k + m && dest !in given
    requires MissingList(missing, k + m) && forall i: nat :: i in Missing(missing) <==> i < k + m && i !in given
    requires b == Blocksize(k, W, |orig|) == out.payload.Length
    requires out !in fs && forall f :: f in fs ==> f.payload != out.payload
    modifies out, out.payload
    ensures |frags| == k + m && IsFragment(out, dest, b, |orig|, Rebuilt(frags, k, b, given, dest))
  {
    hide *;
    ghost var rows := Rows(matrix);
    StripeSizesOf(rows, k, m, orig, frags);
    GivenInRange(fs, k, m, orig, frags);
    MissingCount(Missing(missing), given, k + m);
    BlocksizeIsEven(k, |orig|);
    var origSize, blocksize := ReadSizes(k, m, fs, data', parity', orig, frags);
    var data, parity;
    ghost var news;
    data, parity, news := PrepareForDecode(k, m, fs, data', parity', b, orig, frags, given, Missing(missing));
    HeldIsGapped(data, parity, k, m, b, |orig|, frags, given);
    MissingIsNew(data, parity, k, m, Missing(missing), news, dest);
    RebuildInPlace(matrix, data, parity, k, m, missing, dest, b, origSize, frags, given);
    CopyRebuilt(if dest < k then data[dest] else parity[dest - k], out, dest, b, |orig|, Rebuilt(frags, k, b, given, dest));
  }

  method CopyRebuilt(from: Fragment, to: Fragment, ghost i: nat, ghost b: nat, ghost len: nat, ghost payload: seq<bv8>)
    requires IsFragment(from, i, b, len, payload) && from.payload.Length == to.payload.Length && from != to && from.payload != to.payload
    modifies to, to.payload
    ensures IsFragment(to, i, b, len, payload)
  {
    CopyFragment(from, to);
  }

  /** Fills the caller's buffer with fragment dest: a copy if it was given, the rebuilt one otherwise. */
  method ReconstructFragment(inst: Instance, availableFragments: seq<Fragment>, payloadLen: nat, dest: nat, out: Fragment,
      ghost orig: seq<bv8>, ghost frags: seq<seq<bv8>>) returns (ret: int)
    requires inst.Valid() && IsStripeOf(Rows(inst.matrix), inst.k, inst.m, orig, frags) && dest < inst.k + inst.m == |frags|
    requires PiecesOf(availableFragments, inst.k, inst.m, orig, frags) && Separate(availableFragments)
    requires payloadLen == Blocksize(inst.k, W, |orig|) && out.payload.Length == payloadLen
    requires out !in availableFragments && forall f :: f in availableFragments ==> f.payload != out.payload
    modifies out, out.payload
    ensures var given := old(IndexSet(availableFragments));
      if dest !in given && |availableFragments| < inst.k then ret == -EINSUFFFRAGS && unchanged(out) && unchanged(out.payload)
      else ret == 0 && IsFragment(out, dest, payloadLen, |orig|, Rebuilt(frags, inst.k, payloadLen, given, dest))
  {
    var k, m, matrix, fs := inst.k, inst.m, inst.matrix, availableFragments;
    hide *;
    ghost var given := IndexSet(fs);
    InstanceParts(inst);
    StripeSizesOf(Rows(matrix), k, m, orig, frags);
    RebuiltIsGiven(frags, k, payloadLen, given, dest);
    var data, parity, missing;
    data, parity, missing := PartitionGiven(k, m, fs, orig, frags);
    var isMissing := DestinationMissing(missing, dest, k + m);
    if !isMissing {
      CopyGiven(k, m, fs, data, parity, dest, out, payloadLen, orig, frags);
      return 0;
    }
    if |fs| < k {
      return -EINSUFFFRAGS;
    }
    RebuildMissing(matrix, k, m, fs, data, parity, missing, dest, out, payloadLen, orig, frags, given);
    return 0;
  }

  lemma RebuiltIsGiven(frags: seq<seq<bv8>>, k: nat, b: nat, given: set<nat>, dest: nat)
    requires dest < |frags|
    ensures dest in given || |given| >= k ==> Rebuilt(frags, k, b, given, dest) == frags[dest]
  {
  }

  /** Same header and same payload. */
  ghost predicate SameFragment(f: Fragment, g: Fragment)
    reads f, f.payload, g, g.payload
  {
    f.idx == g.idx && f.size == g.size && f.origDataSize == g.origDataSize && f.payload[..] == g.payload[..]
  }

  lemma PickHas(pick: seq<nat>, x: nat)
    ensures x in pick <==> x in IndicesOf(pick)
  {
  }

  /** Encode any object with one instance, keep any fragments, in any order and possibly repeated, and rebuild one with
      another instance of the same shape. With k of them, or the wanted one itself, the call succeeds, and what it delivers is the encoded fragment, header and payload, exactly if k indices
      differ, the wanted one is kept, or its payload is all zeros. */
  method EncodeLoseReconstruct(k: nat, m: nat, origData: seq<bv8>, pick: seq<nat>, dest: nat)
    returns (ret: int, stored: Fragment, rebuilt: Fragment)
    requires k >= 1 && m >= 1 && k + m <= 65536 && Indices(pick, k + m) && dest < k + m
    ensures fresh(stored) && fresh(rebuilt) && stored != rebuilt && stored.idx == dest
    ensures ret == if dest !in pick && |pick| < k then -208 else 0
    ensures ret == 0 ==> (SameFragment(rebuilt, stored) <==>
      dest in pick || |IndicesOf(pick)| >= k || stored.payload[..] == ZeroBlock(Blocksize(k, W, |origData|)))
    ensures ret == 0 && !SameFragment(rebuilt, stored) ==> rebuilt.payload[..] == ZeroBlock(Blocksize(k, W, |origData|))
  {
    hide *;
    WordSize();
    var inst, all, fs;
    ghost var frags;
    inst, all, fs, frags := StoreAndPick(k, m, origData, pick);
    PickHas(pick, dest);
    PickCard(pick);
    assert |fs| == |pick|;
    ghost var given := IndexSet(fs);
    var b := Blocksize(k, W, |origData|);
    stored := all[dest];
    EncodedAt(all, b, |origData|, frags, dest);
    rebuilt := new Fragment(b);
    var reader := Instance.Create(k, m);
    InstancesAgree(inst, reader);
    ret := ReconstructFragment(reader, fs, b, dest, rebuilt, origData, frags);
    TooFewCode();
    if ret == 0 { Compared(rebuilt, stored, k, b, |origData|, frags, given, dest); }
  }

  lemma Compared(rebuilt: Fragment, stored: Fragment, k: nat, b: nat, len: nat, frags: seq<seq<bv8>>, given: set<nat>, dest: nat)
    requires dest < |frags| && IsFragment(stored, dest, b, len, frags[dest])
    requires IsFragment(rebuilt, dest, b, len, Rebuilt(frags, k, b, given, dest))
    ensures SameFragment(rebuilt, stored) <==> dest in given || |given| >= k || stored.payload[..] == ZeroBlock(b)
    ensures !SameFragment(rebuilt, stored) ==> rebuilt.payload[..] == ZeroBlock(b)
  {
  }

  // ----- which requests are answered rightly whatever the object

  function WordByte(v: bv16, low: bool): bv8 { if low then LowByte(v) else HighByte(v) }

  /** The bytes of row g applied to the data words. */
  ghost function RowBytes(g: seq<bv16>, d: seq<seq<bv8>>, b: nat): (r: seq<bv8>)
    requires |g| == |d| && b % 2 == 0 && forall i :: 0 <= i < |d| ==> |d[i]| == b
    ensures |r| == b
    ensures forall x :: 0 <= x < b ==> r[x] == WordByte(Dot(Gf16(), g, WordColumn(d, x / 2), |d|), x % 2 == 0)
  {
    seq(b, x requires 0 <= x < b => WordByte(Dot(Gf16(), g, WordColumn(d, x / 2), |d|), x % 2 == 0))
  }

  lemma RowBytesIs(g: seq<bv16>, d: seq<seq<bv8>>, b: nat)
    requires |g| == |d| && b % 2 == 0 && forall i :: 0 <= i < |d| ==> |d[i]| == b
    ensures IsRowOf(g, d, b, RowBytes(g, d, b))
  {
    hide Gf16, Dot, LowByte, HighByte, MakeWord;
    var r := RowBytes(g, d, b);
    forall w {:trigger WordAt(r, w)} | 0 <= w < b / 2 ensures WordAt(r, w) == Dot(Gf16(), g, WordColumn(d, w), |d|) {
      var v := Dot(Gf16(), g, WordColumn(d, w), |d|);
      assert r[2 * w] == LowByte(v) && r[2 * w + 1] == HighByte(v);
      WordBytes(v);
    }
  }

  /** Every object has a stripe. */
  lemma StripeExists(gen: Matrix<bv16>, k: nat, m: nat, orig: seq<bv8>) returns (frags: seq<seq<bv8>>)
    requires IsRsGenerator(gen, k, m)
    ensures IsStripeOf(gen, k, m, orig, frags)
  {
    hide Blocksize, Block, IsRowOf, RowBytes, Gf16, WordAt;
    var b := Blocksize(k, W, |orig|);
    BlocksizeIsEven(k, |orig|);
    var d := seq(k, i requires 0 <= i < k => Block(orig, b, i));
    var p := seq(m, j requires 0 <= j < m => RowBytes(gen[k..][j], d, b));
    forall j | 0 <= j < m ensures IsRowOf(gen[k..][j], d, b, p[j]) { RowBytesIs(gen[k..][j], d, b); }
    assert forall j :: 0 <= j < m ==> |p[j]| == b;
    hide IsRsGenerator;
    EncodedIsCodeword(gen, k, m, b, d, p);
    frags := d + p;
  }

  /** An object whose first byte is one and whose other bytes are zero. */
  function FirstByteOnly(len: nat): (s: seq<bv8>)
    requires len > 0
    ensures |s| == len && forall j :: 0 <= j < len ==> s[j] == if j == 0 then 1 else 0
  {
    seq(len, j => if j == 0 then 1 else 0)
  }

  lemma OneWord()
    ensures MakeWord(1, 0) == 1
  {
  }

  /** The first word of that object's first block is one, those of the other blocks are zero. */
  lemma FirstWord(b: nat, len: nat, i: nat)
    requires 0 < len && b >= 2
    ensures WordAt(Block(FirstByteOnly(len), b, i), 0) == if i == 0 then 1 else 0
  {
    hide MakeWord;
    OneWord();
    ZeroWord();
    if i > 0 { MulAtLeast(b, i); }
    var s := Block(FirstByteOnly(len), b, i);
    assert i * b == b * i;
    assert s[1] == 0 && s[0] == if i == 0 then 1 else 0;
  }

  lemma FirstWords(k: nat, b: nat, len: nat, d: seq<seq<bv8>>)
    requires 0 < len && k >= 1 && |d| == k && b >= 2
    requires forall i :: 0 <= i < k ==> |d[i]| == b && d[i] == Block(FirstByteOnly(len), b, i)
    ensures WordColumn(d, 0) == Unit(Gf16(), k, 0)
  {
    hide *;
    Gf16Ops(0, 0);
    forall i: nat | i < k ensures WordAt(d[i], 0) == if i == 0 then 1 else 0 { FirstWord(b, len, i); }
  }

  /** No parity of that object is all zeros. */
  lemma ParityNotZero(gen: Matrix<bv16>, k: nat, m: nat, len: nat, frags: seq<seq<bv8>>, dest: nat)
    requires IsRsGenerator(gen, k, m) && 0 < len && k <= dest < k + m
    requires IsStripeOf(gen, k, m, FirstByteOnly(len), frags)
    ensures |frags| == k + m && frags[dest] != ZeroBlock(Blocksize(k, W, len))
  {
    hide Gf16, Blocksize, FirstByteOnly, MakeWord, Dot;
    var b := Blocksize(k, W, len);
    BlocksizeIsEven(k, len);
    PositiveBlock(k, b, len);
    FirstWords(k, b, len, frags[..k]);
    GeneratorOf(gen, k, m);
    DotUnit(Gf16(), Unit(Gf16(), k, 0), gen[dest], k, 0);
    ParityEntriesNonzero(Gf16(), gen, k, dest, 0);
    assert WordAt(frags[dest], 0) == Dot(Gf16(), gen[dest], WordColumn(frags[..k], 0), k);
    Gf16Ops(0, 0);
    ZeroWord();
  }

  lemma PositiveBlock(k: nat, b: nat, len: nat)
    requires 0 < len <= k * b
    ensures b > 0
  {
    assert b == 0 ==> k * b == 0;
  }

  lemma DataNotZero(len: nat, b: nat, i: nat)
    requires b > 0 && i * b < len
    ensures Block(seq(len, j => 1), b, i) != ZeroBlock(b)
  {
    assert Block(seq(len, j => 1), b, i)[0] == 1;
  }

  lemma PastTheEnd(orig: seq<bv8>, b: nat, i: nat)
    requires i * b >= |orig|
    ensures Block(orig, b, i) == ZeroBlock(b)
  {
  }

  /** A stripe of some object of that length whose fragment dest is not all zeros, unless it is one of the data
      fragments past the end. */
  lemma NonzeroFragment(gen: Matrix<bv16>, k: nat, m: nat, len: nat, dest: nat) returns (orig: seq<bv8>, frags: seq<seq<bv8>>)
    requires IsRsGenerator(gen, k, m) && len > 0 && dest < k + m
    requires dest < k ==> dest * Blocksize(k, W, len) < len
    ensures |orig| == len && IsStripeOf(gen, k, m, orig, frags) && |frags| == k + m && frags[dest] != ZeroBlock(Blocksize(k, W, len))
  {
    hide Blocksize, Block, IsRsGenerator, FirstByteOnly, ZeroBlock;
    if dest < k {
      orig := seq(len, j => 1);
      frags := StripeExists(gen, k, m, orig);
      BlocksizeFits(k, W, len);
      var b := Blocksize(k, W, len);
      PositiveBlock(k, b, len);
      DataNotZero(len, b, dest);
    } else {
      orig := FirstByteOnly(len);
      frags := StripeExists(gen, k, m, orig);
      ParityNotZero(gen, k, m, len, frags, dest);
    }
  }

  /** Every stripe of an object of that length has the fragment delivered that it holds. */
  ghost predicate RebuildsEvery(gen: Matrix<bv16>, k: nat, m: nat, len: nat, given: set<nat>, dest: nat)
    requires k >= 1 && dest < k + m
  {
    forall orig: seq<bv8>, frags: seq<seq<bv8>> {:trigger IsStripeOf(gen, k, m, orig, frags)} ::
      |orig| == len && IsStripeOf(gen, k, m, orig, frags) ==> Rebuilt(frags, k, Blocksize(k, W, len), given, dest) == frags[dest]
  }

  /** For objects of a given length a fragment is delivered rightly whatever the bytes exactly if it was given, k indices
      differ, or it is a data fragment past the end. */
  lemma RebuildsExactly(gen: Matrix<bv16>, k: nat, m: nat, len: nat, given: set<nat>, dest: nat)
    requires IsRsGenerator(gen, k, m) && dest < k + m
    ensures RebuildsEvery(gen, k, m, len, given, dest)
      <==> dest in given || |given| >= k || len == 0 || (dest < k && dest * Blocksize(k, W, len) >= len)
  {
    GeneratorOf(gen, k, m);
    hide Blocksize, Block, IsRsGenerator, WordAt;
    var b := Blocksize(k, W, len);
    BlocksizeFits(k, W, len);
    if dest !in given && |given| < k {
      if len > 0 && (dest < k ==> dest * b < len) {
        var orig, frags := NonzeroFragment(gen, k, m, len, dest);
        assert IsStripeOf(gen, k, m, orig, frags) && Rebuilt(frags, k, b, given, dest) != frags[dest];
      } else {
        forall orig: seq<bv8>, frags: seq<seq<bv8>> {:trigger IsStripeOf(gen, k, m, orig, frags)} | |orig| == len && IsStripeOf(gen, k, m, orig, frags)
          ensures Rebuilt(frags, k, b, given, dest) == frags[dest]
        {
          StripeSizesOf(gen, k, m, orig, frags);
          if len == 0 { EmptyBlocks(k, b); } else { PastTheEnd(orig, b, dest); }
          assert len == 0 ==> |frags[dest]| == 0;
        }
      }
    }
  }

  lemma EmptyBlocks(k: nat, b: nat)
    requires k >= 1 && k * b < k * 2 && b % 2 == 0
    ensures b == 0
  {
    MulMono(if b < 2 then b else 2, b, k);
  }

  /** Three bytes in two data fragments, the first of which is given twice: the second is delivered with a zero payload. */
  lemma RepeatedLosesFragment(gen: Matrix<bv16>, frags: seq<seq<bv8>>)
    requires IsStripeOf(gen, 2, 1, [1, 1, 1], frags)
    ensures frags[1] == [1, 0] && Rebuilt(frags, 2, Blocksize(2, W, 3), IndicesOf([0, 0]), 1) == [0, 0]
  {
    assert IndicesOf([0, 0]) == {0} by { assert [0, 0][0] == 0; }
    assert Block([1, 1, 1], 2, 1) == [1, 0];
    assert ZeroBlock(2) == [0, 0];
  }
}
