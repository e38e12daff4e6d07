/** Encoding an object into fragments and decoding it from any k of them, with the Reed-Solomon backend. */
module ErasureCode {
  import opened Arithmetic
  import opened Fields
  import opened Vectors
  import opened Bytes
  import opened Polynomials
  import opened Galois16
  import opened Mds
  import opened MatrixOps
  import opened Systematic
  import opened GaloisField
  import opened Regions
  import opened Erasures
  import opened RsCodec
  import opened Preprocessing

  const W: nat := 16

  /** The field elements that the row numbers 0, 1, ..., n-1 are read as. */
  function RowElements(n: nat): (e: seq<bv16>)
    requires n <= 65536
    ensures |e| == n && forall i :: 0 <= i < n ==> e[i] == i as bv16
  {
    seq(n, i requires 0 <= i < n => i as bv16)
  }

  lemma RowElementsDistinct(n: nat)
    requires 1 <= n <= 65536
    ensures Distinct(RowElements(n)) && RowElements(n)[0] == 0
  {
    hide Key;
    var e := RowElements(n);
    forall i, j | 0 <= i < j < n ensures e[i] != e[j] {
      KeyOfNumber(i);
      KeyOfNumber(j);
    }
    assert 0 as bv16 == 0;
  }

  /** The stripe of an object: its padded blocks and their parity. */
  ghost predicate IsStripeOf(gen: Matrix<bv16>, k: nat, m: nat, orig: seq<bv8>, frags: seq<seq<bv8>>) {
    && k >= 1
    && IsCodeword(gen, k, m, Blocksize(k, W, |orig|), frags)
    && forall i :: 0 <= i < k ==> frags[i] == Block(orig, Blocksize(k, W, |orig|), i)
  }

  /** f is one of the fragments of the object. */
  ghost predicate IsPieceOf(f: Fragment, k: nat, m: nat, orig: seq<bv8>, frags: seq<seq<bv8>>)
    requires k >= 1 && |frags| == k + m
    reads f, f.payload
  {
    0 <= f.idx < k + m && IsFragment(f, f.idx, Blocksize(k, W, |orig|), |orig|, frags[f.idx])
  }

  /** Fragments with different indices have different payload buffers. */
  ghost predicate Separate(fs: seq<Fragment>)
    reads set f | f in fs
  {
    forall i, j :: 0 <= i < |fs| && 0 <= j < |fs| && fs[i].idx != fs[j].idx ==> fs[i].payload != fs[j].payload
  }

  class Instance {
    const k: nat
    const m: nat
    const matrix: array2<bv16>

    ghost predicate Valid()
      reads this, matrix
    {
      && k >= 1 && m >= 1
      && matrix.Length0 == k + m && matrix.Length1 == k
      && IsRsGenerator(Rows(matrix), k, m)
      && k + m <= 65536 && IsStandard(Gf16(), RowElements(k + m), Rows(matrix), k, m)
    }

    constructor (k: nat, m: nat, matrix: array2<bv16>)
      requires k >= 1 && m >= 1 && matrix.Length0 == k + m && matrix.Length1 == k
      requires IsRsGenerator(Rows(matrix), k, m) && k + m <= 65536 && IsStandard(Gf16(), RowElements(k + m), Rows(matrix), k, m)
      ensures Valid() && this.k == k && this.m == m && this.matrix == matrix
    {
      this.k, this.m, this.matrix := k, m, matrix;
    }

    /** Refuses more rows than the field has elements. */
    static method Create(k: nat, m: nat) returns (r: Instance?)
      requires k >= 1 && m >= 1
      ensures r == null <==> k + m > 65536
      ensures r != null ==> fresh(r) && fresh(r.matrix) && r.Valid() && r.k == k && r.m == m
    {
      hide Gf16, IsStandard;
      if k + m > 65536 {
        return null;
      }
      Gf16IsField();
      RowElementsDistinct(k + m);
      ZeroElement();
      var matrix := MakeSystematicMatrix(Gf16(), RowElements(k + m), k, m);
      r := new Instance(k, m, matrix);
    }
  }

  /** The format: two instances of the same shape have the same matrix. */
  lemma InstancesAgree(a: Instance, b: Instance)
    requires a.Valid() && b.Valid() && a.k == b.k && a.m == b.m
    ensures Rows(a.matrix) == Rows(b.matrix)
  {
    hide Gf16, IsStandard, IsRsGenerator, Distinct;
    Gf16IsField();
    RowElementsDistinct(a.k + a.m);
    StandardUnique(Gf16(), RowElements(a.k + a.m), Rows(a.matrix), Rows(b.matrix), a.k, a.m);
  }

  /** An entry of the matrix by its row and column numbers. */
  lemma MatrixEntry(inst: Instance, r: nat, j: nat)
    requires inst.Valid() && inst.k <= r < inst.k + inst.m && j < inst.k
    ensures var others := OtherElements(RowElements(inst.k + inst.m), inst.k, j);
      GfMul(Rows(inst.matrix)[r][j], RootProduct(Gf16(), others, inst.k as bv16)) == RootProduct(Gf16(), others, r as bv16)
  {
    hide IsStandard, IsRsGenerator, Distinct, GfMul, Xor, GfInv;
    Gf16IsField();
    RowElementsDistinct(inst.k + inst.m);
    StandardEntry(Gf16(), RowElements(inst.k + inst.m), Rows(inst.matrix), inst.k, inst.m, r, j);
    Gf16Ops(Rows(inst.matrix)[r][j], RootProduct(Gf16(), OtherElements(RowElements(inst.k + inst.m), inst.k, j), inst.k as bv16));
  }

  lemma OneRoot(x: bv16)
    ensures RootProduct(Gf16(), [0], x) == x
  {
    hide Gf16;
    Gf16IsField();
    Gf16Ops(x, 0);
    assert [0][..0] == [];
    assert RootProduct(Gf16(), [0][..0], x) == Gf16().one;
    MulOne(Gf16(), Gf16().Add(x, 0));
    AddZero(Gf16(), x);
  }

  lemma TimesTwo(x: bv16)
    ensures GfMul(x, 2) == Double(x)
  {
    MulPower(x, 1);
    assert Power(1) == 2;
    hide GfMul, Double;
    assert DoubleN(x, 1) == Double(DoubleN(x, 0));
  }

  /** The second column of the shape with two data and three parity fragments: 1, 3/2 and 4/2. */
  lemma SmallFormat(inst: Instance)
    requires inst.Valid() && inst.k == 2 && inst.m == 3
    ensures Rows(inst.matrix)[3][1] == 0x8804 && Rows(inst.matrix)[4][1] == 0x0002
  {
    hide Gf16, GfMul, RootProduct, IsStandard, IsRsGenerator, Double;
    assert OtherElements(RowElements(5), 2, 1) == [0] by { assert 0 as bv16 == 0; }
    MatrixEntry(inst, 3, 1);
    MatrixEntry(inst, 4, 1);
    OneRoot(2);
    OneRoot(3);
    OneRoot(4);
    TimesTwo(Rows(inst.matrix)[3][1]);
    TimesTwo(Rows(inst.matrix)[4][1]);
    Doubles();
    DoubleInjective(Rows(inst.matrix)[3][1], 0x8804);
    DoubleInjective(Rows(inst.matrix)[4][1], 2);
  }

  lemma Doubles()
    ensures Double(0x8804) == 3 && Double(2) == 4
    ensures 2 as bv16 == 2 && 3 as bv16 == 3 && 4 as bv16 == 4
  {
  }

  lemma ZeroElement()
    ensures Gf16().zero == 0
  {
  }

  function Payloads(fs: seq<Fragment>): (p: seq<array<bv8>>)
    ensures |p| == |fs| && forall i :: 0 <= i < |fs| ==> p[i] == fs[i].payload
  {
    seq(|fs|, i requires 0 <= i < |fs| => fs[i].payload)
  }

  /** Writes the headers of fragments base, base + 1, ... of an object. */
  method FinalizeFragments(fs: seq<Fragment>, base: nat, blocksize: nat, len: nat)
    requires forall i, j :: 0 <= i < j < |fs| ==> fs[i] != fs[j]
    modifies fs
    ensures forall i :: 0 <= i < |fs| ==> fs[i].idx == base + i && fs[i].size == blocksize && fs[i].origDataSize == len
  {
    for i := 0 to |fs|
      invariant forall j :: 0 <= j < i ==> fs[j].idx == base + j && fs[j].size == blocksize && fs[j].origDataSize == len
    {
      fs[i].AddMetadata(base + i, len, blocksize);
    }
  }

  /** The fragments without their headers. */
  method EncodePayloads(inst: Instance, origData: seq<bv8>)
    returns (data: seq<Fragment>, parity: seq<Fragment>, blocksize: nat, ghost frags: seq<seq<bv8>>)
    requires inst.Valid()
    ensures blocksize == Blocksize(inst.k, W, |origData|) && IsStripeOf(Rows(inst.matrix), inst.k, inst.m, origData, frags)
    ensures |data| == inst.k && |parity| == inst.m && |frags| == inst.k + inst.m && SeparatePieces(data, parity)
    ensures forall i :: 0 <= i < inst.k ==> fresh(data[i]) && fresh(data[i].payload)
    ensures forall i :: 0 <= i < inst.m ==> fresh(parity[i]) && fresh(parity[i].payload)
    ensures Fragments(Payloads(data), Payloads(parity)) == frags
  {
    hide *;
    InstanceParts(inst);
    WordSize();
    var k, m := inst.k, inst.m;
    BlocksizeIsEven(k, |origData|);
    data, parity, blocksize := PrepareFragmentsForEncode(k, m, W, origData);
    PreparedStripe(data, parity, k, m, blocksize, origData);
    ghost var d := Contents(Payloads(data));
    RsEncode(inst.matrix, Payloads(data), Payloads(parity), k, m, blocksize);
    frags := Fragments(Payloads(data), Payloads(parity));
    EncodedStripe(Rows(inst.matrix), k, m, blocksize, origData, frags, d);
  }

  /** Writes all headers. */
  method WriteHeaders(data: seq<Fragment>, parity: seq<Fragment>, k: nat, m: nat, blocksize: nat, len: nat, ghost frags: seq<seq<bv8>>)
    requires |data| == k && |parity| == m && |frags| == k + m && SeparatePieces(data, parity)
    requires Fragments(Payloads(data), Payloads(parity)) == frags
    modifies data, parity
    ensures forall i :: 0 <= i < k ==> IsFragment(data[i], i, blocksize, len, frags[i])
    ensures forall i :: 0 <= i < m ==> IsFragment(parity[i], k + i, blocksize, len, frags[k + i])
  {
    hide *;
    PiecesDiffer(data, parity);
    PayloadContents(data, parity, frags);
    FinalizeFragments(data, 0, blocksize, len);
    FinalizeFragments(parity, k, blocksize, len);
    forall i | 0 <= i < k ensures IsFragment(data[i], i, blocksize, len, frags[i]) {
      Finished(data[i], i, blocksize, len, frags[i]);
    }
    forall i | 0 <= i < m ensures IsFragment(parity[i], k + i, blocksize, len, frags[k + i]) {
      Finished(parity[i], k + i, blocksize, len, frags[k + i]);
    }
  }

  lemma PiecesDiffer(data: seq<Fragment>, parity: seq<Fragment>)
    requires SeparatePieces(data, parity)
    ensures (forall i, j :: 0 <= i < j < |data| ==> data[i] != data[j]) && (forall i, j :: 0 <= i < j < |parity| ==> parity[i] != parity[j])
    ensures forall i, j :: 0 <= i < |data| && 0 <= j < |parity| ==> data[i] != parity[j]
  {
  }

  lemma PayloadContents(data: seq<Fragment>, parity: seq<Fragment>, frags: seq<seq<bv8>>)
    requires Fragments(Payloads(data), Payloads(parity)) == frags
    ensures |frags| == |data| + |parity|
    ensures forall i :: 0 <= i < |data| ==> data[i].payload[..] == frags[i]
    ensures forall i :: 0 <= i < |parity| ==> parity[i].payload[..] == frags[|data| + i]
  {
    forall i | 0 <= i < |parity| ensures parity[i].payload[..] == frags[|data| + i] { assert Payloads(parity)[i] == parity[i].payload; }
  }

  method Encode(inst: Instance, origData: seq<bv8>)
    returns (data: seq<Fragment>, parity: seq<Fragment>, ghost frags: seq<seq<bv8>>)
    requires inst.Valid()
    ensures |data| == inst.k && |parity| == inst.m && SeparatePieces(data, parity)
    ensures IsStripeOf(Rows(inst.matrix), inst.k, inst.m, origData, frags)
    ensures inst.k + inst.m <= 65536 && IsStandard(Gf16(), RowElements(inst.k + inst.m), Rows(inst.matrix), inst.k, inst.m)
    ensures forall i :: 0 <= i < inst.k ==>
      fresh(data[i]) && fresh(data[i].payload) &&
      IsFragment(data[i], i, Blocksize(inst.k, W, |origData|), |origData|, frags[i])
    ensures forall i :: 0 <= i < inst.m ==>
      fresh(parity[i]) && fresh(parity[i].payload) &&
      IsFragment(parity[i], inst.k + i, Blocksize(inst.k, W, |origData|), |origData|, frags[inst.k + i])
  {
    hide *;
    InstanceParts(inst);
    var blocksize;
    data, parity, blocksize, frags := EncodePayloads(inst, origData);
    WriteHeaders(data, parity, inst.k, inst.m, blocksize, |origData|, frags);
  }

  lemma InstanceParts(inst: Instance)
    requires inst.Valid()
    ensures inst.k >= 1 && inst.m >= 1 && inst.matrix.Length0 == inst.k + inst.m && inst.matrix.Length1 == inst.k
    ensures IsRsGenerator(Rows(inst.matrix), inst.k, inst.m) && inst.k + inst.m <= 65536
    ensures IsStandard(Gf16(), RowElements(inst.k + inst.m), Rows(inst.matrix), inst.k, inst.m)
  {
  }

  lemma PreparedStripe(data: seq<Fragment>, parity: seq<Fragment>, k: nat, m: nat, b: nat, orig: seq<bv8>)
    requires |data| == k && |parity| == m && SeparatePieces(data, parity) && b % 2 == 0
    requires forall i :: 0 <= i < k ==> data[i].payload[..] == Block(orig, b, i)
    requires forall i :: 0 <= i < m ==> parity[i].payload.Length == b
    ensures WordStripe(Payloads(data), Payloads(parity), k, m, b)
    ensures forall i :: 0 <= i < k ==> Contents(Payloads(data))[i] == Block(orig, b, i)
  {
    hide Block;
    forall i | 0 <= i < k ensures data[i].payload.Length == b { assert |data[i].payload[..]| == b; }
  }

  lemma EncodedStripe(gen: Matrix<bv16>, k: nat, m: nat, b: nat, orig: seq<bv8>, frags: seq<seq<bv8>>, d: seq<seq<bv8>>)
    requires k >= 1 && b == Blocksize(k, W, |orig|) && IsCodeword(gen, k, m, b, frags) && |frags| >= k && frags[..k] == d
    requires |d| == k && forall i :: 0 <= i < k ==> d[i] == Block(orig, b, i)
    ensures IsStripeOf(gen, k, m, orig, frags) && |frags| == k + m
  {
    hide Block, Blocksize, WordAt, Dot, Gf16;
    forall i | 0 <= i < k ensures frags[i] == Block(orig, b, i) { assert frags[..k][i] == frags[i]; }
  }

  lemma Finished(f: Fragment, i: nat, b: nat, len: nat, payload: seq<bv8>)
    requires f.idx == i && f.size == b && f.origDataSize == len && f.payload[..] == payload
    ensures IsFragment(f, i, b, len, payload)
  {
  }

  /** The fragments of an object are determined by the object and the matrix. */
  lemma StripeUnique(gen: Matrix<bv16>, k: nat, m: nat, orig: seq<bv8>, frags: seq<seq<bv8>>, frags': seq<seq<bv8>>)
    requires IsStripeOf(gen, k, m, orig, frags) && IsStripeOf(gen, k, m, orig, frags')
    ensures frags == frags'
  {
    hide Gf16, WordAt, Block, Blocksize;
    var b := Blocksize(k, W, |orig|);
    BlocksizeIsEven(k, |orig|);
    assert frags[..k] == frags'[..k];
    forall i | 0 <= i < k + m ensures frags[i] == frags'[i] {
      forall w {:trigger WordAt(frags[i], w)} | 0 <= w < b / 2 ensures WordAt(frags[i], w) == WordAt(frags'[i], w) {}
      SameWords(frags[i], frags'[i]);
    }
  }

  /** What is stored depends on the object and the shape only: any two instances make the same fragments of it. */
  lemma SameFragments(a: Instance, b: Instance, orig: seq<bv8>, frags: seq<seq<bv8>>, frags': seq<seq<bv8>>)
    requires a.Valid() && b.Valid() && a.k == b.k && a.m == b.m
    requires IsStripeOf(Rows(a.matrix), a.k, a.m, orig, frags) && IsStripeOf(Rows(b.matrix), b.k, b.m, orig, frags')
    ensures frags == frags'
  {
    hide *;
    InstancesAgree(a, b);
    StripeUnique(Rows(a.matrix), a.k, a.m, orig, frags, frags');
  }

  // ----- decoding

  /** The indices of the given fragments. */
  ghost function IndexSet(fs: seq<Fragment>): set<nat>
    reads set f | f in fs
  {
    set i | 0 <= i < |fs| && fs[i].idx >= 0 :: fs[i].idx
  }

  ghost predicate PiecesOf(fs: seq<Fragment>, k: nat, m: nat, orig: seq<bv8>, frags: seq<seq<bv8>>)
    requires k >= 1 && |frags| == k + m
    reads set f | f in fs
    reads set f | f in fs :: f.payload
  {
    forall f :: f in fs ==> IsPieceOf(f, k, m, orig, frags)
  }

  /** k data fragments in order join to the object. */
  lemma DataJoins(k: nat, b: nat, orig: seq<bv8>, data: seq<Fragment>)
    requires |data| == k && |orig| <= k * b
    requires forall i :: 0 <= i < k ==> IsFragment(data[i], i, b, |orig|, Block(orig, b, i))
    ensures SizesFit(data) && (forall i :: 0 <= i < k ==> 0 <= data[i].size)
    ensures PadTo(Join(Chunks(data), |orig|), |orig|) == orig
  {
    hide Join, Chunks;
    forall i | 0 <= i < k ensures data[i].size == b == data[i].payload.Length && data[i].payload[..data[i].size] == Block(orig, b, i) {
      assert IsFragment(data[i], i, b, |orig|, Block(orig, b, i));
      assert |data[i].payload[..]| == b;
    }
    hide Block;
    var chunks := Chunks(data);
    JoinAllBlocks(orig, b, chunks);
  }

  /** Every piece has a good header. */
  lemma PiecesHeaders(fs: seq<Fragment>, k: nat, m: nat, orig: seq<bv8>, frags: seq<seq<bv8>>)
    requires k >= 1 && |frags| == k + m && PiecesOf(fs, k, m, orig, frags)
    requires forall i :: 0 <= i < k + m ==> |frags[i]| == Blocksize(k, W, |orig|)
    ensures SizesFit(fs) && GoodHeaders(fs)
    ensures forall i :: 0 <= i < |fs| ==> fs[i].origDataSize == |orig| && 0 <= fs[i].size && 0 <= fs[i].idx < k + m
    ensures forall i :: 0 <= i < |fs| ==> fs[i].payload[..] == frags[fs[i].idx] && fs[i].size == Blocksize(k, W, |orig|)
  {
    hide Blocksize;
    forall i | 0 <= i < |fs|
      ensures fs[i].origDataSize == |orig| && 0 <= fs[i].size <= fs[i].payload.Length && 0 <= fs[i].idx < k + m
      ensures fs[i].payload[..] == frags[fs[i].idx] && fs[i].size == Blocksize(k, W, |orig|)
    {
      assert IsPieceOf(fs[i], k, m, orig, frags);
      assert |fs[i].payload[..]| == |frags[fs[i].idx]|;
    }
  }

  lemma HasIndexInSet(fs: seq<Fragment>, i: nat)
    ensures HasIndex(fs, |fs|, i) <==> i in IndexSet(fs)
  {
  }

  /** The systematic shortcut: fragments of the object that include all k data fragments. */
  method TryShortcut(k: nat, m: nat, fs: seq<Fragment>, ghost orig: seq<bv8>, ghost frags: seq<seq<bv8>>)
    returns (ret: int, out: seq<bv8>)
    requires k >= 1 && |frags| == k + m && |fs| >= k && PiecesOf(fs, k, m, orig, frags)
    requires forall i :: 0 <= i < k + m ==> |frags[i]| == Blocksize(k, W, |orig|)
    requires forall i :: 0 <= i < k ==> frags[i] == Block(orig, Blocksize(k, W, |orig|), i)
    ensures ret == if UpTo(k) <= IndexSet(fs) then 0 else -1
    ensures ret == 0 ==> out == orig
  {
    hide Blocksize, Block, PadTo, Join, Chunks, IndexSet, PiecesOf;
    PiecesHeaders(fs, k, m, orig, frags);
    ghost var b := Blocksize(k, W, |orig|);
    BlocksizeFits(k, W, |orig|);
    forall i: nat | i < k ensures HasIndex(fs, |fs|, i) <==> i in IndexSet(fs) { HasIndexInSet(fs, i); }
    ghost var chosen;
    ret, out, chosen := FragmentsToString(k, fs);
    if ret == 0 {
      forall i | 0 <= i < k ensures IsFragment(chosen[i], i, b, |orig|, Block(orig, b, i)) {
        assert IsFirst(fs, |fs|, i, chosen[i]);
      }
      DataJoins(k, b, orig, chosen);
    }
  }

  lemma PlacedSlot(k: nat, m: nat, fs: seq<Fragment>, data: seq<Fragment?>, parity: seq<Fragment?>, i: nat)
    requires Placed(k, m, fs, data, parity, |fs|) && i < k + m
    ensures Slot(data, parity, i) != null <==> HasIndex(fs, |fs|, i)
  {
    if Slot(data, parity, i) != null {
      var f := Slot(data, parity, i);
      assert f in fs && f.idx == i;
    }
  }

  /** The places filled by a partition are the given indices. */
  lemma PlacedIndices(k: nat, m: nat, fs: seq<Fragment>, data: seq<Fragment?>, parity: seq<Fragment?>)
    requires Placed(k, m, fs, data, parity, |fs|)
    ensures |data| == k && |parity| == m
    ensures forall i: nat :: i < k ==> (data[i] != null <==> i in IndexSet(fs))
    ensures forall i: nat :: i < m ==> (parity[i] != null <==> k + i in IndexSet(fs))
    ensures forall i: nat :: i < k + m ==> (Slot(data, parity, i) != null <==> i in IndexSet(fs))
  {
    assert |data| == k && |parity| == m;
    forall i: nat | i < k + m ensures Slot(data, parity, i) != null <==> i in IndexSet(fs) {
      PlacedSlot(k, m, fs, data, parity, i);
      HasIndexInSet(fs, i);
    }
    hide Placed, IndexSet, HasIndex;
    forall i: nat | i < k ensures data[i] != null <==> i in IndexSet(fs) { assert Slot(data, parity, i) == data[i]; }
    forall i: nat | i < m ensures parity[i] != null <==> k + i in IndexSet(fs) { assert Slot(data, parity, k + i) == parity[i]; }
  }

  /** Fragments of the given list in different places, and new fragments, do not share buffers. */
  method AllocateAll(k: nat, m: nat, fs: seq<Fragment>, data': seq<Fragment?>, parity': seq<Fragment?>, payloadLen: nat)
    returns (data: seq<Fragment>, parity: seq<Fragment>, ghost news: set<object>)
    requires Placed(k, m, fs, data', parity', |fs|) && Separate(fs)
    ensures |data| == k && |parity| == m && SeparatePieces(data, parity) && fresh(news)
    ensures forall i :: 0 <= i < k ==> if data'[i] != null then data[i] == data'[i]
              else data[i] in news && data[i].payload in news && data[i].payload[..] == ZeroBlock(payloadLen)
    ensures forall i :: 0 <= i < m ==> if parity'[i] != null then parity[i] == parity'[i]
              else parity[i] in news && parity[i].payload in news && parity[i].payload[..] == ZeroBlock(payloadLen)
  {
    ghost var news1, news2;
    data, news1 := AllocateMissing(data', payloadLen);
    parity, news2 := AllocateMissing(parity', payloadLen);
    news := news1 + news2;
  }

  lemma PreparedPieces(k: nat, m: nat, fs: seq<Fragment>, data': seq<Fragment?>, parity': seq<Fragment?>, orig: seq<bv8>, frags: seq<seq<bv8>>)
    requires k >= 1 && |frags| == k + m && PiecesOf(fs, k, m, orig, frags)
    requires Placed(k, m, fs, data', parity', |fs|)
    ensures |data'| == k && |parity'| == m
    ensures forall f :: f in data' + parity' && f != null ==> f in fs
    ensures forall i :: 0 <= i < k && data'[i] != null ==> IsFragment(data'[i], i, Blocksize(k, W, |orig|), |orig|, frags[i])
    ensures forall i :: 0 <= i < m && parity'[i] != null ==> IsFragment(parity'[i], k + i, Blocksize(k, W, |orig|), |orig|, frags[k + i])
  {
    hide Blocksize;
    forall i | 0 <= i < k && data'[i] != null ensures IsFragment(data'[i], i, Blocksize(k, W, |orig|), |orig|, frags[i]) {
      assert IsPieceOf(data'[i], k, m, orig, frags);
    }
    forall i | 0 <= i < m && parity'[i] != null ensures IsFragment(parity'[i], k + i, Blocksize(k, W, |orig|), |orig|, frags[k + i]) {
      assert IsPieceOf(parity'[i], k, m, orig, frags);
    }
  }

  /** Sorts the fragments of an object by index and lists the indices that were not given. */
  method PartitionGiven(k: nat, m: nat, fs: seq<Fragment>, ghost orig: seq<bv8>, ghost frags: seq<seq<bv8>>)
    returns (data: seq<Fragment?>, parity: seq<Fragment?>, missing: seq<int>)
    requires k >= 1 && |frags| == k + m && PiecesOf(fs, k, m, orig, frags)
    requires forall i :: 0 <= i < k + m ==> |frags[i]| == Blocksize(k, W, |orig|)
    ensures Placed(k, m, fs, data, parity, |fs|) && |data| == k && |parity| == m
    ensures MissingList(missing, k + m)
    ensures forall i: nat :: i in Missing(missing) <==> i < k + m && i !in IndexSet(fs)
  {
    hide Blocksize, PiecesOf, Missing, MissingList, IndexSet, Placed;
    PiecesHeaders(fs, k, m, orig, frags);
    var ret;
    ret, data, parity, missing := GetFragmentPartition(k, m, fs);
    PlacedIndices(k, m, fs, data, parity);
  }

  /** The sizes in the first header are those of the object. */
  method ReadSizes(k: nat, m: nat, fs: seq<Fragment>, data: seq<Fragment?>, parity: seq<Fragment?>, ghost orig: seq<bv8>, ghost frags: seq<seq<bv8>>)
    returns (origSize: int, blocksize: int)
    requires k >= 1 && |frags| == k + m && |fs| > 0 && PiecesOf(fs, k, m, orig, frags) && Placed(k, m, fs, data, parity, |fs|)
    requires forall i :: 0 <= i < k + m ==> |frags[i]| == Blocksize(k, W, |orig|)
    ensures origSize == |orig| && blocksize == Blocksize(k, W, |orig|)
  {
    hide Blocksize, PiecesOf, Placed;
    PiecesHeaders(fs, k, m, orig, frags);
    origSize, blocksize := FirstHeader(data, parity);
    FirstPlaced(k, m, fs, data, parity);
  }

  lemma FirstPlaced(k: nat, m: nat, fs: seq<Fragment>, data: seq<Fragment?>, parity: seq<Fragment?>)
    requires Placed(k, m, fs, data, parity, |fs|) && |fs| > 0
    ensures exists f :: f in data + parity && f != null
    ensures forall f :: f in data + parity && f != null ==> f in fs
  {
    var f := Slot(data, parity, fs[0].idx);
    assert f in data + parity;
  }

  /** What is held at index i: the given fragment, or a zeroed payload. */
  ghost predicate HeldAt(f: Fragment, i: nat, b: nat, len: nat, frags: seq<seq<bv8>>, given: set<nat>)
    requires i < |frags|
    reads f, f.payload
  {
    if i in given then IsFragment(f, i, b, len, frags[i]) else f.payload[..] == ZeroBlock(b)
  }

  /** What decoding starts from: fragment i where it was given, a zeroed buffer where it was not. */
  method PrepareForDecode(k: nat, m: nat, fs: seq<Fragment>, data': seq<Fragment?>, parity': seq<Fragment?>, b: nat,
      ghost orig: seq<bv8>, ghost frags: seq<seq<bv8>>, ghost given: set<nat>, ghost miss: set<nat>)
    returns (data: seq<Fragment>, parity: seq<Fragment>, ghost news: set<object>)
    requires k >= 1 && |frags| == k + m && PiecesOf(fs, k, m, orig, frags) && Separate(fs)
    requires b == Blocksize(k, W, |orig|) && given == IndexSet(fs) && miss !! given
    requires Placed(k, m, fs, data', parity', |fs|)
    ensures |data| == k && |parity| == m && SeparatePieces(data, parity)
    ensures forall i :: 0 <= i < k ==> HeldAt(data[i], i, b, |orig|, frags, given)
    ensures forall i :: 0 <= i < m ==> HeldAt(parity[i], k + i, b, |orig|, frags, given)
    ensures fresh(news) && LostIn(data, parity, miss, news)
  {
    hide *;
    PlacedIndices(k, m, fs, data', parity');
    PreparedPieces(k, m, fs, data', parity', orig, frags);
    data, parity, news := AllocateAll(k, m, fs, data', parity', b);
    forall i: nat | i < k ensures HeldAt(data[i], i, b, |orig|, frags, given) {
      HeldOf(data'[i], data[i], i, b, |orig|, frags, given);
    }
    forall i: nat | i < m ensures HeldAt(parity[i], k + i, b, |orig|, frags, given) {
      HeldOf(parity'[i], parity[i], k + i, b, |orig|, frags, given);
    }
    LostAreNew(data, parity, k, m, given, miss, news);
  }

  lemma HeldOf(f': Fragment?, f: Fragment, i: nat, b: nat, len: nat, frags: seq<seq<bv8>>, given: set<nat>)
    requires i < |frags| && (f' != null <==> i in given)
    requires if f' != null then f == f' && IsFragment(f, i, b, len, frags[i]) else f.payload[..] == ZeroBlock(b)
    ensures HeldAt(f, i, b, len, frags, given)
  {
  }

  /** The objects that stand in for what was not given are among the new ones. */
  ghost predicate LostIn(data: seq<Fragment>, parity: seq<Fragment>, miss: set<nat>, news: set<object>) {
    && (forall b: array<bv8> :: b in LostSet(Payloads(data), Payloads(parity), miss) ==> b in news)
    && (forall f: Fragment :: f in LostPieces(data, miss) ==> f in news)
    && (forall f: Fragment :: f in LostPieces(parity, Above(miss, |data|)) ==> f in news)
  }

  /** The indices from k on, counted from there. */
  ghost function Above(miss: set<nat>, k: nat): set<nat> {
    set i | i in miss && i >= k :: i - k
  }

  lemma LostAreNew(data: seq<Fragment>, parity: seq<Fragment>, k: nat, m: nat, given: set<nat>, miss: set<nat>, news: set<object>)
    requires |data| == k && |parity| == m && miss !! given
    requires forall i: nat :: i < k && i !in given ==> data[i] in news && data[i].payload in news
    requires forall i: nat :: i < m && k + i !in given ==> parity[i] in news && parity[i].payload in news
    ensures LostIn(data, parity, miss, news)
  {
    var bufs := Payloads(data) + Payloads(parity);
    forall i: nat | i < k + m && i in miss ensures bufs[i] in news {
      if i >= k { assert k + (i - k) !in given && parity[i - k].payload in news; }
    }
  }

  lemma HeldIsGapped(data: seq<Fragment>, parity: seq<Fragment>, k: nat, m: nat, b: nat, len: nat, frags: seq<seq<bv8>>, given: set<nat>)
    requires |data| == k && |parity| == m && |frags| == k + m
    requires forall i :: 0 <= i < k ==> HeldAt(data[i], i, b, len, frags, given)
    requires forall i :: 0 <= i < m ==> HeldAt(parity[i], k + i, b, len, frags, given)
    ensures Fragments(Payloads(data), Payloads(parity)) == Gapped(frags, b, given) && Headed(data, b, len, given)
  {
    var held, g := Fragments(Payloads(data), Payloads(parity)), Gapped(frags, b, given);
    forall i | 0 <= i < k + m ensures held[i] == g[i] {
      if i < k {
        assert HeldAt(data[i], i, b, len, frags, given) && held[i] == Payloads(data)[i][..];
      } else {
        assert HeldAt(parity[i - k], k + (i - k), b, len, frags, given) && held[i] == Payloads(parity)[i - k][..];
      }
    }
  }

  /** The fragments that were given, and zeros in the gaps. */
  ghost function Gapped(frags: seq<seq<bv8>>, b: nat, given: set<nat>): (r: seq<seq<bv8>>)
    ensures |r| == |frags|
    ensures forall i :: 0 <= i < |frags| ==> r[i] == if i in given then frags[i] else ZeroBlock(b)
  {
    seq(|frags|, i requires 0 <= i < |frags| => if i in given then frags[i] else ZeroBlock(b))
  }

  /** What the buffers hold after the backend ran: everything if k different fragments were given; otherwise
      the backend refuses, its wrapper does not look at the answer, and the gaps stay zero. */
  ghost function Recovered(frags: seq<seq<bv8>>, k: nat, b: nat, given: set<nat>): seq<seq<bv8>> {
    if |given| >= k then frags else Gapped(frags, b, given)
  }

  lemma MissingCount(missing: set<nat>, given: set<nat>, n: nat)
    requires given <= UpTo(n) && forall i: nat :: i in missing <==> i < n && i !in given
    ensures |missing| == n - |given|
  {
    assert missing == UpTo(n) - given;
  }

  lemma GapsAreMissing(frags: seq<seq<bv8>>, b: nat, given: set<nat>, missing: set<nat>, held: seq<seq<bv8>>)
    requires held == Gapped(frags, b, given)
    requires forall i: nat :: i in missing <==> i < |frags| && i !in given
    ensures |held| == |frags| && forall i :: 0 <= i < |frags| && i !in missing ==> held[i] == frags[i]
  {
  }

  /** The backend call of the pipeline; its return code is dropped. */
  method RunDecode(matrix: array2<bv16>, data: seq<array<bv8>>, parity: seq<array<bv8>>, k: nat, m: nat, missing: seq<int>, b: nat,
      ghost frags: seq<seq<bv8>>, ghost given: set<nat>)
    requires matrix.Length0 == k + m && matrix.Length1 == k && IsRsGenerator(Rows(matrix), k, m)
    requires WordStripe(data, parity, k, m, b)
    requires MissingList(missing, k + m) && |Missing(missing)| == k + m - |given|
    requires forall i: nat :: i in Missing(missing) <==> i < k + m && i !in given
    requires IsCodeword(Rows(matrix), k, m, b, frags)
    requires Fragments(data, parity) == Gapped(frags, b, given)
    modifies LostSet(data, parity, Missing(missing))
    ensures Fragments(data, parity) == Recovered(frags, k, b, given)
  {
    GapsAreMissing(frags, b, given, Missing(missing), Fragments(data, parity));
    hide IsRsGenerator, WordAt, MissingList, Missing, Gapped, IsCodeword;
    var ret := RsDecode(matrix, data, parity, k, m, missing, b, true, frags);
  }

  ghost function LostPieces(data: seq<Fragment>, miss: set<nat>): set<Fragment> {
    set i: nat | i < |data| && i in miss :: data[i]
  }

  /** The headers of the given fragments are as written at encoding. */
  ghost predicate Headed(data: seq<Fragment>, b: nat, len: nat, given: set<nat>)
    reads set f | f in data
  {
    forall i :: 0 <= i < |data| && i in given ==> data[i].idx == i && data[i].size == b && data[i].origDataSize == len
  }

  /** Writes the headers of the data fragments that were missing. */
  method FillMissingHeaders(data: seq<Fragment>, missing: seq<int>, k: nat, ghost n: nat, origSize: int, blocksize: int)
    requires |data| == k && MissingList(missing, n)
    requires forall i, j :: 0 <= i < j < k ==> data[i] != data[j]
    modifies LostPieces(data, Missing(missing))
    ensures forall i :: 0 <= i < k && i in Missing(missing) ==>
      data[i].idx == i && data[i].origDataSize == origSize && data[i].size == blocksize
  {
    var j := 0;
    while missing[j] >= 0
      invariant 0 <= j < |missing|
      invariant forall l :: 0 <= l < j && missing[l] < k ==>
        data[missing[l]].idx == missing[l] && data[missing[l]].origDataSize == origSize && data[missing[l]].size == blocksize
      decreases |missing| - j
    {
      var missingIdx := missing[j];
      if missingIdx < k {
        assert missingIdx as nat in Missing(missing);
        data[missingIdx].AddMetadata(missingIdx, origSize, blocksize);
      }
      j := j + 1;
    }
    forall i | 0 <= i < k && i in Missing(missing)
      ensures data[i].idx == i && data[i].origDataSize == origSize && data[i].size == blocksize
    {
      var l :| 0 <= l < |missing| - 1 && missing[l] == i;
    }
  }

  method CompleteHeaders(data: seq<Fragment>, ghost parity: seq<Fragment>, k: nat, ghost m: nat, missing: seq<int>, b: nat, origSize: nat,
      ghost contents: seq<seq<bv8>>, ghost given: set<nat>)
    requires |data| == k && |parity| == m && SeparatePieces(data, parity)
    requires MissingList(missing, k + m)
    requires forall i: nat :: i in Missing(missing) <==> i < k + m && i !in given
    requires Fragments(Payloads(data), Payloads(parity)) == contents
    requires Headed(data, b, origSize, given)
    modifies LostPieces(data, Missing(missing))
    ensures Fragments(Payloads(data), Payloads(parity)) == contents
    ensures Headed(data, b, origSize, UpTo(k))
  {
    hide MissingList, Missing;
    FillMissingHeaders(data, missing, k, k + m, origSize, b);
  }

  /** Rebuilds what is missing and joins the data. */
  method DecodeAndJoin(matrix: array2<bv16>, data: seq<Fragment>, parity: seq<Fragment>, k: nat, m: nat, missing: seq<int>, b: nat, origSize: nat,
      ghost frags: seq<seq<bv8>>, ghost given: set<nat>) returns (ret: int, out: seq<bv8>)
    requires k >= 1 && |data| == k && |parity| == m && SeparatePieces(data, parity)
    requires matrix.Length0 == k + m && matrix.Length1 == k && IsRsGenerator(Rows(matrix), k, m)
    requires MissingList(missing, k + m) && |Missing(missing)| == k + m - |given|
    requires forall i: nat :: i in Missing(missing) <==> i < k + m && i !in given
    requires IsCodeword(Rows(matrix), k, m, b, frags) && b % 2 == 0
    requires Fragments(Payloads(data), Payloads(parity)) == Gapped(frags, b, given)
    requires Headed(data, b, origSize, given)
    modifies LostSet(Payloads(data), Payloads(parity), Missing(missing))
    modifies LostPieces(data, Missing(missing))
    ensures |Recovered(frags, k, b, given)| == k + m
    ensures ret == 0 && out == PadTo(Join(Recovered(frags, k, b, given)[..k], origSize), origSize)
  {
    ghost var contents := Recovered(frags, k, b, given);
    RecoveredSizes(frags, k, m, b, given);
    StripeOfPieces(data, parity, k, m, b, frags, given);
    hide MissingList, Missing, IsRsGenerator, IsCodeword, Gapped, Recovered, Join, PadTo, WordStripe, Payloads, Headed, SeparatePieces, LostSet, LostPieces;
    RunDecode(matrix, Payloads(data), Payloads(parity), k, m, missing, b, frags, given);
    CompleteHeaders(data, parity, k, m, missing, b, origSize, contents, given);
    ret, out := JoinRecovered(data, parity, k, m, b, origSize, contents);
  }

  lemma RecoveredSizes(frags: seq<seq<bv8>>, k: nat, m: nat, b: nat, given: set<nat>)
    requires |frags| == k + m && forall i :: 0 <= i < k + m ==> |frags[i]| == b
    ensures |Recovered(frags, k, b, given)| == k + m && forall i :: 0 <= i < k + m ==> |Recovered(frags, k, b, given)[i]| == b
  {
  }

  method JoinRecovered(data: seq<Fragment>, ghost parity: seq<Fragment>, k: nat, ghost m: nat, ghost b: nat, ghost len: nat, ghost contents: seq<seq<bv8>>)
    returns (ret: int, out: seq<bv8>)
    requires k >= 1 && |data| == k && |parity| == m && |contents| == k + m
    requires Headed(data, b, len, UpTo(k)) && forall i :: 0 <= i < k ==> |contents[i]| == b
    requires Fragments(Payloads(data), Payloads(parity)) == contents
    ensures ret == 0 && out == PadTo(Join(contents[..k], len), len)
  {
    hide Headed, UpTo, Join, PadTo, Chunks, FirstByIndex, HasIndex;
    DataHeaders(data, parity, k, m, b, len, contents);
    ghost var chosen;
    ret, out, chosen := FragmentsToString(k, data);
    ChosenChunks(data, parity, k, m, b, len, contents, chosen);
  }

  lemma StripeOfPieces(data: seq<Fragment>, parity: seq<Fragment>, k: nat, m: nat, b: nat, frags: seq<seq<bv8>>, given: set<nat>)
    requires |data| == k && |parity| == m && |frags| == k + m && SeparatePieces(data, parity) && b % 2 == 0
    requires forall i :: 0 <= i < k + m ==> |frags[i]| == b
    requires Fragments(Payloads(data), Payloads(parity)) == Gapped(frags, b, given)
    ensures WordStripe(Payloads(data), Payloads(parity), k, m, b)
  {
    var held := Fragments(Payloads(data), Payloads(parity));
    forall i | 0 <= i < k ensures data[i].payload.Length == b { assert held[i] == Payloads(data)[i][..]; }
    forall i | 0 <= i < m ensures parity[i].payload.Length == b { assert held[k + i] == Payloads(parity)[i][..]; }
  }

  lemma DataHeaders(data: seq<Fragment>, parity: seq<Fragment>, k: nat, m: nat, b: nat, len: nat, contents: seq<seq<bv8>>)
    requires |data| == k && |parity| == m && |contents| == k + m
    requires Headed(data, b, len, UpTo(k)) && forall i :: 0 <= i < k ==> |contents[i]| == b
    requires Fragments(Payloads(data), Payloads(parity)) == contents
    ensures SizesFit(data) && GoodHeaders(data)
    ensures forall i :: 0 <= i < k ==> HasIndex(data, k, i) && data[i].origDataSize == len
  {
    hide UpTo, Headed;
    forall i: nat | i < k ensures data[i].payload.Length == b == data[i].size && data[i].idx == i && data[i].origDataSize == len && HasIndex(data, k, i) {
      HeadedAt(data, b, len, k, i);
      assert contents[i] == Payloads(data)[i][..];
    }
  }

  lemma HeadedAt(data: seq<Fragment>, b: nat, len: nat, k: nat, i: nat)
    requires |data| == k && Headed(data, b, len, UpTo(k)) && i < k
    ensures data[i].idx == i && data[i].size == b && data[i].origDataSize == len
  {
  }

  lemma ChosenChunks(data: seq<Fragment>, parity: seq<Fragment>, k: nat, m: nat, b: nat, len: nat, contents: seq<seq<bv8>>, chosen: seq<Fragment>)
    requires |data| == k && |parity| == m && |contents| == k + m && |chosen| == k
    requires Headed(data, b, len, UpTo(k)) && forall i :: 0 <= i < k ==> |contents[i]| == b
    requires Fragments(Payloads(data), Payloads(parity)) == contents
    requires SizesFit(chosen) && (forall i :: 0 <= i < k ==> 0 <= chosen[i].size) && FirstByIndex(data, k, chosen)
    ensures Chunks(chosen) == contents[..k]
  {
    hide Chunks, Headed, UpTo;
    forall i: nat | i < k ensures data[i].idx == i && data[i].size == b { HeadedAt(data, b, len, k, i); }
    forall i | 0 <= i < k ensures Chunks(chosen)[i] == contents[i] {
      assert IsFirst(data, k, i, chosen[i]);
      assert chosen[i] == data[i];
      assert contents[i] == Payloads(data)[i][..];
      assert |data[i].payload[..]| == b;
    }
  }

  /** The object with zeros for every byte whose block was not given. */
  ghost function WithGaps(orig: seq<bv8>, b: nat, given: set<nat>): (r: seq<bv8>)
    ensures |r| == |orig| && forall j :: 0 <= j < |orig| ==> r[j] == if b > 0 && j / b !in given then 0 else orig[j]
  {
    seq(|orig|, j requires 0 <= j < |orig| => if b > 0 && j / b !in given then 0 else orig[j])
  }

  /** The object if k different fragments were given; otherwise the object with gaps. */
  ghost function Decoded(orig: seq<bv8>, k: nat, b: nat, given: set<nat>): (r: seq<bv8>)
    ensures |r| == |orig|
  {
    if |given| >= k then orig else WithGaps(orig, b, given)
  }

  /** k different fragments were given, or every byte of a block that was not given is zero. */
  ghost predicate Readable(orig: seq<bv8>, k: nat, b: nat, given: set<nat>) {
    |given| >= k || forall j :: 0 <= j < |orig| && b > 0 && j / b !in given ==> orig[j] == 0
  }

  lemma DecodedExactly(orig: seq<bv8>, k: nat, b: nat, given: set<nat>)
    ensures Decoded(orig, k, b, given) == orig <==> Readable(orig, k, b, given)
  {
    var r := Decoded(orig, k, b, given);
    if Readable(orig, k, b, given) {
      assert forall j :: 0 <= j < |orig| ==> r[j] == orig[j];
    }
  }

  lemma BlockOfByte(b: nat, i: nat, t: nat)
    requires t < b
    ensures (i * b + t) / b == i
  {
    DivUnique(i * b + t, b, i, t);
  }

  lemma ByteInBlock(k: nat, b: nat, len: nat, j: nat)
    requires j < len <= k * b && b > 0
    ensures j / b < k && j / b * b <= j
  {
    var d := j / b;
    assert j == d * b + j % b;
    if d >= k { MulMono(k, d, b); }
  }

  /** For objects of a given length decoding is right whatever their bytes exactly if k indices differ or every
      data fragment that holds some of the bytes was given. */
  lemma DecodesEvery(len: nat, k: nat, b: nat, given: set<nat>)
    requires b > 0 && len <= k * b
    ensures (forall orig: seq<bv8> | |orig| == len :: Decoded(orig, k, b, given) == orig)
      <==> |given| >= k || forall d: nat :: d < k && d * b < len ==> d in given
  {
    if |given| < k {
      if d: nat :| d < k && d * b < len && d !in given {
        var orig: seq<bv8> := seq(len, j => 1);
        BlockOfByte(b, d, 0);
        assert Decoded(orig, k, b, given)[d * b] == 0 != orig[d * b];
      } else {
        forall orig: seq<bv8> | |orig| == len ensures Decoded(orig, k, b, given) == orig {
          forall j: nat | j < len ensures j / b in given { ByteInBlock(k, b, len, j); }
          DecodedExactly(orig, k, b, given);
        }
      }
    }
  }

  lemma GapBlock(orig: seq<bv8>, b: nat, i: nat, given: set<nat>)
    ensures Block(WithGaps(orig, b, given), b, i) == if i in given then Block(orig, b, i) else ZeroBlock(b)
  {
    var g, o := Block(WithGaps(orig, b, given), b, i), Block(orig, b, i);
    forall t | 0 <= t < b ensures g[t] == if i in given then o[t] else 0 {
      BlockOfByte(b, i, t);
    }
  }

  lemma IndexSetCard(fs: seq<Fragment>, n: nat)
    requires forall i :: 0 <= i < |fs| ==> 0 <= fs[i].idx < n
    ensures IndexSet(fs) <= UpTo(n)
  {
  }

  lemma RecoveredJoins(orig: seq<bv8>, frags: seq<seq<bv8>>, k: nat, b: nat, given: set<nat>)
    requires k <= |frags| && |orig| <= k * b
    requires forall i :: 0 <= i < k ==> frags[i] == Block(orig, b, i)
    ensures |Recovered(frags, k, b, given)| == |frags|
    ensures PadTo(Join(Recovered(frags, k, b, given)[..k], |orig|), |orig|) == Decoded(orig, k, b, given)
  {
    hide Join, PadTo, Block, WithGaps;
    var chunks := Recovered(frags, k, b, given)[..k];
    if |given| < k {
      forall i: nat | i < k ensures chunks[i] == Block(WithGaps(orig, b, given), b, i) { GapBlock(orig, b, i, given); }
    }
    JoinAllBlocks(Decoded(orig, k, b, given), b, chunks);
  }

  /** Sorts the given fragments, and adds zeroed buffers for the missing ones. */
  method PrepareAll(k: nat, m: nat, fs: seq<Fragment>, payloadLen: nat, ghost orig: seq<bv8>, ghost frags: seq<seq<bv8>>, ghost given: set<nat>)
    returns (data: seq<Fragment>, parity: seq<Fragment>, missing: seq<int>, origSize: nat, blocksize: nat, ghost news: set<object>)
    requires k >= 1 && |frags| == k + m && |fs| > 0 && PiecesOf(fs, k, m, orig, frags) && Separate(fs)
    requires forall i :: 0 <= i < k + m ==> |frags[i]| == Blocksize(k, W, |orig|)
    requires payloadLen == Blocksize(k, W, |orig|) && given == IndexSet(fs)
    ensures |data| == k && |parity| == m && SeparatePieces(data, parity)
    ensures origSize == |orig| && blocksize == payloadLen
    ensures MissingList(missing, k + m)
    ensures forall i: nat :: i in Missing(missing) <==> i < k + m && i !in given
    ensures Fragments(Payloads(data), Payloads(parity)) == Gapped(frags, payloadLen, given) && Headed(data, payloadLen, |orig|, given)
    ensures fresh(news) && LostIn(data, parity, Missing(missing), news)
  {
    hide Blocksize;
    var data', parity';
    PiecesHeaders(fs, k, m, orig, frags);
    hide PiecesOf, IndexSet, Separate, SeparatePieces, Missing, MissingList, Placed, UpTo, Gapped, Headed, LostSet, LostPieces, LostIn;
    data', parity', missing := PartitionGiven(k, m, fs, orig, frags);
    origSize, blocksize := ReadSizes(k, m, fs, data', parity', orig, frags);
    data, parity, news := PrepareForDecode(k, m, fs, data', parity', payloadLen, orig, frags, given, Missing(missing));
    hide HeldAt;
    HeldIsGapped(data, parity, k, m, payloadLen, |orig|, frags, given);
  }

  lemma BlocksizeIsEven(k: nat, len: nat)
    requires k >= 1
    ensures Blocksize(k, W, len) % 2 == 0 && len <= k * Blocksize(k, W, len)
  {
    BlocksizeFits(k, W, len);
  }

  /** Decodes by rebuilding the missing fragments in new buffers. */
  method DecodeMissing(matrix: array2<bv16>, k: nat, m: nat, fs: seq<Fragment>, payloadLen: nat, ghost orig: seq<bv8>, ghost frags: seq<seq<bv8>>)
    returns (ret: int, out: seq<bv8>)
    requires k >= 1 && matrix.Length0 == k + m && matrix.Length1 == k && IsRsGenerator(Rows(matrix), k, m)
    requires |fs| > 0 && IsStripeOf(Rows(matrix), k, m, orig, frags) && PiecesOf(fs, k, m, orig, frags) && Separate(fs)
    requires payloadLen == Blocksize(k, W, |orig|)
    ensures ret == 0 && out == Decoded(orig, k, payloadLen, old(IndexSet(fs)))
  {
    BlocksizeIsEven(k, |orig|);
    ghost var given := IndexSet(fs);
    GivenInRange(fs, k, m, orig, frags);
    hide PiecesOf, IndexSet, Separate, SeparatePieces, Missing, MissingList, UpTo, Gapped, Headed, LostSet, LostPieces, Recovered, Block, Blocksize, IsRsGenerator, WordAt, Decoded, Join, PadTo;
    var data, parity, missing, origSize, blocksize;
    ghost var news;
    data, parity, missing, origSize, blocksize, news := PrepareAll(k, m, fs, payloadLen, orig, frags, given);
    MissingCount(Missing(missing), given, k + m);
    ret, out := DecodeAndJoin(matrix, data, parity, k, m, missing, blocksize, origSize, frags, given);
    RecoveredJoins(orig, frags, k, payloadLen, given);
  }

  lemma GivenInRange(fs: seq<Fragment>, k: nat, m: nat, orig: seq<bv8>, frags: seq<seq<bv8>>)
    requires k >= 1 && |frags| == k + m && PiecesOf(fs, k, m, orig, frags)
    ensures IndexSet(fs) <= UpTo(k + m)
  {
    hide Blocksize;
    forall i | 0 <= i < |fs| ensures 0 <= fs[i].idx < k + m {
      assert IsPieceOf(fs[i], k, m, orig, frags);
    }
    IndexSetCard(fs, k + m);
  }

  /** The systematic shortcut if it applies, the backend otherwise. Writes nothing the caller can see. */
  method Decode(inst: Instance, availableFragments: seq<Fragment>, payloadLen: nat, ghost orig: seq<bv8>, ghost frags: seq<seq<bv8>>)
    returns (ret: int, out: seq<bv8>)
    requires inst.Valid() && IsStripeOf(Rows(inst.matrix), inst.k, inst.m, orig, frags)
    requires PiecesOf(availableFragments, inst.k, inst.m, orig, frags) && Separate(availableFragments)
    requires payloadLen == Blocksize(inst.k, W, |orig|)
    ensures |availableFragments| < inst.k ==> ret == -EINSUFFFRAGS && out == []
    ensures |availableFragments| >= inst.k ==>
      ret == 0 && out == Decoded(orig, inst.k, payloadLen, old(IndexSet(availableFragments)))
  {
    hide Blocksize, IsRsGenerator, IsStandard, WordAt, IndexSet, PiecesOf, Separate, Block;
    var k, m, matrix := inst.k, inst.m, inst.matrix;
    if |availableFragments| < k {
      return -EINSUFFFRAGS, [];
    }
    ret, out := TryShortcut(k, m, availableFragments, orig, frags);
    if ret == 0 {
      SubsetCard(UpTo(k), IndexSet(availableFragments));
      return;
    }
    ret, out := DecodeMissing(matrix, k, m, availableFragments, payloadLen, orig, frags);
  }

  /** The indices picked, each once. */
  ghost function IndicesOf(pick: seq<nat>): set<nat> {
    set i | 0 <= i < |pick| :: pick[i]
  }

  lemma PickedIndices(data: seq<Fragment>, parity: seq<Fragment>, k: nat, m: nat, pick: seq<nat>)
    requires |data| == k && |parity| == m && Indices(pick, k + m)
    requires forall i :: 0 <= i < k ==> data[i].idx == i
    requires forall i :: 0 <= i < m ==> parity[i].idx == k + i
    ensures IndexSet(Select(data + parity, pick)) == IndicesOf(pick)
  {
    var fs := Select(data + parity, pick);
    forall i | 0 <= i < |pick| ensures fs[i].idx == pick[i] {}
    forall x: nat ensures x in IndexSet(fs) <==> x in IndicesOf(pick) {
      if x in IndexSet(fs) { var i :| 0 <= i < |fs| && fs[i].idx == x; assert pick[i] == x; }
      if x in IndicesOf(pick) { var i :| 0 <= i < |pick| && pick[i] == x; assert fs[i].idx == x; }
    }
  }

  lemma PickedPieces(data: seq<Fragment>, parity: seq<Fragment>, k: nat, m: nat, b: nat, pick: seq<nat>, orig: seq<bv8>, frags: seq<seq<bv8>>)
    requires k >= 1 && |data| == k && |parity| == m && |frags| == k + m && Indices(pick, k + m) && SeparatePieces(data, parity)
    requires b == Blocksize(k, W, |orig|)
    requires forall i :: 0 <= i < k ==> IsFragment(data[i], i, b, |orig|, frags[i])
    requires forall i :: 0 <= i < m ==> IsFragment(parity[i], k + i, b, |orig|, frags[k + i])
    ensures PiecesOf(Select(data + parity, pick), k, m, orig, frags) && Separate(Select(data + parity, pick))
  {
    hide Blocksize;
    var fs := Select(data + parity, pick);
    forall f | f in fs ensures IsPieceOf(f, k, m, orig, frags) {
      var i :| 0 <= i < |fs| && fs[i] == f;
      assert f == (data + parity)[pick[i]];
    }
    forall i, j | 0 <= i < |fs| && 0 <= j < |fs| && fs[i].idx != fs[j].idx ensures fs[i].payload != fs[j].payload {
      assert fs[i] == (data + parity)[pick[i]] && fs[j] == (data + parity)[pick[j]];
    }
  }

  lemma StripeSizesOf(gen: Matrix<bv16>, k: nat, m: nat, orig: seq<bv8>, frags: seq<seq<bv8>>)
    requires IsStripeOf(gen, k, m, orig, frags)
    ensures k >= 1 && |frags| == k + m && IsCodeword(gen, k, m, Blocksize(k, W, |orig|), frags)
    ensures forall i :: 0 <= i < k + m ==> |frags[i]| == Blocksize(k, W, |orig|)
  {
    hide Blocksize;
  }

  /** Fragment i of the object is at place i. */
  ghost predicate AllEncoded(all: seq<Fragment>, b: nat, len: nat, frags: seq<seq<bv8>>)
    reads set f | f in all, set f | f in all :: f.payload
  {
    |all| == |frags| && forall i :: 0 <= i < |all| ==> IsFragment(all[i], i, b, len, frags[i])
  }

  lemma EncodedTogether(data: seq<Fragment>, parity: seq<Fragment>, k: nat, m: nat, b: nat, len: nat, frags: seq<seq<bv8>>)
    requires |data| == k && |parity| == m && |frags| == k + m
    requires forall i :: 0 <= i < k ==> IsFragment(data[i], i, b, len, frags[i])
    requires forall i :: 0 <= i < m ==> IsFragment(parity[i], k + i, b, len, frags[k + i])
    ensures AllEncoded(data + parity, b, len, frags)
  {
    var all := data + parity;
    forall i | 0 <= i < k + m ensures IsFragment(all[i], i, b, len, frags[i]) {
      if i >= k { assert IsFragment(parity[i - k], k + (i - k), b, len, frags[k + (i - k)]); }
    }
  }

  /** Encodes an object and picks some of the fragments. */
  method StoreAndPick(k: nat, m: nat, origData: seq<bv8>, pick: seq<nat>)
    returns (inst: Instance, all: seq<Fragment>, fs: seq<Fragment>, ghost frags: seq<seq<bv8>>)
    requires k >= 1 && m >= 1 && k + m <= 65536 && Indices(pick, k + m)
    ensures inst.Valid() && inst.k == k && inst.m == m && IsStripeOf(Rows(inst.matrix), k, m, origData, frags) && |frags| == k + m
    ensures |all| == k + m && fs == Select(all, pick) && forall i :: 0 <= i < k + m ==> fresh(all[i])
    ensures AllEncoded(all, Blocksize(k, W, |origData|), |origData|, frags)
    ensures PiecesOf(fs, k, m, origData, frags) && Separate(fs) && IndexSet(fs) == IndicesOf(pick)
  {
    hide *;
    WordSize();
    inst := Instance.Create(k, m);
    var data, parity;
    data, parity, frags := Encode(inst, origData);
    StripeSizesOf(Rows(inst.matrix), k, m, origData, frags);
    all := data + parity;
    ghost var b := Blocksize(k, W, |origData|);
    EncodedTogether(data, parity, k, m, b, |origData|, frags);
    PickedIndexSet(data, parity, k, m, b, pick, origData, frags);
    fs := Select(all, pick);
    PickedPieces(data, parity, k, m, b, pick, origData, frags);
  }

  lemma PickedIndexSet(data: seq<Fragment>, parity: seq<Fragment>, k: nat, m: nat, b: nat, pick: seq<nat>, orig: seq<bv8>, frags: seq<seq<bv8>>)
    requires |data| == k && |parity| == m && |frags| == k + m && Indices(pick, k + m)
    requires forall i :: 0 <= i < k ==> IsFragment(data[i], i, b, |orig|, frags[i])
    requires forall i :: 0 <= i < m ==> IsFragment(parity[i], k + i, b, |orig|, frags[k + i])
    ensures forall i :: 0 <= i < |pick| ==> pick[i] < |data + parity|
    ensures IndexSet(Select(data + parity, pick)) == IndicesOf(pick)
  {
    hide IndexSet;
    forall i | 0 <= i < m ensures parity[i].idx == k + i { assert IsFragment(parity[i], k + i, b, |orig|, frags[k + i]); }
    PickedIndices(data, parity, k, m, pick);
  }

  lemma EncodedAt(all: seq<Fragment>, b: nat, len: nat, frags: seq<seq<bv8>>, i: nat)
    requires AllEncoded(all, b, len, frags) && i < |all|
    ensures |all| == |frags| && IsFragment(all[i], i, b, len, frags[i]) && all[i].idx == i
  {
  }

  lemma WordSize()
    ensures W == 16
  {
  }

  lemma {:induction false} PickCard(pick: seq<nat>)
    ensures |IndicesOf(pick)| <= |pick|
  {
    if pick != [] {
      var n := |pick| - 1;
      var front := IndicesOf(pick[..n]);
      PickCard(pick[..n]);
      forall x: nat ensures x in IndicesOf(pick) <==> x in front + {pick[n]} {
        if x in front { var i :| 0 <= i < n && pick[..n][i] == x; assert pick[i] == x; }
        if x in IndicesOf(pick) { var i :| 0 <= i < |pick| && pick[i] == x; assert i < n ==> pick[..n][i] == x; }
      }
      assert IndicesOf(pick) == front + {pick[n]};
    }
  }

  /** Encode any object with one instance, keep any fragments, in any order and possibly repeated, and decode them with
      another instance of the same shape. With k of them decoding succeeds, and gives the object back exactly if k indices differ or nothing but zeros is gone with the others. */
  method EncodeLoseDecode(k: nat, m: nat, origData: seq<bv8>, pick: seq<nat>) returns (ret: int, out: seq<bv8>)
    requires k >= 1 && m >= 1 && k + m <= 65536 && Indices(pick, k + m)
    ensures |pick| < k ==> ret == -208 && out == []
    ensures |pick| >= k ==> ret == 0 && out == Decoded(origData, k, Blocksize(k, W, |origData|), IndicesOf(pick))
    ensures |pick| >= k ==> (out == origData <==> Readable(origData, k, Blocksize(k, W, |origData|), IndicesOf(pick)))
    ensures |IndicesOf(pick)| >= k ==> ret == 0 && out == origData
  {
    hide *;
    WordSize();
    var inst, all, fs;
    ghost var frags;
    inst, all, fs, frags := StoreAndPick(k, m, origData, pick);
    PickCard(pick);
    TooFewCode();
    assert |fs| == |pick|;
    var b := Blocksize(k, W, |origData|);
    var reader := Instance.Create(k, m);
    InstancesAgree(inst, reader);
    ret, out := Decode(reader, fs, b, origData, frags);
    DecodedExactly(origData, k, b, IndicesOf(pick));
    EnoughReadable(origData, k, b, IndicesOf(pick));
  }

  lemma TooFewCode()
    ensures -EINSUFFFRAGS == -208
  {
  }

  lemma EnoughReadable(orig: seq<bv8>, k: nat, b: nat, given: set<nat>)
    ensures |given| >= k ==> Readable(orig, k, b, given)
  {
  }

  /** Three bytes in two data fragments, the first of which is given twice: the last byte reads as zero. */
  lemma RepeatedLosesData()
    ensures Decoded([1, 1, 1], 2, Blocksize(2, W, 3), IndicesOf([0, 0])) == [1, 1, 0]
  {
    var given := IndicesOf([0, 0]);
    assert given == {0} by { assert [0, 0][0] == 0; }
    assert Decoded([1, 1, 1], 2, 2, given) == [1, 1, 0];
  }
}
