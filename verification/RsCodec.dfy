/** The built-in Reed-Solomon code: encode, decode and single-fragment reconstruction. */
module RsCodec {
  import opened Fields
  import opened Vectors
  import opened Mds
  import opened MatrixOps
  import opened GaussJordan
  import opened Systematic
  import opened GaloisField
  import opened Regions
  import opened Erasures
  import opened Decoding

  /** The n fragments of one stripe: word w of fragment i is row i of the generator applied to the
      w-th data words. */
  ghost predicate IsCodeword(gen: Matrix<bv16>, k: nat, m: nat, blocksize: nat, frags: seq<seq<bv8>>) {
    && Shape(gen, k + m, k) && |frags| == k + m
    && (forall i :: 0 <= i < k + m ==> |frags[i]| == blocksize)
    && (forall i, w {:trigger WordAt(frags[i], w)} :: 0 <= i < k + m && 0 <= w < blocksize / 2 ==>
          WordAt(frags[i], w) == Dot(Gf16(), gen[i], WordColumn(frags[..k], w), k))
  }

  ghost predicate IsRsGenerator(gen: Matrix<bv16>, k: nat, m: nat) {
    k >= 1 && m >= 1 && IsGenerator(Gf16(), gen, k, m)
  }

  /** Buffers that hold whole words. */
  ghost predicate WordStripe(data: seq<array<bv8>>, parity: seq<array<bv8>>, k: nat, m: nat, blocksize: nat) {
    Stripe(data, parity, k, m, blocksize) && blocksize % 2 == 0
  }

  lemma WordStripeParts(data: seq<array<bv8>>, parity: seq<array<bv8>>, k: nat, m: nat, blocksize: nat)
    requires WordStripe(data, parity, k, m, blocksize)
    ensures |data| == k && |parity| == m && blocksize % 2 == 0 && AllSized(data, blocksize) && AllSized(parity, blocksize)
    ensures Stripe(data, parity, k, m, blocksize)
  {
  }

  lemma CodewordParts(gen: Matrix<bv16>, k: nat, m: nat, blocksize: nat, frags: seq<seq<bv8>>)
    requires IsCodeword(gen, k, m, blocksize, frags)
    ensures Shape(gen, k + m, k) && |frags| == k + m && forall i :: 0 <= i < k + m ==> |frags[i]| == blocksize
  {
  }

  lemma GeneratorOf(gen: Matrix<bv16>, k: nat, m: nat)
    requires IsRsGenerator(gen, k, m)
    ensures k >= 1 && m >= 1 && IsGenerator(Gf16(), gen, k, m) && IsField(Gf16())
  {
    hide Gf16, IsGenerator, IsField;
    Gf16IsField();
  }

  /** The contents of all k + m fragments. */
  ghost function Fragments(data: seq<array<bv8>>, parity: seq<array<bv8>>): (c: seq<seq<bv8>>)
    reads data, parity
    ensures |c| == |data| + |parity|
    ensures forall i :: 0 <= i < |data| ==> c[i] == data[i][..]
    ensures forall i :: |data| <= i < |c| ==> c[i] == parity[i - |data|][..]
    ensures c[..|data|] == Contents(data)
  {
    Contents(data) + Contents(parity)
  }

  /** Data words are the values of the identity rows. */
  lemma DataWords(gen: Matrix<bv16>, k: nat, m: nat, blocksize: nat, frags: seq<seq<bv8>>, i: nat, w: nat)
    requires IsRsGenerator(gen, k, m) && |frags| == k + m && i < k && w < blocksize / 2
    requires forall i :: 0 <= i < k + m ==> |frags[i]| == blocksize
    ensures WordAt(frags[i], w) == Dot(Gf16(), gen[i], WordColumn(frags[..k], w), k)
  {
    hide Gf16, WordAt;
    Gf16IsField();
    DotUnit(Gf16(), gen[i], WordColumn(frags[..k], w), k, i);
    assert frags[..k][i] == frags[i];
  }

  /** The words of a fragment are row g applied to the data words. */
  ghost predicate IsRowOf(g: seq<bv16>, d: seq<seq<bv8>>, blocksize: nat, frag: seq<bv8>) {
    && |g| == |d| && |frag| == blocksize && (forall i :: 0 <= i < |d| ==> |d[i]| == blocksize)
    && forall w {:trigger WordAt(frag, w)} :: 0 <= w < blocksize / 2 ==> WordAt(frag, w) == Dot(Gf16(), g, WordColumn(d, w), |d|)
  }

  lemma EncodedIsCodeword(gen: Matrix<bv16>, k: nat, m: nat, blocksize: nat, d: seq<seq<bv8>>, p: seq<seq<bv8>>)
    requires IsRsGenerator(gen, k, m) && |d| == k && |p| == m && forall i :: 0 <= i < k ==> |d[i]| == blocksize
    requires forall j :: 0 <= j < m ==> IsRowOf(gen[k..][j], d, blocksize, p[j])
    ensures IsCodeword(gen, k, m, blocksize, d + p)
  {
    hide Gf16, WordAt;
    var frags := d + p;
    assert frags[..k] == d;
    forall i, w {:trigger WordAt(frags[i], w)} | 0 <= i < k + m && 0 <= w < blocksize / 2
      ensures WordAt(frags[i], w) == Dot(Gf16(), gen[i], WordColumn(frags[..k], w), k)
    {
      if i < k {
        DataWords(gen, k, m, blocksize, frags, i, w);
      } else {
        assert IsRowOf(gen[k..][i - k], d, blocksize, p[i - k]);
      }
    }
  }

  lemma FragmentsSplit(data: seq<array<bv8>>, parity: seq<array<bv8>>)
    ensures Fragments(data, parity) == Contents(data) + Contents(parity)
  {
  }

  method RsEncode(gen: array2<bv16>, data: seq<array<bv8>>, parity: seq<array<bv8>>, k: nat, m: nat, blocksize: nat)
    requires gen.Length0 == k + m && gen.Length1 == k && IsRsGenerator(Rows(gen), k, m)
    requires WordStripe(data, parity, k, m, blocksize)
    modifies parity
    ensures Contents(data) == old(Contents(data))
    ensures IsCodeword(Rows(gen), k, m, blocksize, Fragments(data, parity))
  {
    ghost var start, rows := Contents(data), Rows(gen);
    hide Gf16, WordAt, IsRowOf, IsRsGenerator, IsCodeword;
    for i := k to k + m
      invariant Contents(data) == start && Rows(gen) == rows
      invariant forall j :: 0 <= j < i - k ==> IsRowOf(rows[k..][j], start, blocksize, parity[j][..])
    {
      EncodeRow(data, parity[i - k], Row(gen, i), k, blocksize);
    }
    EncodedIsCodeword(rows, k, m, blocksize, start, Contents(parity));
    FragmentsSplit(data, parity);
  }

  method EncodeRow(data: seq<array<bv8>>, to: array<bv8>, row: seq<bv16>, k: nat, blocksize: nat)
    requires k == |data| == |row| && blocksize % 2 == 0 && AllSized(data, blocksize) && to.Length == blocksize && to !in data
    modifies to
    ensures IsRowOf(row, old(Contents(data)), blocksize, to[..])
  {
    hide Gf16, WordAt;
    RegionDotProduct(data, to, row, k, blocksize);
  }

  /** The words of the first k available fragments are the decoding matrix applied to the data words. */
  lemma AvailableWords(gen: Matrix<bv16>, k: nat, m: nat, blocksize: nat, frags: seq<seq<bv8>>, idx: seq<nat>, w: nat)
    requires IsCodeword(gen, k, m, blocksize, frags) && w < blocksize / 2
    requires |idx| == k && Indices(idx, k + m)
    ensures WordColumn(Select(frags, idx), w) == Apply(Gf16(), Select(gen, idx), WordColumn(frags[..k], w))
  {
    hide Gf16, WordAt;
    var c, a := WordColumn(Select(frags, idx), w), Apply(Gf16(), Select(gen, idx), WordColumn(frags[..k], w));
    forall j | 0 <= j < k ensures c[j] == a[j] {
      assert WordAt(frags[idx[j]], w) == Dot(Gf16(), gen[idx[j]], WordColumn(frags[..k], w), k);
    }
  }

  /** A row of the inverse gives back the data word. */
  lemma RecoverWord(gen: Matrix<bv16>, inv: Matrix<bv16>, k: nat, m: nat, blocksize: nat, frags: seq<seq<bv8>>, idx: seq<nat>, i: nat, w: nat)
    requires IsCodeword(gen, k, m, blocksize, frags) && w < blocksize / 2 && i < k
    requires |idx| == k && Indices(idx, k + m) && Inverts(Gf16(), inv, Select(gen, idx), k)
    ensures Dot(Gf16(), inv[i], WordColumn(Select(frags, idx), w), k) == WordAt(frags[i], w)
  {
    hide Gf16, WordAt;
    AvailableWords(gen, k, m, blocksize, frags, idx, w);
    var d := WordColumn(frags[..k], w);
    assert Apply(Gf16(), inv, Apply(Gf16(), Select(gen, idx), d))[i] == d[i];
  }

  /** Of the missing fragments, those below n are restored. */
  ghost predicate RestoredTo(held: seq<seq<bv8>>, orig: seq<seq<bv8>>, miss: set<nat>, n: nat) {
    |held| == |orig| && forall i :: 0 <= i < |held| && (i < n || i !in miss) ==> held[i] == orig[i]
  }

  lemma RestoredStep(held: seq<seq<bv8>>, orig: seq<seq<bv8>>, miss: set<nat>, n: nat)
    requires RestoredTo(held, orig, miss, n) && n < |held|
    ensures if n in miss then RestoredTo(held[n := orig[n]], orig, miss, n + 1) else RestoredTo(held, orig, miss, n + 1)
  {
  }

  lemma RestoredKeeps(held: seq<seq<bv8>>, orig: seq<seq<bv8>>, miss: set<nat>, n: nat)
    ensures Keeps(held, orig, miss) <==> RestoredTo(held, orig, miss, 0)
    ensures RestoredTo(held, orig, miss, n) ==> Keeps(held, orig, miss)
    ensures RestoredTo(held, orig, miss, n) && n <= |held| ==> held[..n] == orig[..n]
  {
  }

  /** The available buffers hold what was stored, and none of them is that of a missing fragment. */
  lemma AvailableContents(data: seq<array<bv8>>, parity: seq<array<bv8>>, k: nat, m: nat, blocksize: nat, avail: seq<array<bv8>>, idx: seq<nat>,
      orig: seq<seq<bv8>>, miss: set<nat>, i: nat)
    requires Stripe(data, parity, k, m, blocksize) && |orig| == k + m == |data| + |parity| && Indices(idx, k + m)
    requires avail == Select(data + parity, idx) && Keeps(Fragments(data, parity), orig, miss)
    requires i < k + m && i in miss && forall j :: 0 <= j < |idx| ==> idx[j] !in miss
    ensures Contents(avail) == Select(orig, idx) && AllSized(avail, blocksize) && (data + parity)[i] !in avail
  {
    var held := Fragments(data, parity);
    forall j | 0 <= j < |idx| ensures avail[j][..] == orig[idx[j]] && avail[j] != (data + parity)[i] {
      assert held[idx[j]] == orig[idx[j]];
    }
  }

  /** Writes data fragment i, the i-th row of the inverse applied to the available buffers. */
  method RebuildOne(inv: array2<bv16>, avail: seq<array<bv8>>, to: array<bv8>, i: nat,
      ghost gen: Matrix<bv16>, k: nat, ghost m: nat, blocksize: nat, ghost idx: seq<nat>, ghost orig: seq<seq<bv8>>)
    requires inv.Length0 == inv.Length1 == k && i < k
    requires IsCodeword(gen, k, m, blocksize, orig) && blocksize % 2 == 0
    requires |idx| == k && Indices(idx, k + m) && Inverts(Gf16(), Rows(inv), Select(gen, idx), k)
    requires |avail| == k && AllSized(avail, blocksize) && to.Length == blocksize && to !in avail
    requires Contents(avail) == Select(orig, idx)
    modifies to
    ensures to[..] == orig[i]
  {
    hide Gf16, WordAt;
    ghost var invRows := Rows(inv);
    RegionDotProduct(avail, to, Row(inv, i), k, blocksize);
    forall w | 0 <= w < blocksize / 2 ensures WordAt(to[..], w) == WordAt(orig[i], w) {
      RecoverWord(gen, invRows, k, m, blocksize, orig, idx, i, w);
    }
    SameWords(to[..], orig[i]);
  }

  lemma BufferApart(data: seq<array<bv8>>, parity: seq<array<bv8>>, k: nat, m: nat, blocksize: nat, i: nat)
    requires Stripe(data, parity, k, m, blocksize) && i < k + m == |data| + |parity|
    ensures forall j :: 0 <= j < k + m && j != i ==> (data + parity)[j] != (data + parity)[i]
    ensures if i < k then (data + parity)[i] !in parity else (data + parity)[i] !in data
  {
  }

  lemma OneWritten(now: seq<seq<bv8>>, before: seq<seq<bv8>>, i: nat, v: seq<bv8>)
    requires i < |now| == |before| && now[i] == v && forall j :: 0 <= j < |now| && j != i ==> now[j] == before[j]
    ensures now == before[i := v]
  {
  }

  lemma UpdateRight(a: seq<seq<bv8>>, b: seq<seq<bv8>>, i: nat, at: nat, v: seq<bv8>)
    requires i < |b| && at == |a| + i
    ensures a + b[i := v] == (a + b)[at := v]
  {
  }

  method RebuildDataAt(inv: array2<bv16>, avail: seq<array<bv8>>, data: seq<array<bv8>>, ghost parity: seq<array<bv8>>, i: nat,
      ghost gen: Matrix<bv16>, k: nat, ghost m: nat, blocksize: nat, ghost idx: seq<nat>, ghost orig: seq<seq<bv8>>)
    requires WordStripe(data, parity, k, m, blocksize) && |data| == k && |parity| == m && |orig| == k + m
    requires inv.Length0 == inv.Length1 == k && i < k && IsCodeword(gen, k, m, blocksize, orig)
    requires |idx| == k && Indices(idx, k + m) && Inverts(Gf16(), Rows(inv), Select(gen, idx), k)
    requires |avail| == k && AllSized(avail, blocksize) && data[i] !in avail && Contents(avail) == Select(orig, idx)
    modifies data[i]
    ensures Fragments(data, parity) == old(Fragments(data, parity))[i := orig[i]]
    ensures Contents(parity) == old(Contents(parity))
  {
    hide *;
    WordStripeParts(data, parity, k, m, blocksize);
    SizeOf(data, parity, i, blocksize);
    assert (data + parity)[i] == data[i];
    BufferApart(data, parity, k, m, blocksize, i);
    ghost var before := Fragments(data, parity);
    RebuildOne(inv, avail, data[i], i, gen, k, m, blocksize, idx, orig);
    forall j | 0 <= j < k && j != i ensures data[j][..] == before[j] { assert (data + parity)[j] != data[i]; }
    forall j | 0 <= j < m ensures parity[j][..] == before[k + j] { assert (data + parity)[k + j] != data[i]; }
    OneWritten(Fragments(data, parity), before, i, orig[i]);
  }

  /** Rebuilds the missing data buffers from the first k available ones. */
  method RebuildData(gen: array2<bv16>, inv: array2<bv16>, data: seq<array<bv8>>, parity: seq<array<bv8>>, avail: seq<array<bv8>>,
      flags: seq<bool>, k: nat, m: nat, blocksize: nat, ghost idx: seq<nat>, ghost orig: seq<seq<bv8>>, ghost miss: set<nat>)
    requires gen.Length0 == k + m && gen.Length1 == k == inv.Length0 == inv.Length1
    requires WordStripe(data, parity, k, m, blocksize) && |flags| == k + m == |data| + |parity| && Marked(flags, miss)
    requires |idx| == k && Indices(idx, k + m) && avail == Select(data + parity, idx) && forall j :: 0 <= j < k ==> idx[j] !in miss
    requires IsCodeword(Rows(gen), k, m, blocksize, orig) && Inverts(Gf16(), Rows(inv), Select(Rows(gen), idx), k)
    requires Keeps(Fragments(data, parity), orig, miss)
    modifies LostSet(data, [], miss)
    ensures RestoredTo(Fragments(data, parity), orig, miss, k)
    ensures Contents(parity) == old(Contents(parity))
  {
    hide *;
    WordStripeParts(data, parity, k, m, blocksize);
    CodewordParts(Rows(gen), k, m, blocksize, orig);
    ghost var rows, invRows := Rows(gen), Rows(inv);
    RestoredKeeps(Fragments(data, parity), orig, miss, 0);
    for i := 0 to k
      invariant RestoredTo(Fragments(data, parity), orig, miss, i)
      invariant Contents(parity) == old(Contents(parity)) && Rows(gen) == rows && Rows(inv) == invRows
    {
      MarkedAt(flags, miss, i);
      RestoredStep(Fragments(data, parity), orig, miss, i);
      if flags[i] {
        RestoredKeeps(Fragments(data, parity), orig, miss, i);
        AvailableContents(data, parity, k, m, blocksize, avail, idx, orig, miss, i);
        InLostSet(data, [], miss, i);
        assert data + [] == data && (data + parity)[i] == data[i];
        RebuildDataAt(inv, avail, data, parity, i, rows, k, m, blocksize, idx, orig);
      }
    }
  }

  lemma InLostSet(data: seq<array<bv8>>, parity: seq<array<bv8>>, miss: set<nat>, i: nat)
    requires i < |data| + |parity| && i in miss
    ensures (data + parity)[i] in LostSet(data, parity, miss)
  {
  }

  method RebuildOneParity(row: seq<bv16>, data: seq<array<bv8>>, to: array<bv8>, dest: nat,
      ghost gen: Matrix<bv16>, k: nat, ghost m: nat, blocksize: nat, ghost orig: seq<seq<bv8>>)
    requires dest < k + m && IsCodeword(gen, k, m, blocksize, orig) && row == gen[dest]
    requires |data| == k && AllSized(data, blocksize) && to.Length == blocksize && to !in data && blocksize % 2 == 0
    requires Contents(data) == orig[..k]
    modifies to
    ensures to[..] == orig[dest]
  {
    hide Gf16, WordAt;
    RegionDotProduct(data, to, row, k, blocksize);
    forall w | 0 <= w < blocksize / 2 ensures WordAt(to[..], w) == WordAt(orig[dest], w) {
      assert WordAt(orig[dest], w) == Dot(Gf16(), gen[dest], WordColumn(orig[..k], w), k);
    }
    SameWords(to[..], orig[dest]);
  }

  method RebuildParityAt(row: seq<bv16>, data: seq<array<bv8>>, parity: seq<array<bv8>>, j: nat, dest: nat,
      ghost gen: Matrix<bv16>, k: nat, ghost m: nat, blocksize: nat, ghost orig: seq<seq<bv8>>)
    requires WordStripe(data, parity, k, m, blocksize) && |data| == k && |parity| == m && |orig| == k + m
    requires j < m && dest == k + j && IsCodeword(gen, k, m, blocksize, orig) && |gen| == k + m && row == gen[dest] && Contents(data) == orig[..k]
    modifies parity[j]
    ensures Fragments(data, parity) == old(Fragments(data, parity))[dest := orig[dest]]
    ensures Contents(data) == old(Contents(data))
  {
    hide *;
    WordStripeParts(data, parity, k, m, blocksize);
    SizeOf(data, parity, dest, blocksize);
    assert (data + parity)[dest] == parity[j];
    BufferApart(data, parity, k, m, blocksize, dest);
    ghost var d, p := Contents(data), Contents(parity);
    FragmentsSplit(data, parity);
    RebuildOneParity(row, data, parity[j], dest, gen, k, m, blocksize, orig);
    forall i | 0 <= i < m && i != j ensures Contents(parity)[i] == p[i] { assert (data + parity)[k + i] != parity[j]; }
    OneWritten(Contents(parity), p, j, orig[dest]);
    FragmentsSplit(data, parity);
    UpdateRight(d, p, j, dest, orig[dest]);
  }

  /** Re-encodes the missing parity buffers. */
  method RebuildParity(gen: array2<bv16>, data: seq<array<bv8>>, parity: seq<array<bv8>>, flags: seq<bool>,
      k: nat, m: nat, blocksize: nat, ghost orig: seq<seq<bv8>>, ghost miss: set<nat>)
    requires gen.Length0 == k + m && gen.Length1 == k && IsCodeword(Rows(gen), k, m, blocksize, orig)
    requires WordStripe(data, parity, k, m, blocksize) && |flags| == k + m == |data| + |parity| && Marked(flags, miss)
    requires RestoredTo(Fragments(data, parity), orig, miss, k)
    modifies LostSet(data, parity, miss)
    ensures Fragments(data, parity) == orig
  {
    hide *;
    WordStripeParts(data, parity, k, m, blocksize);
    CodewordParts(Rows(gen), k, m, blocksize, orig);
    ghost var rows := Rows(gen);
    RestoredKeeps(Fragments(data, parity), orig, miss, k);
    for i := k to k + m
      invariant Contents(data) == orig[..k] && Rows(gen) == rows
      invariant RestoredTo(Fragments(data, parity), orig, miss, i)
    {
      MarkedAt(flags, miss, i);
      RestoredStep(Fragments(data, parity), orig, miss, i);
      if flags[i] {
        InLostSet(data, parity, miss, i);
        assert (data + parity)[i] == parity[i - k];
        assert Row(gen, i) == rows[i];
        RebuildParityAt(Row(gen, i), data, parity, i - k, i, rows, k, m, blocksize, orig);
      }
    }
    RestoredKeeps(Fragments(data, parity), orig, miss, k + m);
    assert Fragments(data, parity)[..k + m] == Fragments(data, parity) && orig[..k + m] == orig;
  }

  /** Everything RsDecode does before it turns to the parity. */
  method RebuildAllData(gen: array2<bv16>, data: seq<array<bv8>>, parity: seq<array<bv8>>, k: nat, m: nat,
      missing: seq<int>, flags: seq<bool>, blocksize: nat, ghost orig: seq<seq<bv8>>)
    requires gen.Length0 == k + m && gen.Length1 == k && IsRsGenerator(Rows(gen), k, m)
    requires WordStripe(data, parity, k, m, blocksize)
    requires MissingList(missing, k + m) && LeavesK(Missing(missing), k + m, k)
    requires |flags| == k + m && Marked(flags, Missing(missing))
    requires IsCodeword(Rows(gen), k, m, blocksize, orig)
    requires Keeps(Fragments(data, parity), orig, Missing(missing))
    modifies LostSet(data, [], Missing(missing))
    ensures RestoredTo(Fragments(data, parity), orig, Missing(missing), k)
    ensures Contents(parity) == old(Contents(parity))
  {
    hide *;
    WordStripeParts(data, parity, k, m, blocksize);
    GeneratorOf(Rows(gen), k, m);
    ghost var idx := FirstK(Missing(missing), k + m, k);
    var avail := GetFirstKAvailable(data, parity, flags, k, m, Missing(missing));
    var inv := InvertAvailable(Gf16(), gen, missing, k, m);
    RebuildData(gen, inv, data, parity, avail, flags, k, m, blocksize, idx, orig, Missing(missing));
  }

  method RsDecode(gen: array2<bv16>, data: seq<array<bv8>>, parity: seq<array<bv8>>, k: nat, m: nat,
      missing: seq<int>, blocksize: nat, rebuildParity: bool, ghost orig: seq<seq<bv8>>) returns (ret: int)
    requires gen.Length0 == k + m && gen.Length1 == k && IsRsGenerator(Rows(gen), k, m)
    requires WordStripe(data, parity, k, m, blocksize)
    requires MissingList(missing, k + m)
    requires IsCodeword(Rows(gen), k, m, blocksize, orig)
    requires forall i :: 0 <= i < k + m && i !in Missing(missing) ==> Fragments(data, parity)[i] == orig[i]
    modifies LostSet(data, parity, Missing(missing))
    ensures ret == if |Missing(missing)| > m then -1 else 0
    ensures ret != 0 ==> Fragments(data, parity) == old(Fragments(data, parity))
    ensures ret == 0 ==> Contents(data) == orig[..k]
    ensures ret == 0 && rebuildParity ==> Fragments(data, parity) == orig
    ensures ret == 0 && !rebuildParity ==> Contents(parity) == old(Contents(parity))
  {
    hide *;
    WordStripeParts(data, parity, k, m, blocksize);
    CodewordParts(Rows(gen), k, m, blocksize, orig);
    MissingCard(missing, k + m);
    var flags, numMissing := MarkMissing(missing, k + m);
    if numMissing > m {
      return -1;
    }
    FewLeaveK(Missing(missing), k, m);
    KeepsAll(Fragments(data, parity), orig, Missing(missing));
    LostDataSet(data, parity, Missing(missing));
    ghost var rows := Rows(gen);
    RebuildAllData(gen, data, parity, k, m, missing, flags, blocksize, orig);
    RestoredKeeps(Fragments(data, parity), orig, Missing(missing), k);
    assert Contents(data) == Fragments(data, parity)[..k];
    if rebuildParity {
      assert Rows(gen) == rows;
      RebuildParity(gen, data, parity, flags, k, m, blocksize, orig, Missing(missing));
      assert Contents(data) == Fragments(data, parity)[..k];
    }
    return 0;
  }

  lemma KeepsAll(held: seq<seq<bv8>>, orig: seq<seq<bv8>>, miss: set<nat>)
    requires |held| == |orig| && forall i :: 0 <= i < |held| && i !in miss ==> held[i] == orig[i]
    ensures Keeps(held, orig, miss)
  {
  }

  lemma LostDataSet(data: seq<array<bv8>>, parity: seq<array<bv8>>, miss: set<nat>)
    ensures LostSet(data, [], miss) <= LostSet(data, parity, miss)
  {
    forall b | b in LostSet(data, [], miss) ensures b in LostSet(data, parity, miss) {
      var i: nat :| i < |data| && i in miss && (data + [])[i] == b;
      assert (data + parity)[i] == b;
    }
  }

  /** A form equal to the lost parity row rebuilds the lost parity words. */
  lemma RecoverParityWord(gen: Matrix<bv16>, p: seq<bv16>, k: nat, m: nat, blocksize: nat, frags: seq<seq<bv8>>, idx: seq<nat>, dest: nat, w: nat)
    requires IsCodeword(gen, k, m, blocksize, frags) && w < blocksize / 2 && dest < k + m
    requires |idx| == k && Indices(idx, k + m) && SameForm(Gf16(), Select(gen, idx), p, gen[dest], k)
    ensures Dot(Gf16(), p, WordColumn(Select(frags, idx), w), k) == WordAt(frags[dest], w)
  {
    hide Gf16, WordAt;
    AvailableWords(gen, k, m, blocksize, frags, idx, w);
    assert WordAt(frags[dest], w) == Dot(Gf16(), gen[dest], WordColumn(frags[..k], w), k);
  }

  /** Writes parity fragment dest, given its form over the available buffers. */
  method RebuildParityFrom(p: seq<bv16>, avail: seq<array<bv8>>, to: array<bv8>, dest: nat,
      ghost gen: Matrix<bv16>, k: nat, ghost m: nat, blocksize: nat, ghost idx: seq<nat>, ghost orig: seq<seq<bv8>>)
    requires dest < k + m && IsCodeword(gen, k, m, blocksize, orig) && blocksize % 2 == 0
    requires |idx| == k && Indices(idx, k + m) && SameForm(Gf16(), Select(gen, idx), p, gen[dest], k)
    requires |avail| == k && AllSized(avail, blocksize) && to.Length == blocksize && to !in avail
    requires Contents(avail) == Select(orig, idx)
    modifies to
    ensures to[..] == orig[dest]
  {
    hide Gf16, WordAt, SameForm;
    assert |p| == k by { SameFormLength(Select(gen, idx), p, gen[dest], k); }
    RegionDotProduct(avail, to, p, k, blocksize);
    forall w | 0 <= w < blocksize / 2 ensures WordAt(to[..], w) == WordAt(orig[dest], w) {
      RecoverParityWord(gen, p, k, m, blocksize, orig, idx, dest, w);
    }
    SameWords(to[..], orig[dest]);
  }

  lemma SameFormLength(sel: Matrix<bv16>, p: seq<bv16>, g: seq<bv16>, k: nat)
    requires SameForm(Gf16(), sel, p, g, k)
    ensures |p| == k
  {
  }

  /** The form of lost fragment dest over the first k available fragments. */
  method ParityRow(gen: array2<bv16>, inv: array2<bv16>, flags: seq<bool>, missing: seq<int>, dest: nat, k: nat, m: nat) returns (p: array<bv16>)
    requires gen.Length0 == k + m && gen.Length1 == k == inv.Length0 == inv.Length1 && IsRsGenerator(Rows(gen), k, m)
    requires MissingList(missing, k + m) && LeavesK(Missing(missing), k + m, k)
    requires |flags| == k + m && Marked(flags, Missing(missing))
    requires dest < k + m
    requires Inverts(Gf16(), Rows(inv), Select(Rows(gen), FirstK(Missing(missing), k + m, k)), k)
    ensures fresh(p)
    ensures SameForm(Gf16(), Select(Rows(gen), FirstK(Missing(missing), k + m, k)), p[..], Row(gen, dest), k)
  {
    hide Gf16, SameForm;
    Gf16IsField();
    ghost var miss := Missing(missing);
    ghost var rows, invRows := Rows(gen), Rows(inv);
    ghost var sel := Select(rows, FirstK(miss, k + m, k));
    SelectsFirstK(Gf16(), rows, k, m, miss);
    var g := Row(gen, dest);
    p := CopyAvailable(Gf16(), g, flags, k, miss, sel);
    SubstituteMissing(Gf16(), g, inv, p, missing, k, k + m, sel);
  }

  /** The first k available buffers; the one to be rebuilt is not among them. */
  method AvailableBuffers(data: seq<array<bv8>>, parity: seq<array<bv8>>, k: nat, m: nat,
      missing: seq<int>, flags: seq<bool>, blocksize: nat, ghost dest: nat, ghost orig: seq<seq<bv8>>)
    returns (avail: seq<array<bv8>>)
    requires WordStripe(data, parity, k, m, blocksize) && dest < k + m && dest in Missing(missing)
    requires LeavesK(Missing(missing), k + m, k)
    requires |flags| == k + m && Marked(flags, Missing(missing))
    requires |orig| == k + m
    requires Keeps(Fragments(data, parity), orig, Missing(missing))
    ensures |avail| == k && AllSized(avail, blocksize)
    ensures Contents(avail) == Select(orig, FirstK(Missing(missing), k + m, k))
    ensures (data + parity)[dest] !in avail
  {
    hide *;
    WordStripeParts(data, parity, k, m, blocksize);
    ghost var idx := FirstK(Missing(missing), k + m, k);
    avail := GetFirstKAvailable(data, parity, flags, k, m, Missing(missing));
    AvailableContents(data, parity, k, m, blocksize, avail, idx, orig, Missing(missing), dest);
  }

  method AvailableAndInverse(gen: array2<bv16>, data: seq<array<bv8>>, parity: seq<array<bv8>>, k: nat, m: nat,
      missing: seq<int>, flags: seq<bool>, ghost dest: nat, blocksize: nat, ghost orig: seq<seq<bv8>>)
    returns (avail: seq<array<bv8>>, inv: array2<bv16>, ghost idx: seq<nat>)
    requires gen.Length0 == k + m && gen.Length1 == k && IsRsGenerator(Rows(gen), k, m)
    requires WordStripe(data, parity, k, m, blocksize)
    requires MissingList(missing, k + m) && dest < k + m && dest in Missing(missing)
    requires LeavesK(Missing(missing), k + m, k)
    requires |flags| == k + m && Marked(flags, Missing(missing))
    requires IsCodeword(Rows(gen), k, m, blocksize, orig)
    requires Keeps(Fragments(data, parity), orig, Missing(missing))
    ensures idx == FirstK(Missing(missing), k + m, k) && Indices(idx, k + m)
    ensures |avail| == k && AllSized(avail, blocksize) && Contents(avail) == Select(orig, idx) && (data + parity)[dest] !in avail
    ensures fresh(inv) && inv.Length0 == inv.Length1 == k && Inverts(Gf16(), Rows(inv), Select(Rows(gen), idx), k)
  {
    hide *;
    hide Gf16;
    Gf16IsField();
    CodewordParts(Rows(gen), k, m, blocksize, orig);
    GeneratorOf(Rows(gen), k, m);
    idx := FirstK(Missing(missing), k + m, k);
    avail := AvailableBuffers(data, parity, k, m, missing, flags, blocksize, dest, orig);
    inv := InvertAvailable(Gf16(), gen, missing, k, m);
  }

  /** Rebuilds a lost parity from the first k available fragments, lost data and all. */
  method RebuildLostParity(gen: array2<bv16>, inv: array2<bv16>, avail: seq<array<bv8>>, to: array<bv8>, k: nat, m: nat,
      missing: seq<int>, flags: seq<bool>, dest: nat, blocksize: nat, ghost idx: seq<nat>, ghost orig: seq<seq<bv8>>)
    requires gen.Length0 == k + m && gen.Length1 == k == inv.Length0 == inv.Length1 && IsRsGenerator(Rows(gen), k, m)
    requires MissingList(missing, k + m) && LeavesK(Missing(missing), k + m, k) && idx == FirstK(Missing(missing), k + m, k)
    requires |flags| == k + m && Marked(flags, Missing(missing)) && dest < k + m
    requires IsCodeword(Rows(gen), k, m, blocksize, orig) && blocksize % 2 == 0 && |orig| == k + m
    requires |avail| == k && AllSized(avail, blocksize) && to.Length == blocksize && to !in avail && Contents(avail) == Select(orig, idx)
    requires Inverts(Gf16(), Rows(inv), Select(Rows(gen), idx), k)
    modifies to
    ensures to[..] == orig[dest]
  {
    hide *;
    ghost var rows := Rows(gen);
    var parityRow := ParityRow(gen, inv, flags, missing, dest, k, m);
    RebuildParityFrom(parityRow[..], avail, to, dest, rows, k, m, blocksize, idx, orig);
  }

  method RebuildFragment(gen: array2<bv16>, data: seq<array<bv8>>, parity: seq<array<bv8>>, k: nat, m: nat,
      missing: seq<int>, flags: seq<bool>, dest: nat, blocksize: nat, ghost orig: seq<seq<bv8>>)
    requires gen.Length0 == k + m && gen.Length1 == k && IsRsGenerator(Rows(gen), k, m)
    requires WordStripe(data, parity, k, m, blocksize)
    requires MissingList(missing, k + m) && dest < k + m && dest in Missing(missing)
    requires LeavesK(Missing(missing), k + m, k)
    requires |flags| == k + m && Marked(flags, Missing(missing))
    requires IsCodeword(Rows(gen), k, m, blocksize, orig)
    requires Keeps(Fragments(data, parity), orig, Missing(missing))
    modifies (data + parity)[dest]
    ensures (data + parity)[dest][..] == orig[dest]
  {
    hide *;
    WordStripeParts(data, parity, k, m, blocksize);
    CodewordParts(Rows(gen), k, m, blocksize, orig);
    SizeOf(data, parity, dest, blocksize);
    var to := if dest < k then data[dest] else parity[dest - k];
    assert to == (data + parity)[dest];
    var avail, inv;
    ghost var idx;
    avail, inv, idx := AvailableAndInverse(gen, data, parity, k, m, missing, flags, dest, blocksize, orig);
    if dest < k {
      RebuildOne(inv, avail, to, dest, Rows(gen), k, m, blocksize, idx, orig);
    } else {
      RebuildLostParity(gen, inv, avail, to, k, m, missing, flags, dest, blocksize, idx, orig);
    }
  }

  /** Rebuilds the one fragment dest and writes no other; other fragments may be missing too. */
  method RsReconstruct(gen: array2<bv16>, data: seq<array<bv8>>, parity: seq<array<bv8>>, k: nat, m: nat,
      missing: seq<int>, dest: nat, blocksize: nat, ghost orig: seq<seq<bv8>>) returns (ret: int)
    requires gen.Length0 == k + m && gen.Length1 == k && IsRsGenerator(Rows(gen), k, m)
    requires WordStripe(data, parity, k, m, blocksize)
    requires MissingList(missing, k + m) && dest < k + m && dest in Missing(missing)
    requires IsCodeword(Rows(gen), k, m, blocksize, orig)
    requires forall i :: 0 <= i < k + m && i !in Missing(missing) ==> Fragments(data, parity)[i] == orig[i]
    modifies (data + parity)[dest]
    ensures ret == if |Missing(missing)| > m then -1 else 0
    ensures ret != 0 ==> unchanged((data + parity)[dest])
    ensures ret == 0 ==> (data + parity)[dest][..] == orig[dest]
  {
    MissingCard(missing, k + m);
    var flags, numMissing := MarkMissing(missing, k + m);
    if numMissing > m {
      return -1;
    }
    FewLeaveK(Missing(missing), k, m);
    RebuildFragment(gen, data, parity, k, m, missing, flags, dest, blocksize, orig);
    return 0;
  }
}
