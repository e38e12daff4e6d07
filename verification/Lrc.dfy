/** The LRC backend: decoding, and rebuilding one fragment from its group if that is enough. */
module Lrc {
  import opened Fields
  import opened Mds
  import opened MatrixOps
  import opened GaussJordan
  import opened Systematic
  import opened Erasures
  import opened Regions
  import opened IsaL
  import opened InverseRows
  import opened LinearDecode
  import opened LrcMatrix
  import opened LrcSelection
  import opened LrcDecodeMatrix
  import opened LrcBuffers

  /** A stripe of the code with matrix gen: what was stored, and buffers that hold what is not lost. */
  ghost predicate LrcStripe(f: Field<bv8>, gen: Matrix<bv8>, k: nat, m: nat, l: nat, blocksize: nat,
      data: seq<array<bv8>>, parity: seq<array<bv8>>, frags: seq<seq<bv8>>, miss: set<nat>)
    reads data, parity
  {
    && IsByteField(f) && IsLrcMatrix(f, gen, k, m, l) && |frags| == k + m && IsLinearCode(f, gen, k, blocksize, frags)
    && Stripe(data, parity, k, m, blocksize) && PresentHeld(data, parity, frags, miss)
  }

  lemma StripeParts(f: Field<bv8>, gen: Matrix<bv8>, k: nat, m: nat, l: nat, blocksize: nat,
      data: seq<array<bv8>>, parity: seq<array<bv8>>, frags: seq<seq<bv8>>, miss: set<nat>)
    requires LrcStripe(f, gen, k, m, l, blocksize, data, parity, frags, miss)
    ensures 0 < l <= k && l <= m && Shape(gen, k + m, k) && |data| == k && |parity| == m && |frags| == k + m
    ensures AllSized(data, blocksize) && AllSized(parity, blocksize)
    ensures IsLrcMatrix(f, gen, k, m, l) && LocalOnly(f, gen, k, m, l) && IdentityOnTop(f, gen, k, k) && IsByteField(f)
    ensures IsLinearCode(f, gen, k, blocksize, frags) && Stripe(data, parity, k, m, blocksize) && PresentHeld(data, parity, frags, miss)
  {
  }

  /** A present fragment that the scan reaches before it has k rows is used. */
  lemma PresentUsed(k: nat, m: nat, l: nat, miss: set<nat>, used: seq<bool>)
    requires 0 < l <= m && |used| == k + m && Marks(used, Selection(k, m, l, miss))
    ensures ScanUsed(used, miss, k, k + m - l)
  {
    hide UsableLocals, UseCombined, Available, Selection;
    var a, sel := Available(miss, k + m - l), Selection(k, m, l, miss);
    var i := if |a| < k then |a| else k;
    SelectionIs(k, m, l, miss, i);
    forall x | 0 <= x < k + m - l && x !in miss && |Available(miss, x)| < k ensures used[x] {
      AvailableAt(miss, k + m - l, x);
      assert sel[|Available(miss, x)|] == x;
    }
  }

  /** The present fragments among the rows picked are not lost. */
  lemma SelectionPresent(k: nat, m: nat, l: nat, miss: set<nat>)
    requires 0 < l <= m
    ensures forall i :: 0 <= i < |Selection(k, m, l, miss)| ==> Selection(k, m, l, miss)[i] == k + m || Selection(k, m, l, miss)[i] !in miss
    ensures !UseCombined(k, m, l, miss) ==> forall i :: 0 <= i < |Selection(k, m, l, miss)| ==> Selection(k, m, l, miss)[i] < k + m
  {
    hide UsableLocals, UseCombined, Available;
  }

  lemma SuppliesSnoc(avail: seq<array<bv8>>, combined: array<bv8>, data: seq<array<bv8>>, parity: seq<array<bv8>>, ext: seq<seq<bv8>>, sel: seq<nat>, miss: set<nat>)
    requires Supplies(avail, data, parity, ext, sel, miss) && combined[..] == ext[|data| + |parity|]
    requires combined !in data && combined !in parity
    ensures Supplies(avail + [combined], data, parity, ext, sel + [|data| + |parity|], miss)
  {
  }

  /** The sum of the local parities as one more available fragment. */
  method AddCombined(data: seq<array<bv8>>, parity: seq<array<bv8>>, first: seq<array<bv8>>, k: nat, m: nat, l: nat, blocksize: nat,
      ghost f: Field<bv8>, ghost gen: Matrix<bv8>, ghost frags: seq<seq<bv8>>, ghost ext: seq<seq<bv8>>, ghost miss: set<nat>, ghost sel: seq<nat>)
    returns (avail: seq<array<bv8>>)
    requires LrcStripe(f, gen, k, m, l, blocksize, data, parity, frags, miss) && NoLocalMissing(k, m, l, miss)
    requires ext == WithSum(f, gen, k, m, l, blocksize, frags) && Supplies(first, data, parity, ext, sel, miss)
    ensures Supplies(avail, data, parity, ext, sel + [k + m], miss) && |avail| == |first| + 1
  {
    hide IsByteField, IsLrcMatrix, IsLinearCode, LocalOnly, WithSum, Supplies, XorSum, NoLocalMissing, Stripe, PresentHeld;
    StripeParts(f, gen, k, m, l, blocksize, data, parity, frags, miss);
    hide LrcStripe;
    var combined := CombineLocalParities(parity, k, m, l, blocksize);
    LocalsHeld(data, parity, k, m, l, frags, miss);
    CombinedContents(f, gen, k, m, l, blocksize, frags, combined[..], Contents(parity[m - l..]));
    SuppliesSnoc(first, combined, data, parity, ext, sel, miss);
    avail := first + [combined];
  }

  /** The present data and global parities, k at most. */
  method FirstFragments(data: seq<array<bv8>>, parity: seq<array<bv8>>, flags: seq<bool>, used: seq<bool>, k: nat, m: nat, l: nat, blocksize: nat,
      ghost frags: seq<seq<bv8>>, ghost ext: seq<seq<bv8>>, ghost miss: set<nat>, ghost first: seq<nat>) returns (avail: seq<array<bv8>>)
    requires 0 < l <= m && |data| == k && |parity| == m && Stripe(data, parity, k, m, blocksize)
    requires |frags| == k + m && |ext| == k + m + 1 && ext[..k + m] == frags && PresentHeld(data, parity, frags, miss)
    requires |flags| == |used| == k + m && Marked(flags, miss)
    requires Marks(used, Selection(k, m, l, miss))
    requires var a := Available(miss, k + m - l); first == a[..if |a| < k then |a| else k]
    ensures avail == Select(data + parity, first) && Supplies(avail, data, parity, ext, first, miss)
  {
    hide ScanUsed, Available, Selection, Marks, Supplies, Stripe, PresentHeld;
    PresentUsed(k, m, l, miss, used);
    avail := TakePresentBuffers(data, parity, flags, used, k, k + m - l, miss);
    SuppliesPresent(data, parity, k, m, blocksize, frags, ext, first, miss);
  }

  /** The buffers of the rows picked, in their order. */
  method AvailableFragments(data: seq<array<bv8>>, parity: seq<array<bv8>>, flags: seq<bool>, used: seq<bool>, useCombined: bool,
      k: nat, m: nat, l: nat, blocksize: nat,
      ghost f: Field<bv8>, ghost gen: Matrix<bv8>, ghost frags: seq<seq<bv8>>, ghost ext: seq<seq<bv8>>, ghost miss: set<nat>)
    returns (avail: seq<array<bv8>>)
    requires LrcStripe(f, gen, k, m, l, blocksize, data, parity, frags, miss)
    requires ext == WithSum(f, gen, k, m, l, blocksize, frags)
    requires |flags| == |used| == k + m && Marked(flags, miss)
    requires Marks(used, Selection(k, m, l, miss)) && |Selection(k, m, l, miss)| == k && (useCombined <==> UseCombined(k, m, l, miss))
    ensures Supplies(avail, data, parity, ext, Selection(k, m, l, miss), miss)
  {
    hide UsableLocals, UseCombined, Available, Selection, Marks, IsByteField, IsLrcMatrix, IsLinearCode, LocalOnly, WithSum, Supplies,
      Stripe, PresentHeld, UpTo, NoLocalMissing, Select;
    StripeParts(f, gen, k, m, l, blocksize, data, parity, frags, miss);
    ghost var sel, a := Selection(k, m, l, miss), Available(miss, k + m - l);
    ghost var i := if |a| < k then |a| else k;
    ghost var first := a[..i];
    SelectionIs(k, m, l, miss, i);
    SelectionPresent(k, m, l, miss);
    avail := FirstFragments(data, parity, flags, used, k, m, l, blocksize, frags, ext, miss, first);
    var missingLocals := AnyLost(flags, k + m - l, k + m);
    NoneLostMeans(k, m, l, flags, miss, missingLocals);
    if |avail| < k && !missingLocals && useCombined {
      avail := AddCombined(data, parity, avail, k, m, l, blocksize, f, gen, frags, ext, miss, first);
    }
    if |avail| < k {
      avail := TakeUsedLocals(data, parity, flags, used, avail, k, m, l, miss, first);
      SuppliesPresent(data, parity, k, m, blocksize, frags, ext, sel, miss);
    }
  }

  lemma NoneLostMeans(k: nat, m: nat, l: nat, flags: seq<bool>, miss: set<nat>, any: bool)
    requires 0 < l <= m && |flags| == k + m && Marked(flags, miss)
    requires any <==> exists i :: k + m - l <= i < k + m && flags[i]
    ensures any <==> !NoLocalMissing(k, m, l, miss)
  {
  }

  lemma LocalsHeld(data: seq<array<bv8>>, parity: seq<array<bv8>>, k: nat, m: nat, l: nat, frags: seq<seq<bv8>>, miss: set<nat>)
    requires |data| == k && |parity| == m && |frags| == k + m && 0 < l <= m && PresentHeld(data, parity, frags, miss) && NoLocalMissing(k, m, l, miss)
    ensures Contents(parity[m - l..]) == frags[k + m - l..]
  {
    var c := Contents(parity[m - l..]);
    forall v | 0 <= v < l ensures c[v] == frags[k + m - l..][v] {
      assert (data + parity)[k + m - l + v] == parity[m - l + v];
    }
  }

  // ----- decoding

  lemma SelectionDataFirst(k: nat, m: nat, l: nat, miss: set<nat>, flags: seq<bool>)
    requires 0 < l <= m && |flags| == k + m && Marked(flags, miss) && |Selection(k, m, l, miss)| == k
    ensures DataFirst(Selection(k, m, l, miss), flags[..k])
  {
    hide UsableLocals, UseCombined, Available, Selection, PresentCount;
    var a, sel, lost := Available(miss, k + m - l), Selection(k, m, l, miss), flags[..k];
    var n := if |a| < k then |a| else k;
    SelectionIs(k, m, l, miss, n);
    forall i: nat | i < k && !lost[i] ensures PresentCount(lost, i) < k && sel[PresentCount(lost, i)] == i {
      PresentCountIs(flags, miss, lost, i);
      AvailableAt(miss, k + m - l, i);
    }
  }

  /** The selected fragments, with their rows inverted, are what decoding needs. */
  lemma SelectionDecodable(isa: IsaL, gen: Matrix<bv8>, k: nat, m: nat, l: nat, blocksize: nat, frags: seq<seq<bv8>>, miss: set<nat>, flags: seq<bool>, inv: Matrix<bv8>)
    requires IsByteField(isa.f) && IsLrcMatrix(isa.f, gen, k, m, l) && |frags| == k + m && IsLinearCode(isa.f, gen, k, blocksize, frags)
    requires |flags| == k + m && Marked(flags, miss) && |Selection(k, m, l, miss)| == k
    requires Inverts(isa.f, inv, Select(WithCombined(gen, k, m, l), Selection(k, m, l, miss)), k)
    ensures Decodable(isa.f, WithCombined(gen, k, m, l), k, blocksize, WithSum(isa.f, gen, k, m, l, blocksize, frags), Selection(k, m, l, miss), inv, flags[..k])
  {
    hide UsableLocals, UseCombined, Available, Selection, DataFirst, IsByteField, AnyRowsIndependent, Inverts, CombinedRow, IsLinearCode, LocalOnly;
    WithSumIsCode(isa.f, gen, k, m, l, blocksize, frags);
    SelectionDataFirst(k, m, l, miss, flags);
  }

  /** There are k rows to decode with, and they are independent. */
  ghost predicate Solvable(f: Field<bv8>, gen: Matrix<bv8>, k: nat, m: nat, l: nat, miss: set<nat>) {
    && 0 < l <= k && l <= m && Shape(gen, k + m, k) && |Selection(k, m, l, miss)| == k
    && TrivialKernel(f, Select(WithCombined(gen, k, m, l), Selection(k, m, l, miss)), k)
  }

  /** The promise: every set of at most r + 1 losses can be solved. */
  lemma FewLossesSolvable(f: Field<bv8>, gen: Matrix<bv8>, k: nat, m: nat, l: nat, miss: set<nat>)
    requires IsLrcGenerator(f, gen, k, m, l) && miss <= UpTo(k + m) && |miss| <= m - l + 1
    ensures Solvable(f, gen, k, m, l, miss)
  {
    hide Selection, AnyRowsIndependent, TrivialKernel, CombinedRow, LocalOnly;
    FewLossesSelected(k, m, l, miss);
    FamilySelectionIndependent(f, gen, k, m, l, Selection(k, m, l, miss));
  }

  /** k selected buffers and the inverse of their rows. */
  method Prepare(isa: IsaL, gen: array2<bv8>, data: seq<array<bv8>>, parity: seq<array<bv8>>, k: nat, m: nat, l: nat,
      flags: seq<bool>, blocksize: nat, ghost frags: seq<seq<bv8>>, ghost miss: set<nat>, ghost ext: seq<seq<bv8>>)
    returns (ok: bool, inv: Matrix<bv8>, avail: seq<array<bv8>>)
    requires Contract(isa) && gen.Length0 == k + m && gen.Length1 == k
    requires LrcStripe(isa.f, Rows(gen), k, m, l, blocksize, data, parity, frags, miss)
    requires ext == WithSum(isa.f, Rows(gen), k, m, l, blocksize, frags)
    requires |flags| == k + m && Marked(flags, miss)
    ensures ok <==> Solvable(isa.f, Rows(gen), k, m, l, miss)
    ensures ok ==> Decodable(isa.f, WithCombined(Rows(gen), k, m, l), k, blocksize, ext, Selection(k, m, l, miss), inv, flags[..k])
    ensures ok ==> Supplies(avail, data, parity, ext, Selection(k, m, l, miss), miss)
  {
    hide Selection, UseCombined, Marks, IsByteField, IsLrcMatrix, IsLinearCode, LocalOnly, WithSum, CombinedRow, Supplies, Inverts, Decodable, Contract, TrivialKernel;
    ghost var rows := Rows(gen);
    StripeParts(isa.f, rows, k, m, l, blocksize, data, parity, frags, miss);
    ghost var sel := Selection(k, m, l, miss);
    ok, inv, avail := false, [], [];
    var used := new bool[k + m](i => false);
    MarksNothing(used[..]);
    var found, dec, useCombined := GetDecodeMatrix(gen, flags, used, k, m, l, miss);
    if !found {
      return;
    }
    var inverse := isa.invert(Rows(dec), k);
    Invertible(isa, Select(WithCombined(rows, k, m, l), sel), k);
    if inverse.Singular? {
      return;
    }
    ok, inv := true, inverse.rows;
    SelectionDecodable(isa, rows, k, m, l, blocksize, frags, miss, flags, inv);
    avail := AvailableFragments(data, parity, flags, used[..], useCombined, k, m, l, blocksize, isa.f, rows, frags, ext, miss);
  }

  /** Rebuilds every lost fragment from the selected ones. */
  method RestoreFrom(isa: IsaL, gen: array2<bv8>, inv: Matrix<bv8>, avail: seq<array<bv8>>, data: seq<array<bv8>>, parity: seq<array<bv8>>, k: nat, m: nat,
      flags: seq<bool>, blocksize: nat, ghost frags: seq<seq<bv8>>, ghost rows: Matrix<bv8>, ghost ext: seq<seq<bv8>>, ghost sel: seq<nat>, ghost miss: set<nat>)
    requires gen.Length0 == k + m && gen.Length1 == k && k + m <= |rows| && forall i :: 0 <= i < k + m ==> Rows(gen)[i] == rows[i]
    requires Stripe(data, parity, k, m, blocksize) && |flags| == k + m && Marked(flags, miss)
    requires |frags| == k + m <= |ext| && ext[..k + m] == frags && k + m == |data| + |parity| && PresentHeld(data, parity, frags, miss)
    requires Decodable(isa.f, rows, k, blocksize, ext, sel, inv, flags[..k]) && Supplies(avail, data, parity, ext, sel, miss)
    modifies LostSet(data, parity, miss)
    ensures AllRestored(data, parity, frags)
  {
    DecodableSizes(isa.f, rows, k, blocksize, ext, sel, inv, flags[..k]);
    SuppliesForm(avail, data, parity, ext, sel, miss, k, blocksize);
    LostSetHas(data, parity, flags, miss);
    hide IsByteField, IsLinearCode, Supplies, Decodable, LostBelow, LostBuffers, LostSet, Stripe, AllRestored, Select;
    RebuildLost(isa.f, inv, gen, flags, avail, data, parity, k, m, blocksize, rows, ext, sel);
    RestoredAll(data, parity, flags, frags, ext);
  }

  lemma WithSumParts(f: Field<bv8>, gen: Matrix<bv8>, k: nat, m: nat, l: nat, blocksize: nat, frags: seq<seq<bv8>>)
    requires 0 < l <= k && l <= m && Shape(gen, k + m, k) && |frags| == k + m && IsLinearCode(f, gen, k, blocksize, frags)
    ensures var ext, rows := WithSum(f, gen, k, m, l, blocksize, frags), WithCombined(gen, k, m, l);
      |ext| == k + m + 1 && ext[..k + m] == frags && |rows| == k + m + 1 && forall i :: 0 <= i < k + m ==> gen[i] == rows[i] && ext[i] == frags[i]
  {
    hide IsLinearCode, CombinedRow, Combination;
  }

  /** Rebuilds every lost fragment if there are k independent rows to do it with; otherwise returns -1 and
      leaves everything as it is. */
  method LrcDecode(isa: IsaL, gen: array2<bv8>, data: seq<array<bv8>>, parity: seq<array<bv8>>, k: nat, m: nat, l: nat,
      missing: seq<int>, blocksize: nat, ghost frags: seq<seq<bv8>>) returns (ret: int)
    requires Contract(isa) && gen.Length0 == k + m && gen.Length1 == k && MissingList(missing, k + m)
    requires LrcStripe(isa.f, Rows(gen), k, m, l, blocksize, data, parity, frags, Missing(missing))
    modifies LostSet(data, parity, Missing(missing))
    ensures ret == if Solvable(isa.f, old(Rows(gen)), k, m, l, Missing(missing)) then 0 else -1
    ensures ret == 0 ==> AllRestored(data, parity, frags)
    ensures ret != 0 ==> Contents(data) == old(Contents(data)) && Contents(parity) == old(Contents(parity))
    ensures IsLrcGenerator(isa.f, old(Rows(gen)), k, m, l) && |Missing(missing)| <= m - l + 1 ==> ret == 0
  {
    hide *;
    ghost var miss, rows := Missing(missing), Rows(gen);
    StripeParts(isa.f, rows, k, m, l, blocksize, data, parity, frags, miss);
    WithSumParts(isa.f, rows, k, m, l, blocksize, frags);
    MissingCard(missing, k + m);
    if IsLrcGenerator(isa.f, rows, k, m, l) && |miss| <= m - l + 1 { FewLossesSolvable(isa.f, rows, k, m, l, miss); }
    assert |data| == k && |parity| == m;
    ghost var ext, sel := WithSum(isa.f, rows, k, m, l, blocksize, frags), Selection(k, m, l, miss);
    var flags, numMissing := MarkMissing(missing, k + m);
    var ok, inv, avail := Prepare(isa, gen, data, parity, k, m, l, flags, blocksize, frags, miss, ext);
    if !ok {
      return -1;
    }
    RestoreFrom(isa, gen, inv, avail, data, parity, k, m, flags, blocksize, frags, WithCombined(rows, k, m, l), ext, sel, miss);
    ret := 0;
  }

  lemma MarksNothing(used: seq<bool>)
    requires forall i :: 0 <= i < |used| ==> !used[i]
    ensures Marks(used, [])
  {
  }

  lemma SuppliesForm(avail: seq<array<bv8>>, data: seq<array<bv8>>, parity: seq<array<bv8>>, ext: seq<seq<bv8>>, sel: seq<nat>, miss: set<nat>, k: nat, blocksize: nat)
    requires Supplies(avail, data, parity, ext, sel, miss) && |sel| == k
    requires forall i :: 0 <= i < |ext| ==> |ext[i]| == blocksize
    ensures |avail| == k && AllSized(avail, blocksize) && Indices(sel, |ext|) && Contents(avail) == Select(ext, sel)
    ensures forall i, j :: 0 <= i < |data| + |parity| && i in miss && 0 <= j < k ==> (data + parity)[i] != avail[j]
  {
    forall j | 0 <= j < k ensures avail[j].Length == blocksize { assert |avail[j][..]| == blocksize; }
  }
}
