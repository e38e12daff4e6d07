/** Encoding, decoding and reconstruction as the ISA-L Reed-Solomon backends do them, for any systematic matrix. */
module IsalCommon {
  import opened Fields
  import opened Vectors
  import opened Mds
  import opened MatrixOps
  import opened GaussJordan
  import opened Systematic
  import opened Erasures
  import opened Decoding
  import opened Regions
  import opened IsaL
  import opened InverseRows
  import opened LinearDecode

  /** Writes the parities; data and parities are then a code word. */
  method IsalEncode(isa: IsaL, gen: array2<bv8>, data: seq<array<bv8>>, parity: seq<array<bv8>>, k: nat, m: nat, blocksize: nat)
    requires IsByteField(isa.f) && gen.Length0 == k + m && gen.Length1 == k && IdentityOnTop(isa.f, Rows(gen), k, k)
    requires Stripe(data, parity, k, m, blocksize)
    modifies parity
    ensures Contents(data) == old(Contents(data))
    ensures IsLinearCode(isa.f, Rows(gen), k, blocksize, Contents(data) + Contents(parity))
  {
    hide IsByteField, Combination, IdentityOnTop;
    ghost var rows, d := Rows(gen), Contents(data);
    EcEncodeData(isa.f, blocksize, Rows(gen)[k..], data, parity);
    EncodedIsCode(isa.f, rows, k, m, blocksize, d, Contents(parity));
  }

  lemma EncodedIsCode(f: Field<bv8>, rows: Matrix<bv8>, k: nat, m: nat, blocksize: nat, d: seq<seq<bv8>>, p: seq<seq<bv8>>)
    requires IsByteField(f) && Shape(rows, k + m, k) && IdentityOnTop(f, rows, k, k) && |d| == k && |p| == m
    requires (forall i :: 0 <= i < k ==> |d[i]| == blocksize) && forall j :: 0 <= j < m ==> p[j] == Combination(f, rows[k..][j], d, blocksize)
    ensures IsLinearCode(f, rows, k, blocksize, d + p)
  {
    hide IsByteField;
    FieldOf(f);
    var frags := d + p;
    assert frags[..k] == d;
    forall i | 0 <= i < k + m ensures frags[i] == Combination(f, rows[i], d, blocksize) {
      if i < k {
        var c := Combination(f, rows[i], d, blocksize);
        forall x | 0 <= x < blocksize ensures d[i][x] == c[x] { DotUnit(f, rows[i], ByteColumn(d, x), k, i); }
      }
    }
  }

  /** Copies the rows of the first k fragments that are present; false if there are fewer. */
  method IsalGetDecodeMatrix(gen: array2<bv8>, flags: seq<bool>, k: nat, m: nat, ghost miss: set<nat>) returns (ok: bool, dec: array2<bv8>)
    requires gen.Length0 == k + m && gen.Length1 == k
    requires |flags| == k + m && Marked(flags, miss)
    ensures fresh(dec) && dec.Length0 == dec.Length1 == k
    ensures ok <==> |Available(miss, k + m)| >= k
    ensures ok ==> Rows(dec) == Select(Rows(gen), Available(miss, k + m)[..k])
  {
    dec := new bv8[k, k];
    ghost var rows := Rows(gen);
    var n, i, l := k + m, 0, 0;
    while i < k && l < n
      invariant 0 <= l <= n && i == |Available(miss, l)| <= k && Rows(gen) == rows
      invariant forall r :: 0 <= r < i ==> Rows(dec)[r] == rows[Available(miss, l)[r]]
    {
      if !flags[l] {
        assert rows[l] == Row(gen, l);
        CopyRow(gen, dec, l, i);
        i := i + 1;
      }
      l := l + 1;
    }
    AvailablePrefix(miss, l, n);
    ok := i == k;
    if ok { assert Available(miss, n)[..k] == Available(miss, l); }
  }

  /** The buffers of the first k fragments that are present. */
  method FirstBuffers(data: seq<array<bv8>>, parity: seq<array<bv8>>, flags: seq<bool>, k: nat, m: nat, ghost miss: set<nat>) returns (avail: seq<array<bv8>>)
    requires |data| == k && |parity| == m && |flags| == k + m && Marked(flags, miss)
    requires |Available(miss, k + m)| >= k
    ensures avail == Select(data + parity, Available(miss, k + m)[..k])
  {
    hide *;
    avail := [];
    var i := 0;
    AvailableNext(miss, 0);
    SelectNone(data + parity);
    while i < k + m
      invariant 0 <= i <= k + m && |avail| <= k
      invariant avail == Select(data + parity, Available(miss, i))
      decreases k + m - i
    {
      MarkedAt(flags, miss, i);
      AvailableNext(miss, i);
      if !flags[i] {
        if |avail| == k {
          break;
        }
        SelectSnoc(data + parity, Available(miss, i), i);
        avail := avail + [if i < k then data[i] else parity[i - k]];
      }
      i := i + 1;
    }
    AvailablePrefix(miss, i, k + m);
    assert Available(miss, i) == Available(miss, k + m)[..k];
  }

  /** The first k fragments that are present, as indices. */
  ghost function FirstPresent(k: nat, n: nat, miss: set<nat>): (s: seq<nat>)
    requires |Available(miss, n)| >= k
    ensures |s| == k && Distinct(s) && forall i :: 0 <= i < k ==> s[i] < n && s[i] !in miss
  {
    Available(miss, n)[..k]
  }

  lemma FirstPresentDecodable(isa: IsaL, gen: Matrix<bv8>, k: nat, m: nat, blocksize: nat, frags: seq<seq<bv8>>, miss: set<nat>, flags: seq<bool>, inv: Matrix<bv8>)
    requires IsByteField(isa.f) && |gen| == k + m == |frags| && IdentityOnTop(isa.f, gen, k, k) && IsLinearCode(isa.f, gen, k, blocksize, frags)
    requires |flags| == k + m && Marked(flags, miss) && |Available(miss, k + m)| >= k
    requires Inverts(isa.f, inv, Select(gen, FirstPresent(k, k + m, miss)), k)
    ensures Decodable(isa.f, gen, k, blocksize, frags, FirstPresent(k, k + m, miss), inv, flags[..k])
  {
    hide Available, IsByteField, Inverts, IsLinearCode, IdentityOnTop, PresentCount;
    var sel, lost := FirstPresent(k, k + m, miss), flags[..k];
    forall i: nat | i < k && !lost[i] ensures PresentCount(lost, i) < k && sel[PresentCount(lost, i)] == i {
      PresentCountIs(flags, miss, lost, i);
      AvailableAt(miss, k + m, i);
    }
  }

  /** At least k fragments are present, and the rows of the first k are independent. */
  ghost predicate Solvable(f: Field<bv8>, gen: Matrix<bv8>, k: nat, m: nat, miss: set<nat>) {
    && Shape(gen, k + m, k) && |Available(miss, k + m)| >= k
    && TrivialKernel(f, Select(gen, FirstPresent(k, k + m, miss)), k)
  }

  lemma FewLossesSolvable(f: Field<bv8>, gen: Matrix<bv8>, k: nat, m: nat, miss: set<nat>)
    requires Shape(gen, k + m, k) && AnyRowsIndependent(f, gen, k) && miss <= UpTo(k + m) && |miss| <= m
    ensures Solvable(f, gen, k, m, miss)
  {
    hide Available, AnyRowsIndependent, TrivialKernel, UpTo;
    AvailableCount(miss, k + m);
    assert miss * UpTo(k + m) == miss;
    SelectionIndependent(f, gen, k, FirstPresent(k, k + m, miss));
  }

  /** A stripe of a systematic code: what was stored, and buffers that hold what is not lost. */
  ghost predicate SystematicStripe(f: Field<bv8>, gen: Matrix<bv8>, k: nat, m: nat, blocksize: nat,
      data: seq<array<bv8>>, parity: seq<array<bv8>>, frags: seq<seq<bv8>>, miss: set<nat>)
    reads data, parity
  {
    && IsByteField(f) && IdentityOnTop(f, gen, k, k) && |gen| == k + m == |frags| && IsLinearCode(f, gen, k, blocksize, frags)
    && Stripe(data, parity, k, m, blocksize) && PresentHeld(data, parity, frags, miss)
  }

  /** The first k buffers that are present, and the inverse of their rows. */
  method IsalPrepare(isa: IsaL, gen: array2<bv8>, data: seq<array<bv8>>, parity: seq<array<bv8>>, k: nat, m: nat, flags: seq<bool>, blocksize: nat,
      ghost frags: seq<seq<bv8>>, ghost miss: set<nat>)
    returns (ok: bool, inv: Matrix<bv8>, avail: seq<array<bv8>>)
    requires Contract(isa) && gen.Length0 == k + m && gen.Length1 == k
    requires SystematicStripe(isa.f, Rows(gen), k, m, blocksize, data, parity, frags, miss)
    requires |flags| == k + m && Marked(flags, miss)
    ensures ok <==> Solvable(isa.f, Rows(gen), k, m, miss)
    ensures ok ==> Decodable(isa.f, Rows(gen), k, blocksize, frags, FirstPresent(k, k + m, miss), inv, flags[..k])
    ensures ok ==> |avail| == k && AllSized(avail, blocksize) && |frags| == k + m && Contents(avail) == Select(frags, FirstPresent(k, k + m, miss))
    ensures ok ==> |data| + |parity| == k + m && forall i, j :: 0 <= i < k + m && flags[i] && 0 <= j < k ==> (data + parity)[i] != avail[j]
  {
    hide *;
    SystematicParts(isa.f, Rows(gen), k, m, blocksize, data, parity, frags, miss);
    ghost var rows := Rows(gen);
    ok, inv, avail := false, [], [];
    var found, dec := IsalGetDecodeMatrix(gen, flags, k, m, miss);
    SolvableMeans(isa.f, rows, k, m, miss);
    if !found {
      return;
    }
    ghost var sel := FirstPresent(k, k + m, miss);
    var inverse := isa.invert(Rows(dec), k);
    SquareSelection(rows, sel, k);
    Invertible(isa, Rows(dec), k);
    if inverse.Singular? {
      return;
    }
    ok, inv := true, inverse.rows;
    FirstPresentDecodable(isa, rows, k, m, blocksize, frags, miss, flags, inv);
    avail := FirstBuffers(data, parity, flags, k, m, miss);
    PresentSupplies(data, parity, k, m, blocksize, frags, sel, miss);
    MarkedEverywhere(flags, miss);
  }

  lemma SolvableMeans(f: Field<bv8>, gen: Matrix<bv8>, k: nat, m: nat, miss: set<nat>)
    requires Shape(gen, k + m, k)
    ensures |gen| == k + m && forall i :: 0 <= i < k + m ==> |gen[i]| == k
    ensures |Available(miss, k + m)| < k ==> !Solvable(f, gen, k, m, miss)
    ensures |Available(miss, k + m)| >= k ==> FirstPresent(k, k + m, miss) == Available(miss, k + m)[..k]
    ensures |Available(miss, k + m)| >= k ==>
      (Solvable(f, gen, k, m, miss) <==> TrivialKernel(f, Select(gen, FirstPresent(k, k + m, miss)), k))
  {
    hide Available, TrivialKernel;
  }

  lemma SquareSelection(rows: Matrix<bv8>, sel: seq<nat>, k: nat)
    requires |sel| == k && Shape(rows, |rows|, k) && forall i :: 0 <= i < k ==> sel[i] < |rows|
    ensures Shape(Select(rows, sel), k, k)
  {
  }

  lemma MarkedEverywhere(flags: seq<bool>, miss: set<nat>)
    requires Marked(flags, miss)
    ensures forall i :: 0 <= i < |flags| ==> (flags[i] <==> i in miss)
  {
  }

  lemma SystematicParts(f: Field<bv8>, gen: Matrix<bv8>, k: nat, m: nat, blocksize: nat,
      data: seq<array<bv8>>, parity: seq<array<bv8>>, frags: seq<seq<bv8>>, miss: set<nat>)
    requires SystematicStripe(f, gen, k, m, blocksize, data, parity, frags, miss)
    ensures IsByteField(f) && IdentityOnTop(f, gen, k, k) && Shape(gen, k + m, k) && Shape(gen, |gen|, k) && |gen| == k + m == |frags|
    ensures IsLinearCode(f, gen, k, blocksize, frags) && Stripe(data, parity, k, m, blocksize) && PresentHeld(data, parity, frags, miss)
    ensures |data| == k && |parity| == m && AllSized(data, blocksize) && AllSized(parity, blocksize)
  {
  }

  lemma PresentSupplies(data: seq<array<bv8>>, parity: seq<array<bv8>>, k: nat, m: nat, blocksize: nat, frags: seq<seq<bv8>>, sel: seq<nat>, miss: set<nat>)
    requires Stripe(data, parity, k, m, blocksize) && |frags| == k + m && PresentHeld(data, parity, frags, miss)
    requires forall i :: 0 <= i < |sel| ==> sel[i] < k + m && sel[i] !in miss
    ensures var avail := Select(data + parity, sel);
      AllSized(avail, blocksize) && Contents(avail) == Select(frags, sel)
      && forall i, j :: 0 <= i < k + m && i in miss && 0 <= j < |sel| ==> (data + parity)[i] != avail[j]
  {
    var avail := Select(data + parity, sel);
    forall i, j | 0 <= i < k + m && i in miss && 0 <= j < |sel| ensures (data + parity)[i] != avail[j] {
      SeparateBuffers(data, parity, k, m, blocksize, i, sel[j]);
    }
  }

  /** Rebuilds every lost fragment, or returns -1 and leaves everything as it is; up to m losses of an MDS code it succeeds. */
  method IsalDecode(isa: IsaL, gen: array2<bv8>, data: seq<array<bv8>>, parity: seq<array<bv8>>, k: nat, m: nat,
      missing: seq<int>, blocksize: nat, ghost frags: seq<seq<bv8>>) returns (ret: int)
    requires Contract(isa) && gen.Length0 == k + m && gen.Length1 == k && MissingList(missing, k + m)
    requires SystematicStripe(isa.f, Rows(gen), k, m, blocksize, data, parity, frags, Missing(missing))
    modifies LostSet(data, parity, Missing(missing))
    ensures ret == if Solvable(isa.f, old(Rows(gen)), k, m, Missing(missing)) then 0 else -1
    ensures ret == 0 ==> AllRestored(data, parity, frags)
    ensures ret != 0 ==> Contents(data) == old(Contents(data)) && Contents(parity) == old(Contents(parity))
    ensures |Missing(missing)| <= m && AnyRowsIndependent(isa.f, old(Rows(gen)), k) ==> ret == 0
    ensures |Missing(missing)| > m ==> ret == -1
  {
    hide *;
    ghost var miss, rows := Missing(missing), Rows(gen);
    SystematicParts(isa.f, rows, k, m, blocksize, data, parity, frags, miss);
    MissingCard(missing, k + m);
    LossesDecide(isa.f, rows, k, m, miss);
    var flags, numMissing := MarkMissing(missing, k + m);
    var ok, inv, avail := IsalPrepare(isa, gen, data, parity, k, m, flags, blocksize, frags, miss);
    if !ok {
      return -1;
    }
    SolvableMeans(isa.f, rows, k, m, miss);
    Restored(isa, gen, inv, avail, data, parity, k, m, flags, blocksize, frags, miss);
    ret := 0;
  }

  lemma LossesDecide(f: Field<bv8>, gen: Matrix<bv8>, k: nat, m: nat, miss: set<nat>)
    requires Shape(gen, k + m, k) && miss <= UpTo(k + m)
    ensures |miss| <= m && AnyRowsIndependent(f, gen, k) ==> Solvable(f, gen, k, m, miss)
    ensures |miss| > m ==> !Solvable(f, gen, k, m, miss)
  {
    hide AnyRowsIndependent, UpTo, Available, TrivialKernel;
    if |miss| > m {
      ManyLosses(miss, k, m);
    } else if AnyRowsIndependent(f, gen, k) {
      FewLossesSolvable(f, gen, k, m, miss);
    }
  }

  method Restored(isa: IsaL, gen: array2<bv8>, inv: Matrix<bv8>, avail: seq<array<bv8>>, data: seq<array<bv8>>, parity: seq<array<bv8>>, k: nat, m: nat,
      flags: seq<bool>, blocksize: nat, ghost frags: seq<seq<bv8>>, ghost miss: set<nat>)
    requires gen.Length0 == k + m && gen.Length1 == k && |Available(miss, k + m)| >= k
    requires Stripe(data, parity, k, m, blocksize) && |flags| == k + m && Marked(flags, miss)
    requires |frags| == k + m == |data| + |parity| && PresentHeld(data, parity, frags, miss) && |Rows(gen)| == k + m
    requires Decodable(isa.f, Rows(gen), k, blocksize, frags, FirstPresent(k, k + m, miss), inv, flags[..k])
    requires |avail| == k && AllSized(avail, blocksize) && Contents(avail) == Select(frags, FirstPresent(k, k + m, miss))
    requires forall i, j :: 0 <= i < k + m && flags[i] && 0 <= j < k ==> (data + parity)[i] != avail[j]
    modifies LostSet(data, parity, miss)
    ensures AllRestored(data, parity, frags)
  {
    LostSetHas(data, parity, flags, miss);
    hide IsByteField, IsLinearCode, Decodable, LostBelow, LostBuffers, LostSet, Stripe, AllRestored, Select, Available, FirstPresent;
    RebuildLost(isa.f, inv, gen, flags, avail, data, parity, k, m, blocksize, Rows(gen), frags, FirstPresent(k, k + m, miss));
    RestoredAll(data, parity, flags, frags, frags);
  }

  lemma ManyLosses(miss: set<nat>, k: nat, m: nat)
    requires miss <= UpTo(k + m) && |miss| > m
    ensures |Available(miss, k + m)| < k
  {
    hide UpTo, Available;
    AvailableCount(miss, k + m);
    assert miss * UpTo(k + m) == miss;
  }

  /** Rebuilds one lost fragment and writes no other. */
  method IsalReconstruct(isa: IsaL, gen: array2<bv8>, data: seq<array<bv8>>, parity: seq<array<bv8>>, k: nat, m: nat,
      missing: seq<int>, dest: nat, blocksize: nat, ghost frags: seq<seq<bv8>>) returns (ret: int)
    requires Contract(isa) && gen.Length0 == k + m && gen.Length1 == k && MissingList(missing, k + m)
    requires SystematicStripe(isa.f, Rows(gen), k, m, blocksize, data, parity, frags, Missing(missing))
    requires dest < k + m && dest in Missing(missing) && k + m == |data| + |parity| == |frags|
    modifies (data + parity)[dest]
    ensures ret == if Solvable(isa.f, old(Rows(gen)), k, m, Missing(missing)) then 0 else -1
    ensures ret == 0 ==> (data + parity)[dest][..] == frags[dest]
    ensures ret != 0 ==> (data + parity)[dest][..] == old((data + parity)[dest][..])
    ensures |Missing(missing)| <= m && AnyRowsIndependent(isa.f, old(Rows(gen)), k) ==> ret == 0
    ensures |Missing(missing)| > m ==> ret == -1
  {
    hide *;
    ghost var miss, rows := Missing(missing), Rows(gen);
    SystematicParts(isa.f, rows, k, m, blocksize, data, parity, frags, miss);
    SizeOf(data, parity, dest, blocksize);
    MissingCard(missing, k + m);
    LossesDecide(isa.f, rows, k, m, miss);
    var flags, numMissing := MarkMissing(missing, k + m);
    MarkedAt(flags, miss, dest);
    var ok, inv, avail := IsalPrepare(isa, gen, data, parity, k, m, flags, blocksize, frags, miss);
    if !ok {
      return -1;
    }
    SolvableMeans(isa.f, rows, k, m, miss);
    ghost var sel := FirstPresent(k, k + m, miss);
    DecodableSizes(isa.f, rows, k, blocksize, frags, sel, inv, flags[..k]);
    ContractField(isa);
    var inverseRows := GetLrcInverseRows(isa.f, inv, gen, flags, k, m, 0, k);
    var r := FindRow(flags, dest);
    LostBelowHas(flags, k + m, dest);
    RowRebuilds(isa.f, rows, rows, k, m, blocksize, frags, sel, inv, flags, Rows(inverseRows), r);
    var row, reconstructBuf := Row(inverseRows, r), if dest < k then data[dest] else parity[dest - k];
    assert row == Rows(inverseRows)[r] && reconstructBuf == (data + parity)[dest];
    WriteRow(isa.f, row, avail, reconstructBuf, blocksize);
    ret := 0;
  }
}
