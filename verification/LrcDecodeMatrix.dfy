/** Filling the matrix that the LRC decoder inverts. */
module LrcDecodeMatrix {
  import opened Mds
  import opened MatrixOps
  import opened Erasures
  import opened Decoding
  import opened LocalGroups
  import opened LrcMatrix
  import opened LrcSelection

  /** The first rows of the matrix are those that the list picks. */
  ghost predicate Holds(rows: Matrix<bv8>, ext: Matrix<bv8>, sel: seq<nat>) {
    |sel| <= |rows| && forall x :: 0 <= x < |sel| ==> sel[x] < |ext| && rows[x] == ext[sel[x]]
  }

  /** The flags are set for just the listed indices. */
  ghost predicate Marks(used: seq<bool>, sel: seq<nat>) {
    forall x :: 0 <= x < |used| ==> (used[x] <==> x in sel)
  }

  lemma HoldsStep(rows: Matrix<bv8>, ext: Matrix<bv8>, sel: seq<nat>, i: nat)
    requires Holds(rows, ext, sel) && |sel| < |rows| && i < |ext|
    ensures Holds(rows[|sel| := ext[i]], ext, sel + [i])
  {
  }

  lemma MarksStep(used: seq<bool>, sel: seq<nat>, i: nat)
    requires Marks(used, sel)
    ensures i < |used| ==> Marks(used[i := true], sel + [i])
    ensures i >= |used| ==> Marks(used, sel + [i])
  {
  }

  /** Takes fragment locate as the next row. */
  method TakeRow(gen: array2<bv8>, dec: array2<bv8>, used: array<bool>, locate: nat, i: nat, k: nat, ghost ext: Matrix<bv8>, ghost sel: seq<nat>)
    requires gen != dec && gen.Length1 == k == dec.Length0 == dec.Length1 && locate < gen.Length0 == used.Length && locate < |ext|
    requires Holds(Rows(dec), ext, sel) && i == |sel| < k && ext[locate] == Row(gen, locate) && Marks(used[..], sel)
    modifies dec, used
    ensures Rows(gen) == old(Rows(gen))
    ensures Holds(Rows(dec), ext, sel + [locate]) && Marks(used[..], sel + [locate])
  {
    hide Holds, Marks;
    HoldsStep(Rows(dec), ext, sel, locate);
    MarksStep(used[..], sel, locate);
    ghost var u := used[..];
    CopyRow(gen, dec, locate, i);
    used[locate] := true;
    assert used[..] == u[locate := true];
  }

  /** Takes the fragments below limit that are present, k at most. */
  method TakePresent(gen: array2<bv8>, dec: array2<bv8>, flags: seq<bool>, used: array<bool>, k: nat, limit: nat, ghost miss: set<nat>, ghost ext: Matrix<bv8>)
    returns (i: nat, totalMissing: nat)
    requires gen != dec && gen.Length1 == k == dec.Length0 == dec.Length1 && limit <= gen.Length0 == used.Length == |flags|
    requires Marked(flags, miss)
    requires gen.Length0 <= |ext| && forall x :: 0 <= x < gen.Length0 ==> ext[x] == Row(gen, x)
    requires Marks(used[..], [])
    modifies dec, used
    ensures Rows(gen) == old(Rows(gen))
    ensures i == if |Available(miss, limit)| < k then |Available(miss, limit)| else k
    ensures Holds(Rows(dec), ext, Available(miss, limit)[..i]) && Marks(used[..], Available(miss, limit)[..i])
    ensures i < k ==> totalMissing == |miss * UpTo(limit)|
  {
    hide Holds, Marks, UpTo;
    ghost var rows := Rows(gen);
    var locate := 0;
    i, totalMissing := 0, 0;
    ghost var sel: seq<nat> := [];
    HoldsNothing(Rows(dec), ext);
    while i < k && locate < limit
      invariant 0 <= locate <= limit && Rows(gen) == rows
      invariant sel == Available(miss, locate) && i == |sel| <= k && totalMissing == locate - i
      invariant Holds(Rows(dec), ext, sel) && Marks(used[..], sel)
    {
      if flags[locate] {
        totalMissing := totalMissing + 1;
      } else {
        assert rows[locate] == Row(gen, locate);
        TakeRow(gen, dec, used, locate, i, k, ext, sel);
        sel := sel + [locate];
        i := i + 1;
      }
      locate := locate + 1;
    }
    AvailablePrefix(miss, locate, limit);
    AvailableCount(miss, limit);
    assert sel == Available(miss, limit)[..i];
  }

  lemma HoldsNothing(rows: Matrix<bv8>, ext: Matrix<bv8>)
    ensures Holds(rows, ext, [])
  {
  }

  /** Copies columns lo to hi of one row. */
  method CopyGroup(gen: array2<bv8>, dec: array2<bv8>, fromRow: nat, toRow: nat, lo: nat, hi: nat)
    requires gen != dec && lo <= hi <= gen.Length1 == dec.Length1 && fromRow < gen.Length0 && toRow < dec.Length0
    modifies dec
    ensures Rows(gen) == old(Rows(gen))
    ensures forall c :: lo <= c < hi ==> dec[toRow, c] == gen[fromRow, c]
    ensures forall r, c :: 0 <= r < dec.Length0 && 0 <= c < dec.Length1 && !(r == toRow && lo <= c < hi) ==> dec[r, c] == old(dec[r, c])
  {
    for u := lo to hi
      invariant forall c :: lo <= c < u ==> dec[toRow, c] == gen[fromRow, c]
      invariant forall r, c :: 0 <= r < dec.Length0 && 0 <= c < dec.Length1 && !(r == toRow && lo <= c < u) ==> dec[r, c] == old(dec[r, c])
    {
      dec[toRow, u] := gen[fromRow, u];
    }
  }

  /** Writes the sum of the local parity rows, group by group, into row i. */
  method CombineLocals(gen: array2<bv8>, dec: array2<bv8>, i: nat, k: nat, m: nat, l: nat)
    requires gen != dec && 0 < l <= m && l <= k && gen.Length0 == k + m && gen.Length1 == k == dec.Length0 == dec.Length1 && i < k
    modifies dec
    ensures Rows(gen) == old(Rows(gen))
    ensures Rows(dec) == old(Rows(dec))[i := CombinedRow(Rows(gen), k, m, l)]
  {
    hide LocalGroupDataLower, LocalGroupSize, LocalGroupForData, CombinedRow;
    ghost var rows, before := Rows(gen), Rows(dec);
    ghost var sum := CombinedRow(rows, k, m, l);
    var groupOffset := 0;
    GroupEnds(k, l);
    for v := 0 to l
      invariant groupOffset == LocalGroupDataLower(k, l, v) && Rows(gen) == rows
      invariant forall c :: 0 <= c < groupOffset && c < k ==> dec[i, c] == sum[c]
      invariant forall r, c :: 0 <= r < k && 0 <= c < k && r != i ==> dec[r, c] == before[r][c]
    {
      var groupSize := LocalGroupSize(k, l, v);
      GroupsTile(k, l, 0, v);
      CopyGroup(gen, dec, k + m - l + v, i, groupOffset, groupOffset + groupSize);
      forall c | groupOffset <= c < groupOffset + groupSize ensures sum[c] == rows[k + m - l + v][c] {
        GroupsTile(k, l, c, v);
      }
      groupOffset := groupOffset + groupSize;
    }
    SameRows(dec, before[i := sum]);
  }

  /** The combined local parities as one more row; no fragment is marked for it. */
  method TakeCombined(gen: array2<bv8>, dec: array2<bv8>, ghost used: seq<bool>, i: nat, k: nat, m: nat, l: nat, ghost ext: Matrix<bv8>, ghost sel: seq<nat>)
    requires gen != dec && 0 < l <= m && l <= k && gen.Length0 == k + m == |used| && gen.Length1 == k == dec.Length0 == dec.Length1
    requires i == |sel| < k && Shape(Rows(gen), k + m, k) && ext == WithCombined(Rows(gen), k, m, l)
    requires Holds(Rows(dec), ext, sel) && Marks(used, sel)
    modifies dec
    ensures Rows(gen) == old(Rows(gen))
    ensures Holds(Rows(dec), ext, sel + [k + m]) && Marks(used, sel + [k + m])
  {
    hide *;
    ExtendedRows(gen, k, m, l);
    HoldsStep(Rows(dec), ext, sel, k + m);
    MarksStep(used, sel, k + m);
    CombineLocals(gen, dec, i, k, m, l);
  }

  /** Takes present local parities whose group misses data, until there are k rows. */
  method TakeLocals(gen: array2<bv8>, dec: array2<bv8>, flags: seq<bool>, useParity: seq<bool>, used: array<bool>, start: nat,
      k: nat, m: nat, l: nat, ghost miss: set<nat>, ghost ext: Matrix<bv8>, ghost first: seq<nat>) returns (i: nat)
    requires gen != dec && 0 < l <= m && gen.Length1 == k == dec.Length0 == dec.Length1 && gen.Length0 == used.Length == |flags| == k + m
    requires Marked(flags, miss)
    requires |useParity| == l && forall v :: 0 <= v < l ==> (useParity[v] <==> GroupHit(k, l, v, miss))
    requires gen.Length0 <= |ext| && forall x :: 0 <= x < gen.Length0 ==> ext[x] == Row(gen, x)
    requires Holds(Rows(dec), ext, first) && Marks(used[..], first) && start == |first| <= k
    modifies dec, used
    ensures Rows(gen) == old(Rows(gen))
    ensures var all := first + UsableLocals(k, m, l, miss, l);
      i == (if |all| < k then |all| else k) && Holds(Rows(dec), ext, all[..i]) && Marks(used[..], all[..i])
  {
    hide Holds, Marks, GroupHit, UsableLocals;
    ghost var rows := Rows(gen);
    ghost var all := first + UsableLocals(k, m, l, miss, l);
    i := start;
    var v := 0;
    ghost var sel := first;
    LocalsStep(k, m, l, miss, 0);
    while i < k && v < l
      invariant 0 <= v <= l && Rows(gen) == rows
      invariant sel == first + UsableLocals(k, m, l, miss, v) && i == |sel| <= k
      invariant Holds(Rows(dec), ext, sel) && Marks(used[..], sel)
    {
      var locate := k + m - l + v;
      LocalsStep(k, m, l, miss, v);
      if useParity[v] && !flags[locate] {
        assert rows[locate] == Row(gen, locate);
        TakeRow(gen, dec, used, locate, i, k, ext, sel);
        sel := sel + [locate];
        i := i + 1;
      }
      v := v + 1;
    }
    LocalsPrefix(k, m, l, miss, v, l);
    assert sel == all[..i];
  }

  lemma LocalsStep(k: nat, m: nat, l: nat, miss: set<nat>, v: nat)
    requires 0 < l <= m && v < l
    ensures UsableLocals(k, m, l, miss, 0) == []
    ensures UsableLocals(k, m, l, miss, v + 1) == UsableLocals(k, m, l, miss, v)
      + (if GroupHit(k, l, v, miss) && k + m - l + v !in miss then [k + m - l + v] else [])
  {
    hide GroupHit;
  }

  lemma {:induction false} LocalsPrefix(k: nat, m: nat, l: nat, miss: set<nat>, v: nat, n: nat)
    requires 0 < l <= m && v <= n <= l
    ensures UsableLocals(k, m, l, miss, v) <= UsableLocals(k, m, l, miss, n)
  {
    hide GroupHit;
    if v < n { LocalsPrefix(k, m, l, miss, v, n - 1); }
  }

  /** Fills up from the rows that the scan over data and global parities found. */
  method FillUp(gen: array2<bv8>, dec: array2<bv8>, flags: seq<bool>, useParity: seq<bool>, missingLocal: bool, used: array<bool>, found: nat, totalMissing: nat,
      k: nat, m: nat, l: nat, ghost miss: set<nat>, ghost ext: Matrix<bv8>) returns (i: nat, useCombined: bool)
    requires gen != dec && 0 < l <= m && l <= k && gen.Length1 == k == dec.Length0 == dec.Length1 && gen.Length0 == used.Length == |flags| == k + m
    requires Marked(flags, miss)
    requires |useParity| == l && forall v :: 0 <= v < l ==> (useParity[v] <==> GroupHit(k, l, v, miss))
    requires missingLocal <==> !NoLocalMissing(k, m, l, miss)
    requires found == if |Available(miss, k + m - l)| < k then |Available(miss, k + m - l)| else k
    requires found < k ==> totalMissing == |miss * UpTo(k + m - l)|
    requires Shape(Rows(gen), k + m, k) && ext == WithCombined(Rows(gen), k, m, l)
    requires var first := Available(miss, k + m - l)[..found]; Holds(Rows(dec), ext, first) && Marks(used[..], first)
    modifies dec, used
    ensures Rows(gen) == old(Rows(gen)) && (useCombined <==> UseCombined(k, m, l, miss))
    ensures i == |Selection(k, m, l, miss)| <= k && Holds(Rows(dec), ext, Selection(k, m, l, miss)) && Marks(used[..], Selection(k, m, l, miss))
  {
    hide *;
    ExtendedRows(gen, k, m, l);
    i, useCombined := found, false;
    ghost var first := Available(miss, k + m - l)[..found];
    SelectionIs(k, m, l, miss, found);
    if i < k && !missingLocal && totalMissing == m - l + 1 {
      useCombined := true;
      TakeCombined(gen, dec, used[..], i, k, m, l, ext, first);
      i := i + 1;
    }
    if i < k {
      i := TakeLocals(gen, dec, flags, useParity, used, i, k, m, l, miss, ext, first);
    }
  }

  /** Picks the rows to decode with; false if there are fewer than k. */
  method GetDecodeMatrix(gen: array2<bv8>, flags: seq<bool>, used: array<bool>, k: nat, m: nat, l: nat, ghost miss: set<nat>)
    returns (ok: bool, dec: array2<bv8>, useCombined: bool)
    requires 0 < l <= m && l <= k && gen.Length0 == used.Length == |flags| == k + m && gen.Length1 == k
    requires Marked(flags, miss)
    requires Marks(used[..], [])
    modifies used
    ensures ok <==> |Selection(k, m, l, miss)| == k
    ensures fresh(dec) && dec.Length0 == dec.Length1 == k
    ensures ok ==> Rows(dec) == Select(WithCombined(Rows(gen), k, m, l), Selection(k, m, l, miss))
    ensures Marks(used[..], Selection(k, m, l, miss)) && (useCombined <==> UseCombined(k, m, l, miss))
  {
    hide *;
    dec := new bv8[k, k];
    ghost var rows := Rows(gen);
    ExtendedRows(gen, k, m, l);
    ghost var ext, sel := WithCombined(rows, k, m, l), Selection(k, m, l, miss);
    var globalParity := m - l;
    var useParity, missingLocal := MarkGroups(k, m, l, flags, miss);
    var i, totalMissing := TakePresent(gen, dec, flags, used, k, k + globalParity, miss, ext);
    assert Rows(gen) == rows;
    i, useCombined := FillUp(gen, dec, flags, useParity, missingLocal, used, i, totalMissing, k, m, l, miss, ext);
    ok := i == k;
    if ok { HoldsAll(Rows(dec), ext, sel); }
  }

  lemma ExtendedRows(gen: array2<bv8>, k: nat, m: nat, l: nat)
    requires 0 < l <= k && l <= m && gen.Length0 == k + m && gen.Length1 == k
    ensures |WithCombined(Rows(gen), k, m, l)| == k + m + 1 && Shape(Rows(gen), k + m, k)
    ensures forall x :: 0 <= x < k + m ==> WithCombined(Rows(gen), k, m, l)[x] == Row(gen, x)
    ensures WithCombined(Rows(gen), k, m, l)[k + m] == CombinedRow(Rows(gen), k, m, l)
  {
    hide CombinedRow;
    forall x | 0 <= x < k + m ensures WithCombined(Rows(gen), k, m, l)[x] == Row(gen, x) { assert Rows(gen)[x] == Row(gen, x); }
  }

  /** The selection, by the number i of rows that were present. */
  lemma SelectionIs(k: nat, m: nat, l: nat, miss: set<nat>, i: nat)
    requires 0 < l <= m && i == if |Available(miss, k + m - l)| < k then |Available(miss, k + m - l)| else k
    ensures UseCombined(k, m, l, miss) <==> i < k && NoLocalMissing(k, m, l, miss) && |miss * UpTo(k + m - l)| == m - l + 1
    ensures var first := Available(miss, k + m - l)[..i];
      var all := first + UsableLocals(k, m, l, miss, l);
      Selection(k, m, l, miss) ==
        if i == k then first else if UseCombined(k, m, l, miss) then first + [k + m] else all[..if |all| < k then |all| else k]
    ensures UseCombined(k, m, l, miss) ==> i + 1 == k
  {
    hide UsableLocals, Available, NoLocalMissing, UpTo;
    AvailableCount(miss, k + m - l);
  }

  lemma HoldsAll(rows: Matrix<bv8>, ext: Matrix<bv8>, sel: seq<nat>)
    requires Holds(rows, ext, sel) && |sel| == |rows|
    ensures rows == Select(ext, sel)
  {
  }
}
