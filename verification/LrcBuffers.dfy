/** The buffers that the LRC decoder reads, in the order of the rows it picked. */
module LrcBuffers {
  import opened Fields
  import opened Vectors
  import opened Mds
  import opened Erasures
  import opened Bytes
  import opened Regions
  import opened LocalGroups
  import opened IsaL
  import opened InverseRows
  import opened LinearDecode
  import opened LrcMatrix
  import opened LrcSelection
  import opened LrcDecodeMatrix

  // ----- the sum of the local parities

  /** The exclusive or of byte x of the first n buffers. */
  ghost function XorSum(bufs: seq<seq<bv8>>, x: nat, n: nat): bv8
    requires n <= |bufs| && forall i :: 0 <= i < |bufs| ==> x < |bufs[i]|
  {
    if n == 0 then 0 else XorByte(XorSum(bufs, x, n - 1), bufs[n - 1][x])
  }

  /** The coefficients of the sum of the first v local parities. */
  ghost function PartialRow(rows: Matrix<bv8>, k: nat, m: nat, l: nat, v: nat): (c: seq<bv8>)
    requires 0 < l <= k && l <= m && Shape(rows, k + m, k)
    ensures |c| == k
    ensures forall j :: 0 <= j < k ==>
      0 <= LocalGroupForData(k, l, j) < l && c[j] == if LocalGroupForData(k, l, j) < v then rows[k + m - l + LocalGroupForData(k, l, j)][j] else 0
  {
    AllGrouped(k, l);
    seq(k, j requires 0 <= j < k => if LocalGroupForData(k, l, j) < v then rows[k + m - l + LocalGroupForData(k, l, j)][j] else 0)
  }

  lemma PartialNone(f: Field<bv8>, rows: Matrix<bv8>, k: nat, m: nat, l: nat, d: seq<bv8>)
    requires IsByteField(f) && 0 < l <= k && l <= m && Shape(rows, k + m, k) && |d| == k
    ensures Dot(f, PartialRow(rows, k, m, l, 0), d, k) == 0
  {
    hide IsByteField;
    ZeroIs(f);
    FieldOf(f);
    DotZeroLeft(f, PartialRow(rows, k, m, l, 0), d, k);
  }

  lemma PartialStep(f: Field<bv8>, rows: Matrix<bv8>, k: nat, m: nat, l: nat, v: nat, next: nat, d: seq<bv8>)
    requires IsByteField(f) && 0 < l <= k && l <= m && Shape(rows, k + m, k) && LocalOnly(f, rows, k, m, l) && v < l && next == v + 1 && |d| == k
    ensures Dot(f, PartialRow(rows, k, m, l, next), d, k) == f.Add(Dot(f, PartialRow(rows, k, m, l, v), d, k), Dot(f, rows[k + m - l + v], d, k))
  {
    hide InGroup, LocalGroupForData;
    var a, b, s := PartialRow(rows, k, m, l, v), rows[k + m - l + v], PartialRow(rows, k, m, l, next);
    forall j | 0 <= j < k ensures s[j] == f.Add(a[j], b[j]) {
      GroupsTile(k, l, j, v);
      AddZero(f, a[j]);
      AddZero(f, b[j]);
    }
    DotAdd(f, a, b, s, d, k);
  }

  /** The exclusive or of the local parities is the combined row applied to the data. */
  lemma {:induction false} XorSumIsPartial(f: Field<bv8>, rows: Matrix<bv8>, k: nat, m: nat, l: nat, blocksize: nat, frags: seq<seq<bv8>>, x: nat, v: nat)
    requires IsByteField(f) && 0 < l <= k && l <= m && |rows| == k + m && IsLinearCode(f, rows, k, blocksize, frags) && LocalOnly(f, rows, k, m, l)
    requires v <= l && x < blocksize
    ensures XorSum(frags[k + m - l..], x, v) == Dot(f, PartialRow(rows, k, m, l, v), ByteColumn(frags[..k], x), k)
  {
    hide IsByteField, LocalOnly, IsLinearCode, Dot, PartialRow;
    LinearShape(f, rows, k, blocksize, frags);
    var d, locals := ByteColumn(frags[..k], x), frags[k + m - l..];
    if v == 0 {
      PartialNone(f, rows, k, m, l, d);
    } else {
      XorSumIsPartial(f, rows, k, m, l, blocksize, frags, x, v - 1);
      PartialStep(f, rows, k, m, l, v - 1, v, d);
      LinearByte(f, rows, k, blocksize, frags, k + m - l + v - 1, x);
      AddIsXor(f, XorSum(locals, x, v - 1), locals[v - 1][x]);
    }
  }

  lemma PartialAll(rows: Matrix<bv8>, k: nat, m: nat, l: nat)
    requires 0 < l <= k && l <= m && Shape(rows, k + m, k)
    ensures PartialRow(rows, k, m, l, l) == CombinedRow(rows, k, m, l)
  {
  }

  /** All fragments and the sum of the local parities: a code whose rows are those the decoder picks from. */
  ghost function WithSum(f: Field<bv8>, rows: Matrix<bv8>, k: nat, m: nat, l: nat, blocksize: nat, frags: seq<seq<bv8>>): (e: seq<seq<bv8>>)
    requires 0 < l <= k && l <= m && |rows| == k + m && IsLinearCode(f, rows, k, blocksize, frags)
    ensures |e| == k + m + 1 && e[..k + m] == frags
  {
    frags + [Combination(f, CombinedRow(rows, k, m, l), frags[..k], blocksize)]
  }

  lemma WithSumIsCode(f: Field<bv8>, rows: Matrix<bv8>, k: nat, m: nat, l: nat, blocksize: nat, frags: seq<seq<bv8>>)
    requires 0 < l <= k && l <= m && |rows| == k + m && IsLinearCode(f, rows, k, blocksize, frags)
    ensures IsLinearCode(f, WithCombined(rows, k, m, l), k, blocksize, WithSum(f, rows, k, m, l, blocksize, frags))
  {
    hide CombinedRow, Combination;
    var e := WithSum(f, rows, k, m, l, blocksize, frags);
    assert e[..k] == frags[..k];
  }

  /** to ^= from, byte by byte. */
  method AddBuffer(from: array<bv8>, to: array<bv8>, blocksize: nat)
    requires from != to && from.Length == to.Length == blocksize
    modifies to
    ensures forall x :: 0 <= x < blocksize ==> to[x] == XorByte(old(to[x]), from[x])
  {
    ghost var before := to[..];
    XoredStart(before, from[..]);
    hide XorByte, XoredTo;
    XorSpan(from, to, 0, blocksize, before);
    XoredAll(to[..], before, from[..]);
  }

  /** A new buffer with the exclusive or of the local parity buffers. */
  method CombineLocalParities(parity: seq<array<bv8>>, k: nat, m: nat, l: nat, blocksize: nat) returns (combined: array<bv8>)
    requires 0 < l <= m == |parity| && AllSized(parity, blocksize)
    ensures fresh(combined) && combined.Length == blocksize
    ensures forall x :: 0 <= x < blocksize ==> combined[x] == XorSum(Contents(parity[m - l..]), x, l)
  {
    ghost var locals := Contents(parity[m - l..]);
    combined := new bv8[blocksize](i => 0);
    hide SummedTo, XorSum, XorByte;
    SummedNone(combined[..], locals, blocksize);
    ghost var n := 0;
    for i := m - l to m
      invariant n == i - (m - l) && Contents(parity[m - l..]) == locals && SummedTo(combined[..], locals, blocksize, n)
    {
      ghost var before := combined[..];
      assert locals[n] == parity[i][..];
      AddBuffer(parity[i], combined, blocksize);
      SummedNext(before, combined[..], locals, blocksize, n);
      n := n + 1;
    }
    SummedAll(combined[..], locals, blocksize, n);
  }

  /** The exclusive or of the first n local parities. */
  ghost predicate SummedTo(now: seq<bv8>, locals: seq<seq<bv8>>, blocksize: nat, n: nat) {
    && n <= |locals| && |now| == blocksize && (forall i :: 0 <= i < |locals| ==> |locals[i]| == blocksize)
    && forall x :: 0 <= x < blocksize ==> now[x] == XorSum(locals, x, n)
  }

  lemma SummedNone(now: seq<bv8>, locals: seq<seq<bv8>>, blocksize: nat)
    requires |now| == blocksize && (forall x :: 0 <= x < blocksize ==> now[x] == 0) && forall i :: 0 <= i < |locals| ==> |locals[i]| == blocksize
    ensures SummedTo(now, locals, blocksize, 0)
  {
  }

  lemma SummedNext(before: seq<bv8>, now: seq<bv8>, locals: seq<seq<bv8>>, blocksize: nat, n: nat)
    requires n < |locals| && SummedTo(before, locals, blocksize, n) && |now| == blocksize
    requires forall x :: 0 <= x < blocksize ==> now[x] == XorByte(before[x], locals[n][x])
    ensures SummedTo(now, locals, blocksize, n + 1)
  {
    hide XorByte;
  }

  lemma SummedAll(now: seq<bv8>, locals: seq<seq<bv8>>, blocksize: nat, n: nat)
    requires SummedTo(now, locals, blocksize, n)
    ensures |now| == blocksize && n <= |locals| && (forall i :: 0 <= i < |locals| ==> |locals[i]| == blocksize)
    ensures forall x :: 0 <= x < blocksize ==> now[x] == XorSum(locals, x, n)
  {
  }

  // ----- the available fragments

  /** What the scan reaches before it has k rows is used. */
  ghost predicate ScanUsed(used: seq<bool>, miss: set<nat>, k: nat, limit: nat) {
    limit <= |used| && forall x :: 0 <= x < limit && x !in miss && |Available(miss, x)| < k ==> used[x]
  }

  /** The buffers of the fragments below limit that are present, k at most; parities only if used. */
  method TakePresentBuffers(data: seq<array<bv8>>, parity: seq<array<bv8>>, flags: seq<bool>, used: seq<bool>, k: nat, limit: nat, ghost miss: set<nat>)
    returns (avail: seq<array<bv8>>)
    requires |data| == k && limit <= |flags| == |used| == k + |parity|
    requires Marked(flags, miss)
    requires ScanUsed(used, miss, k, limit)
    ensures var a := Available(miss, limit);
      avail == Select(data + parity, a[..if |a| < k then |a| else k])
  {
    hide Available, Select;
    avail := [];
    var i := 0;
    AvailableNext(miss, 0);
    SelectNone(data + parity);
    ghost var a := [];
    while i < limit && |avail| < k
      invariant 0 <= i <= limit && a == Available(miss, i) && avail == Select(data + parity, a) && |avail| == |a| <= k
    {
      AvailableNext(miss, i);
      SelectSnoc(data + parity, a, i);
      if !flags[i] {
        if i < k {
          avail := avail + [data[i]];
        } else if used[i] {
          avail := avail + [parity[i - k]];
        }
      }
      i := i + 1;
      a := Available(miss, i);
    }
    TakenAll(miss, i, limit, k);
  }

  lemma TakenAll(miss: set<nat>, i: nat, limit: nat, k: nat)
    requires i <= limit && |Available(miss, i)| <= k && (i == limit || |Available(miss, i)| == k)
    ensures var a := Available(miss, limit); Available(miss, i) == a[..if |a| < k then |a| else k]
  {
    hide Available;
    AvailablePrefix(miss, i, limit);
  }

  lemma {:induction false} UsableLocalsHas(k: nat, m: nat, l: nat, miss: set<nat>, v: nat, n: nat)
    requires 0 < l <= m && v < n <= l
    ensures k + m - l + v in UsableLocals(k, m, l, miss, n) <==> GroupHit(k, l, v, miss) && k + m - l + v !in miss
  {
    hide GroupHit;
    if v < n - 1 { UsableLocalsHas(k, m, l, miss, v, n - 1); }
  }

  /** While there are too few rows, a local parity is used exactly if it is usable. */
  lemma UsedIsUsable(k: nat, m: nat, l: nat, miss: set<nat>, used: seq<bool>, first: seq<nat>, v: nat)
    requires 0 < l <= m && v < l && |used| == k + m
    requires var all := first + UsableLocals(k, m, l, miss, l); Marks(used, all[..if |all| < k then |all| else k])
    requires forall i :: 0 <= i < |first| ==> first[i] < k + m - l
    requires |first| + |UsableLocals(k, m, l, miss, v)| < k
    ensures used[k + m - l + v] <==> GroupHit(k, l, v, miss) && k + m - l + v !in miss
  {
    hide GroupHit, Marks, UsableLocals;
    var x, locals := k + m - l + v, UsableLocals(k, m, l, miss, l);
    var n, all := |UsableLocals(k, m, l, miss, v)|, first + locals;
    var size := if |all| < k then |all| else k;
    UsableLocalsHas(k, m, l, miss, v, l);
    LocalsStep(k, m, l, miss, v);
    LocalsPrefix(k, m, l, miss, v + 1, l);
    MarksAt(used, all[..size], x);
    if GroupHit(k, l, v, miss) && x !in miss {
      assert locals[n] == UsableLocals(k, m, l, miss, v + 1)[n] == x;
      assert all[..size][|first| + n] == x;
    } else {
      assert x !in first && x !in locals;
      assert x !in all;
    }
  }

  lemma MarksAt(used: seq<bool>, sel: seq<nat>, x: nat)
    requires Marks(used, sel) && x < |used|
    ensures used[x] <==> x in sel
  {
  }

  /** Adds the buffers of the used local parities, up to k buffers. */
  method TakeUsedLocals(data: seq<array<bv8>>, parity: seq<array<bv8>>, flags: seq<bool>, used: seq<bool>, start: seq<array<bv8>>,
      k: nat, m: nat, l: nat, ghost miss: set<nat>, ghost first: seq<nat>) returns (avail: seq<array<bv8>>)
    requires 0 < l <= m && |data| == k && |parity| == m && |used| == |flags| == k + m
    requires Marked(flags, miss)
    requires forall i :: 0 <= i < |first| ==> first[i] < k + m - l
    requires |first| < k && start == Select(data + parity, first)
    requires var all := first + UsableLocals(k, m, l, miss, l); Marks(used, all[..if |all| < k then |all| else k])
    ensures var all := first + UsableLocals(k, m, l, miss, l);
      avail == Select(data + parity, all[..if |all| < k then |all| else k])
  {
    hide UsableLocals, GroupHit, Marks, Select;
    avail := start;
    var i := k + m - l;
    LocalsStep(k, m, l, miss, 0);
    ghost var sel, v := first, 0;
    while i < k + m && |avail| < k
      invariant v <= l && i == k + m - l + v && |avail| == |sel| <= k
      invariant sel == first + UsableLocals(k, m, l, miss, v) && avail == Select(data + parity, sel)
    {
      UseStep(k, m, l, miss, used, first, v, sel);
      if !flags[i] {
        if used[i] {
          SelectSnoc(data + parity, sel, i);
          avail := avail + [parity[i - k]];
          sel := sel + [i];
        }
      }
      i := i + 1;
      v := v + 1;
    }
    LocalsTaken(k, m, l, miss, first, v, sel);
  }

  lemma UseStep(k: nat, m: nat, l: nat, miss: set<nat>, used: seq<bool>, first: seq<nat>, v: nat, sel: seq<nat>)
    requires 0 < l <= m && v < l && |used| == k + m
    requires var all := first + UsableLocals(k, m, l, miss, l); Marks(used, all[..if |all| < k then |all| else k])
    requires forall i :: 0 <= i < |first| ==> first[i] < k + m - l
    requires sel == first + UsableLocals(k, m, l, miss, v) && |sel| < k
    ensures var x := k + m - l + v;
      first + UsableLocals(k, m, l, miss, v + 1) == sel + if x !in miss && used[x] then [x] else []
    ensures forall i :: 0 <= i < |sel| ==> sel[i] < k + m
  {
    hide UsableLocals, GroupHit, Marks;
    UsedIsUsable(k, m, l, miss, used, first, v);
    LocalsStep(k, m, l, miss, v);
  }

  lemma LocalsTaken(k: nat, m: nat, l: nat, miss: set<nat>, first: seq<nat>, v: nat, sel: seq<nat>)
    requires 0 < l <= m && v <= l && sel == first + UsableLocals(k, m, l, miss, v)
    requires |sel| <= k && (v == l || |sel| == k)
    ensures var all := first + UsableLocals(k, m, l, miss, l); sel == all[..if |all| < k then |all| else k]
  {
    hide UsableLocals;
    LocalsPrefix(k, m, l, miss, v, l);
  }

  method AnyLost(flags: seq<bool>, lo: nat, hi: nat) returns (any: bool)
    requires lo <= hi <= |flags|
    ensures any <==> exists i :: lo <= i < hi && flags[i]
  {
    any := false;
    for j := lo to hi
      invariant any <==> exists i :: lo <= i < j && flags[i]
    {
      any := any || flags[j];
    }
  }

  /** k buffers with the contents of the selected fragments, none of them the buffer of a lost one. */
  ghost predicate Supplies(avail: seq<array<bv8>>, data: seq<array<bv8>>, parity: seq<array<bv8>>, ext: seq<seq<bv8>>, sel: seq<nat>, miss: set<nat>)
    reads avail
  {
    && |avail| == |sel| && |ext| == |data| + |parity| + 1
    && (forall j :: 0 <= j < |sel| ==> sel[j] < |ext| && avail[j][..] == ext[sel[j]])
    && (forall i, j :: 0 <= i < |data| + |parity| && i in miss && 0 <= j < |avail| ==> (data + parity)[i] != avail[j])
  }

  lemma SuppliesPresent(data: seq<array<bv8>>, parity: seq<array<bv8>>, k: nat, m: nat, blocksize: nat, frags: seq<seq<bv8>>, ext: seq<seq<bv8>>,
      sel: seq<nat>, miss: set<nat>)
    requires Stripe(data, parity, k, m, blocksize) && |frags| == k + m && |ext| == k + m + 1 && ext[..k + m] == frags
    requires PresentHeld(data, parity, frags, miss)
    requires forall i :: 0 <= i < |sel| ==> sel[i] < k + m && sel[i] !in miss
    ensures Supplies(Select(data + parity, sel), data, parity, ext, sel, miss)
  {
    var avail := Select(data + parity, sel);
    forall j | 0 <= j < |sel| ensures avail[j][..] == ext[sel[j]] { assert ext[sel[j]] == ext[..k + m][sel[j]]; }
    forall i, j | 0 <= i < k + m && i in miss && 0 <= j < |sel| ensures (data + parity)[i] != avail[j] {
      SeparateBuffers(data, parity, k, m, blocksize, i, sel[j]);
    }
  }

  /** The sum of the local parities, from their buffers. */
  lemma CombinedContents(isa: Field<bv8>, rows: Matrix<bv8>, k: nat, m: nat, l: nat, blocksize: nat, frags: seq<seq<bv8>>, combined: seq<bv8>, locals: seq<seq<bv8>>)
    requires IsByteField(isa) && 0 < l <= k && l <= m && |rows| == k + m && IsLinearCode(isa, rows, k, blocksize, frags) && LocalOnly(isa, rows, k, m, l)
    requires locals == frags[k + m - l..] && |combined| == blocksize
    requires forall x :: 0 <= x < blocksize ==> combined[x] == XorSum(locals, x, l)
    ensures combined == WithSum(isa, rows, k, m, l, blocksize, frags)[k + m]
  {
    var c := Combination(isa, CombinedRow(rows, k, m, l), frags[..k], blocksize);
    PartialAll(rows, k, m, l);
    forall x | 0 <= x < blocksize ensures combined[x] == c[x] {
      XorSumIsPartial(isa, rows, k, m, l, blocksize, frags, x, l);
    }
  }
}
