/** Which rows the LRC decoder picks, and when it finds enough of them. */
module LrcSelection {
  import opened Fields
  import opened Mds
  import opened Erasures
  import opened LocalGroups
  import opened LrcMatrix
  import Preprocessing

  /** Some data fragment of group v, below n, is missing. */
  ghost predicate HitBelow(k: nat, l: nat, v: nat, miss: set<nat>, n: nat)
    requires l > 0
  {
    exists d: nat :: d < n && d in miss && InGroup(k, l, v, d)
  }

  ghost predicate GroupHit(k: nat, l: nat, v: nat, miss: set<nat>)
    requires l > 0
  {
    HitBelow(k, l, v, miss, k)
  }

  /** The present local parities, of the first v, whose group misses data. */
  ghost function UsableLocals(k: nat, m: nat, l: nat, miss: set<nat>, v: nat): (s: seq<nat>)
    requires 0 < l <= m && v <= l
    ensures |s| <= v
    ensures forall i :: 0 <= i < |s| ==> k + m - l <= s[i] < k + m - l + v && s[i] !in miss
    ensures Distinct(s)
  {
    if v == 0 then []
    else
      UsableLocals(k, m, l, miss, v - 1)
      + (if GroupHit(k, l, v - 1, miss) && k + m - l + v - 1 !in miss then [k + m - l + v - 1] else [])
  }

  ghost predicate NoLocalMissing(k: nat, m: nat, l: nat, miss: set<nat>)
    requires l <= m
  {
    forall i: nat :: k + m - l <= i < k + m ==> i !in miss
  }

  /** One loss too many for the global parities, and every local parity there to stand in for one more. */
  ghost predicate UseCombined(k: nat, m: nat, l: nat, miss: set<nat>)
    requires l <= m
  {
    && |Available(miss, k + m - l)| < k
    && NoLocalMissing(k, m, l, miss)
    && |miss * UpTo(k + m - l)| == m - l + 1
  }

  /** The rows picked, in order; k + m stands for the sum of the local parities. */
  ghost function Selection(k: nat, m: nat, l: nat, miss: set<nat>): (s: seq<nat>)
    requires 0 < l <= m
    ensures |s| <= k && Distinct(s) && forall i :: 0 <= i < |s| ==> s[i] <= k + m && s[i] !in miss - {k + m}
  {
    var a := Available(miss, k + m - l);
    if |a| >= k then a[..k]
    else if UseCombined(k, m, l, miss) then a + [k + m]
    else
      var t := a + UsableLocals(k, m, l, miss, l);
      if |t| > k then t[..k] else t
  }

  /** All rows, and the sum of the local ones. */
  ghost function WithCombined(rows: Matrix<bv8>, k: nat, m: nat, l: nat): (e: Matrix<bv8>)
    requires 0 < l <= k && l <= m && Shape(rows, k + m, k)
    ensures Shape(e, k + m + 1, k)
  {
    rows + [CombinedRow(rows, k, m, l)]
  }

  // ----- when there are enough rows

  /** The number of fragments that help: data and global parities that are present, and usable local parities. */
  ghost function Useful(k: nat, m: nat, l: nat, miss: set<nat>): nat
    requires 0 < l <= m
  {
    |Available(miss, k + m - l)| + |UsableLocals(k, m, l, miss, l)|
  }

  lemma {:induction false} HitIsUsable(k: nat, m: nat, l: nat, miss: set<nat>, v: nat, n: nat)
    requires 0 < l <= m && v < n <= l && GroupHit(k, l, v, miss) && k + m - l + v !in miss
    ensures |UsableLocals(k, m, l, miss, n)| >= 1
  {
    hide GroupHit;
    if v < n - 1 { HitIsUsable(k, m, l, miss, v, n - 1); }
  }

  /** Where the sum of the local parities is used, some local parity would have been useful. */
  lemma CombinedHasUseful(k: nat, m: nat, l: nat, miss: set<nat>)
    requires 0 < l <= m && l <= k && UseCombined(k, m, l, miss)
    ensures |Available(miss, k + m - l)| == k - 1
    ensures |UsableLocals(k, m, l, miss, l)| >= 1
  {
    hide InGroup, LocalGroupForData, GroupHit, UsableLocals, Available, UpTo;
    AvailableCount(miss, k + m - l);
    var d := SomeDataLost(miss, k, m - l);
    var v := LocalGroupForData(k, l, d);
    GroupsTile(k, l, d, 0);
    GroupsTile(k, l, d, v);
    HitBy(k, l, v, d, miss);
    HitIsUsable(k, m, l, miss, v, l);
  }

  lemma SomeDataLost(miss: set<nat>, k: nat, r: nat) returns (d: nat)
    requires |miss * UpTo(k + r)| > r
    ensures d < k && d in miss
  {
    var lost := miss * UpTo(k + r);
    if lost !! UpTo(k) { OnlyAbove(lost, k, r); }
    d :| d in lost && d in UpTo(k);
  }

  lemma HitBy(k: nat, l: nat, v: nat, d: nat, miss: set<nat>)
    requires l > 0 && d < k && d in miss && InGroup(k, l, v, d)
    ensures GroupHit(k, l, v, miss)
  {
  }

  lemma {:induction false} OnlyAbove(s: set<nat>, k: nat, r: nat)
    requires s <= UpTo(k + r) && s !! UpTo(k)
    ensures |s| <= r
  {
    SubsetCard(s + UpTo(k), UpTo(k + r));
  }

  /** The pre-check counts at least k useful fragments exactly when the decoder finds its k rows. */
  lemma UsefulIffSelected(k: nat, m: nat, l: nat, miss: set<nat>)
    requires 0 < l <= m && l <= k
    ensures Useful(k, m, l, miss) >= k <==> |Selection(k, m, l, miss)| == k
  {
    hide UseCombined, UsableLocals, Available;
    if UseCombined(k, m, l, miss) { CombinedHasUseful(k, m, l, miss); }
  }

  /** The groups, of the first n, that lost data and whose local parity is present. */
  ghost function HitGroups(k: nat, m: nat, l: nat, miss: set<nat>, n: nat): (s: set<nat>)
    requires 0 < l <= m && n <= l
    ensures forall v: nat :: v in s <==>
      v < n && k + m - l + v !in miss && exists d: nat :: d < k && d in miss && InGroup(k, l, v, d)
  {
    set v: nat | v < n && k + m - l + v !in miss && GroupHit(k, l, v, miss)
  }

  lemma {:induction false} UsableCount(k: nat, m: nat, l: nat, miss: set<nat>, n: nat)
    requires 0 < l <= m && n <= l
    ensures |UsableLocals(k, m, l, miss, n)| == |HitGroups(k, m, l, miss, n)|
  {
    hide GroupHit, InGroup;
    if n == 0 {
      assert HitGroups(k, m, l, miss, 0) == {};
    } else {
      UsableCount(k, m, l, miss, n - 1);
      HitGroupsNext(k, m, l, miss, n - 1);
    }
  }

  lemma HitGroupsNext(k: nat, m: nat, l: nat, miss: set<nat>, n: nat)
    requires 0 < l <= m && n < l
    ensures HitGroups(k, m, l, miss, n + 1) == HitGroups(k, m, l, miss, n)
      + if k + m - l + n !in miss && GroupHit(k, l, n, miss) then {n} else {}
  {
    hide InGroup;
  }

  /** The decoder finds its k rows exactly if the data and global parities that are left, and one more for each group that
      lost data and has its local parity, are at least k. */
  lemma SelectedExactly(k: nat, m: nat, l: nat, miss: set<nat>)
    requires 0 < l <= m && l <= k
    ensures |Selection(k, m, l, miss)| == k <==> |UpTo(k + m - l) - miss| + |HitGroups(k, m, l, miss, l)| >= k
  {
    hide Selection, UsableLocals, Available, GroupHit, InGroup, UpTo;
    UsefulIffSelected(k, m, l, miss);
    UsableCount(k, m, l, miss, l);
    AvailableCount(miss, k + m - l);
    assert UpTo(k + m - l) == (UpTo(k + m - l) - miss) + miss * UpTo(k + m - l);
  }

  lemma AllInside(a: set<nat>, s: set<nat>)
    requires |a * s| >= |a|
    ensures a <= s
  {
    assert a == a * s + (a - s);
  }

  /** If every loss is among data and global parities, no local parity is missing. */
  lemma AllLossesBelow(k: nat, m: nat, l: nat, miss: set<nat>)
    requires 0 < l <= m && |miss * UpTo(k + m - l)| >= |miss|
    ensures NoLocalMissing(k, m, l, miss)
  {
    AllInside(miss, UpTo(k + m - l));
  }

  /** Up to r + 1 losses the decoder finds its rows, all of them in the independent family. */
  lemma FewLossesSelected(k: nat, m: nat, l: nat, miss: set<nat>)
    requires 0 < l <= m && l <= k && miss <= UpTo(k + m) && |miss| <= m - l + 1
    ensures |Selection(k, m, l, miss)| == k
    ensures forall i :: 0 <= i < k ==> Selection(k, m, l, miss)[i] < k + m - l || Selection(k, m, l, miss)[i] == k + m
  {
    hide UsableLocals, Available, NoLocalMissing, UpTo;
    AvailableCount(miss, k + m - l);
    SubsetCard(miss * UpTo(k + m - l), miss);
    if |miss * UpTo(k + m - l)| > m - l { AllLossesBelow(k, m, l, miss); }
  }

  /** Rows of the family, chosen without repetition, are invertible. */
  lemma FamilySelectionIndependent(f: Field<bv8>, rows: Matrix<bv8>, k: nat, m: nat, l: nat, sel: seq<nat>)
    requires IsLrcGenerator(f, rows, k, m, l) && |sel| == k && Distinct(sel)
    requires forall i :: 0 <= i < k ==> sel[i] < k + m - l || sel[i] == k + m
    ensures TrivialKernel(f, Select(WithCombined(rows, k, m, l), sel), k)
  {
    hide AnyRowsIndependent, TrivialKernel, LocalOnly;
    var fam := Family(rows, k, m, l);
    var idx: seq<nat> := seq(k, i requires 0 <= i < k => if sel[i] == k + m then k + m - l else sel[i]);
    SelectionIndependent(f, fam, k, idx);
    assert Select(fam, idx) == Select(WithCombined(rows, k, m, l), sel);
  }

  // ----- the pre-check

  lemma HitStep(k: nat, l: nat, v: nat, miss: set<nat>, n: nat)
    requires 0 < l <= k && n < k && v < l
    ensures HitBelow(k, l, v, miss, n + 1) <==> HitBelow(k, l, v, miss, n) || (n in miss && v == LocalGroupForData(k, l, n))
  {
    hide InGroup, LocalGroupForData;
    GroupsTile(k, l, n, v);
  }

  lemma NoneHit(k: nat, l: nat, miss: set<nat>)
    requires 0 < l
    ensures forall v: nat :: !HitBelow(k, l, v, miss, 0)
  {
  }

  lemma HitSteps(k: nat, l: nat, miss: set<nat>, n: nat)
    requires 0 < l <= k && n < k
    ensures 0 <= LocalGroupForData(k, l, n) < l
    ensures forall v :: 0 <= v < l ==>
      (HitBelow(k, l, v, miss, n + 1) <==> HitBelow(k, l, v, miss, n) || (n in miss && v == LocalGroupForData(k, l, n)))
  {
    hide HitBelow, LocalGroupForData;
    GroupsTile(k, l, n, 0);
    forall v | 0 <= v < l
      ensures HitBelow(k, l, v, miss, n + 1) <==> HitBelow(k, l, v, miss, n) || (n in miss && v == LocalGroupForData(k, l, n))
    {
      HitStep(k, l, v, miss, n);
    }
  }

  /** The useful fragments among the first i. */
  ghost function UsefulBelow(k: nat, m: nat, l: nat, miss: set<nat>, i: nat): nat
    requires 0 < l <= m && i <= k + m
  {
    if i <= k + m - l then |Available(miss, i)|
    else |Available(miss, k + m - l)| + |UsableLocals(k, m, l, miss, i - (k + m - l))|
  }

  lemma UsefulStep(k: nat, m: nat, l: nat, miss: set<nat>, i: nat)
    requires 0 < l <= m && i < k + m
    ensures UsefulBelow(k, m, l, miss, 0) == 0
    ensures UsefulBelow(k, m, l, miss, i + 1) == UsefulBelow(k, m, l, miss, i)
      + (if i !in miss && (i < k + m - l || GroupHit(k, l, i - (k + m - l), miss)) then 1 else 0)
  {
    hide GroupHit;
  }

  /** Counts the fragments that help to rebuild a lost one; an error if there are fewer than k. */
  method CountUsefulFragments(k: nat, m: nat, l: nat, flags: seq<bool>, ghost miss: set<nat>) returns (ret: int)
    requires 0 < l <= m && l <= k && |flags| == k + m && Marked(flags, miss)
    ensures ret == if |Selection(k, m, l, miss)| == k then 0 else -Preprocessing.EINSUFFFRAGS
  {
    hide HitBelow, LocalGroupForData, Selection, UsefulBelow;
    var usefulFrags := 0;
    var canUseLocalParity := seq(l, v => false);
    ghost var seen := 0;
    NoneHit(k, l, miss);
    UsefulStep(k, m, l, miss, 0);
    for i := 0 to k + m
      invariant |canUseLocalParity| == l && seen == if i < k then i else k
      invariant forall v :: 0 <= v < l ==> (canUseLocalParity[v] <==> HitBelow(k, l, v, miss, seen))
      invariant usefulFrags == UsefulBelow(k, m, l, miss, i)
    {
      UsefulStep(k, m, l, miss, i);
      if i < k {
        HitSteps(k, l, miss, i);
        seen := i + 1;
        if flags[i] {
          var localGroup := LocalGroupForData(k, l, i);
          canUseLocalParity := canUseLocalParity[localGroup := true];
        } else {
          usefulFrags := usefulFrags + 1;
        }
      } else if i >= k + m - l {
        if canUseLocalParity[i - (k + m - l)] && !flags[i] {
          usefulFrags := usefulFrags + 1;
        }
      } else {
        if !flags[i] {
          usefulFrags := usefulFrags + 1;
        }
      }
    }
    AllCounted(k, m, l, miss);
    UsefulIffSelected(k, m, l, miss);
    ret := if usefulFrags < k then -Preprocessing.EINSUFFFRAGS else 0;
  }

  lemma AllCounted(k: nat, m: nat, l: nat, miss: set<nat>)
    requires 0 < l <= m
    ensures UsefulBelow(k, m, l, miss, k + m) == Useful(k, m, l, miss)
  {
  }

  // ----- picking the rows

  /** Which local parities have a group with missing data, and whether a local parity is missing. */
  method MarkGroups(k: nat, m: nat, l: nat, flags: seq<bool>, ghost miss: set<nat>) returns (useParity: seq<bool>, missingLocal: bool)
    requires 0 < l <= m && l <= k && |flags| == k + m && Marked(flags, miss)
    ensures |useParity| == l && forall v :: 0 <= v < l ==> (useParity[v] <==> GroupHit(k, l, v, miss))
    ensures missingLocal <==> !NoLocalMissing(k, m, l, miss)
  {
    hide LocalGroupDataLower, LocalGroupSize, LocalGroupForData;
    useParity := seq(l, v => false);
    missingLocal := false;
    var groupOffset := 0;
    GroupEnds(k, l);
    for v := 0 to l
      invariant |useParity| == l && groupOffset == LocalGroupDataLower(k, l, v)
      invariant forall w :: 0 <= w < l ==> (useParity[w] <==> w < v && GroupHit(k, l, w, miss))
      invariant missingLocal <==> exists i :: k + m - l <= i < k + m - l + v && i in miss
    {
      var groupSize := LocalGroupSize(k, l, v);
      GroupsTile(k, l, 0, v);
      for u := groupOffset to groupOffset + groupSize
        invariant |useParity| == l
        invariant forall w :: 0 <= w < l && w != v ==> (useParity[w] <==> w < v && GroupHit(k, l, w, miss))
        invariant useParity[v] <==> exists d :: groupOffset <= d < u && d in miss
      {
        if flags[u] {
          useParity := useParity[v := true];
        }
      }
      missingLocal := missingLocal || flags[k + m - l + v];
      groupOffset := groupOffset + groupSize;
    }
  }
}
