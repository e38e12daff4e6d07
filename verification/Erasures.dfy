/** Lists of missing fragment indices, and the fragments that are left. */
module Erasures {
  import opened Mds

  /** A list of distinct indices below n, terminated by -1. */
  ghost predicate MissingList(l: seq<int>, n: nat) {
    && |l| > 0 && l[|l| - 1] == -1
    && (forall i :: 0 <= i < |l| - 1 ==> 0 <= l[i] < n)
    && (forall i, j :: 0 <= i < j < |l| - 1 ==> l[i] != l[j])
  }

  lemma MissingListParts(l: seq<int>, n: nat)
    requires MissingList(l, n)
    ensures |l| > 0 && l[|l| - 1] == -1 && forall i :: 0 <= i < |l| - 1 ==> 0 <= l[i] < n
  {
  }

  ghost function Missing(l: seq<int>): set<nat> {
    set i | 0 <= i < |l| - 1 && l[i] >= 0 :: l[i]
  }

  /** The indices below n that are not missing, in increasing order. */
  ghost function Available(miss: set<nat>, n: nat): (a: seq<nat>)
    ensures forall i :: 0 <= i < |a| ==> a[i] < n && a[i] !in miss
    ensures forall i, j :: 0 <= i < j < |a| ==> a[i] < a[j]
  {
    if n == 0 then [] else Available(miss, n - 1) + (if n - 1 in miss then [] else [n - 1])
  }

  lemma MeetSnoc(miss: set<nat>, s: set<nat>, x: nat)
    requires x !in s
    ensures |miss * (s + {x})| == |miss * s| + (if x in miss then 1 else 0)
  {
    if x in miss {
      assert miss * (s + {x}) == miss * s + {x};
    } else {
      assert miss * (s + {x}) == miss * s;
    }
  }

  lemma {:induction false} AvailableCount(miss: set<nat>, n: nat)
    ensures |Available(miss, n)| == n - |miss * UpTo(n)|
  {
    hide UpTo;
    if n == 0 {
      UpToSnoc(0);
      assert miss * UpTo(0) == {};
    } else {
      AvailableCount(miss, n - 1);
      UpToSnoc(n - 1);
      MeetSnoc(miss, UpTo(n - 1), n - 1);
    }
  }

  lemma AvailableNext(miss: set<nat>, i: nat)
    ensures Available(miss, 0) == [] && Available(miss, i + 1) == Available(miss, i) + if i in miss then [] else [i]
  {
  }

  lemma CountStep(miss: set<nat>, i: nat)
    ensures |Available(miss, 0)| == 0 && |Available(miss, i + 1)| == |Available(miss, i)| + (if i in miss then 0 else 1)
  {
  }

  /** An available index has its place in the list. */
  lemma {:induction false} AvailableAt(miss: set<nat>, n: nat, i: nat)
    requires i < n && i !in miss
    ensures |Available(miss, i)| < |Available(miss, n)| && Available(miss, n)[|Available(miss, i)|] == i
  {
    if i < n - 1 { AvailableAt(miss, n - 1, i); }
  }

  lemma {:induction false} AvailablePrefix(miss: set<nat>, i: nat, n: nat)
    requires i <= n
    ensures Available(miss, i) <= Available(miss, n)
  {
    if i < n { AvailablePrefix(miss, i, n - 1); }
  }

  /** At least k of the n fragments are left. */
  ghost predicate LeavesK(miss: set<nat>, n: nat, k: nat) {
    miss <= UpTo(n) && |miss| + k <= n
  }

  lemma FewLeaveK(miss: set<nat>, k: nat, m: nat)
    requires miss <= UpTo(k + m) && |miss| <= m
    ensures LeavesK(miss, k + m, k)
  {
  }

  /** The first k available indices. */
  ghost function FirstK(miss: set<nat>, n: nat, k: nat): (a: seq<nat>)
    requires LeavesK(miss, n, k)
    ensures |a| == k && Distinct(a) && Indices(a, n)
    ensures forall i :: 0 <= i < k ==> a[i] !in miss
  {
    AvailableCount(miss, n);
    assert miss * UpTo(n) == miss;
    Available(miss, n)[..k]
  }

  /** A scan that has found k indices after looking at i of them has found the first k. */
  lemma ScanFindsFirstK(miss: set<nat>, i: nat, n: nat, k: nat)
    requires LeavesK(miss, n, k) && i <= n
    requires |Available(miss, i)| == k
    ensures Available(miss, i) == FirstK(miss, n, k)
  {
    AvailablePrefix(miss, i, n);
  }

  lemma FirstKIs(miss: set<nat>, n: nat, k: nat)
    requires LeavesK(miss, n, k)
    ensures |Available(miss, n)| >= k && FirstK(miss, n, k) == Available(miss, n)[..k]
  {
    ScanEnds(miss, n, k);
  }

  lemma ScanEnds(miss: set<nat>, n: nat, k: nat)
    requires LeavesK(miss, n, k)
    ensures |Available(miss, n)| >= k
  {
    AvailableCount(miss, n);
    assert miss * UpTo(n) == miss;
  }

  lemma MissingCard(l: seq<int>, n: nat)
    requires MissingList(l, n)
    ensures |Missing(l)| == |l| - 1 && Missing(l) <= UpTo(n)
  {
    var t: seq<nat> := seq(|l| - 1, i requires 0 <= i < |l| - 1 => l[i]);
    DistinctCard(t);
    var image := set i | 0 <= i < |t| :: t[i];
    forall x: nat ensures x in Missing(l) <==> x in image {
      if x in Missing(l) { var i :| 0 <= i < |l| - 1 && l[i] == x; assert t[i] == x; }
      if x in image { var i :| 0 <= i < |t| && t[i] == x; assert l[i] == x; }
    }
    assert Missing(l) == image;
  }

  method IsMissing(missingIdxs: seq<int>, indexToCheck: nat, ghost n: nat) returns (r: bool)
    requires MissingList(missingIdxs, n)
    ensures r <==> indexToCheck in Missing(missingIdxs)
  {
    var i := 0;
    while missingIdxs[i] > -1
      invariant 0 <= i < |missingIdxs|
      invariant forall j :: 0 <= j < i ==> missingIdxs[j] != indexToCheck
      decreases |missingIdxs| - i
    {
      if missingIdxs[i] == indexToCheck {
        return true;
      }
      i := i + 1;
    }
    return false;
  }

  /** The flags of the missing fragments are set, no others. */
  ghost predicate Marked(flags: seq<bool>, miss: set<nat>) {
    forall i :: 0 <= i < |flags| ==> (flags[i] <==> i in miss)
  }

  lemma MarkedAt(flags: seq<bool>, miss: set<nat>, i: nat)
    requires Marked(flags, miss) && i < |flags|
    ensures flags[i] <==> i in miss
  {
  }

  /** Turns the list into one flag per index and counts its entries. */
  method MarkMissing(missing: seq<int>, n: nat) returns (flags: seq<bool>, numMissing: nat)
    requires MissingList(missing, n)
    ensures |flags| == n
    ensures Marked(flags, Missing(missing))
    ensures numMissing == |Missing(missing)|
  {
    flags := seq(n, i => false);
    numMissing := 0;
    while missing[numMissing] > -1
      invariant 0 <= numMissing < |missing| && |flags| == n
      invariant forall i :: 0 <= i < n ==> (flags[i] <==> exists j :: 0 <= j < numMissing && missing[j] == i)
      decreases |missing| - numMissing
    {
      flags := flags[missing[numMissing] := true];
      numMissing := numMissing + 1;
    }
    MissingCard(missing, n);
  }

  /** The first k of the k + m fragments that are not flagged. */
  method GetFirstKAvailable<T>(data: seq<T>, parity: seq<T>, flags: seq<bool>, k: nat, m: nat, ghost miss: set<nat>)
    returns (avail: seq<T>)
    requires |data| == k && |parity| == m && |flags| == k + m
    requires Marked(flags, miss)
    requires LeavesK(miss, k + m, k)
    ensures avail == Select(data + parity, FirstK(miss, k + m, k))
  {
    hide FirstK, UpTo, Available, Select, LeavesK;
    ScanEnds(miss, k + m, k);
    AvailableNext(miss, 0);
    SelectNone(data + parity);
    avail := [];
    var i := 0;
    ghost var a := [];
    while |avail| < k
      invariant 0 <= i <= k + m && a == Available(miss, i) && |avail| == |a| <= k && avail == Select(data + parity, a)
      decreases k + m - i
    {
      AvailableNext(miss, i);
      SelectSnoc(data + parity, a, i);
      if !flags[i] {
        avail := avail + [if i < k then data[i] else parity[i - k]];
      }
      i := i + 1;
      a := Available(miss, i);
    }
    ScanFindsFirstK(miss, i, k + m, k);
  }
}
