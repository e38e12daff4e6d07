/** The lists of missing elements that the XOR codes work on, and the questions asked about them. */
module XorLists {
  import opened Bitmaps
  import opened Mds
  import opened Erasures
  import opened XorCode

  /** The array holds the list, terminated by -1. */
  ghost predicate IsList(a: array<int>, l: seq<nat>)
    reads a
  {
    |l| < a.Length && (forall i :: 0 <= i < |l| ==> a[i] == l[i]) && a[|l|] == -1
  }

  lemma ListStart(a: array<int>, l: seq<nat>)
    requires IsList(a, l) && l != []
    ensures a.Length > 1 && a[0] == l[0]
  {
  }

  ghost predicate IsListOrNull(a: array?<int>, l: seq<nat>)
    reads a
  {
    if a == null then l == [] else IsList(a, l)
  }

  /** The entries of a -1 terminated list. */
  ghost function Items(missing: seq<int>): (l: seq<nat>)
    requires |missing| > 0 && forall i :: 0 <= i < |missing| - 1 ==> missing[i] >= 0
    ensures |l| == |missing| - 1 && forall i :: 0 <= i < |l| ==> l[i] == missing[i]
  {
    seq(|missing| - 1, i requires 0 <= i < |missing| - 1 => missing[i])
  }

  /** The entries below k, or those from k on, in list order. */
  ghost function Part(l: seq<nat>, k: nat, data: bool): (r: seq<nat>)
    ensures forall i :: 0 <= i < |r| ==> r[i] in l && (r[i] < k <==> data)
  {
    if l == [] then []
    else
      var n := |l| - 1;
      Part(l[..n], k, data) + (if (l[n] < k) == data then [l[n]] else [])
  }

  lemma {:induction false} PartMembers(l: seq<nat>, k: nat, data: bool, x: nat)
    ensures x in Part(l, k, data) <==> x in l && (x < k <==> data)
  {
    if l != [] {
      var n := |l| - 1;
      PartMembers(l[..n], k, data, x);
      assert x in l <==> x in l[..n] || x == l[n];
    }
  }

  lemma {:induction false} PartDistinct(l: seq<nat>, k: nat, data: bool)
    requires Distinct(l)
    ensures Distinct(Part(l, k, data))
  {
    if l != [] {
      var n := |l| - 1;
      PartDistinct(l[..n], k, data);
      assert l[n] !in l[..n];
    }
  }

  lemma {:induction false} PartLengths(l: seq<nat>, k: nat)
    ensures |Part(l, k, true)| + |Part(l, k, false)| == |l|
  {
    if l != [] { PartLengths(l[..|l| - 1], k); }
  }

  /** The list ends where its entries do. */
  lemma ItemsAt(missing: seq<int>, i: nat, n: nat)
    requires MissingList(missing, n) && i < |missing|
    ensures |Items(missing)| == |missing| - 1 && (missing[i] > -1 <==> i < |Items(missing)|)
    ensures i < |Items(missing)| ==> Items(missing)[i] == missing[i]
  {
  }

  /** The array starts with the listed entries. */
  ghost predicate Begins(s: seq<int>, l: seq<nat>) {
    |l| <= |s| && forall x :: 0 <= x < |l| ==> s[x] == l[x]
  }

  lemma BeginsSnoc(s: seq<int>, l: seq<nat>, x: nat)
    requires Begins(s, l) && |l| < |s|
    ensures Begins(s[|l| := x], l + [x])
  {
  }

  lemma PartNext(l: seq<nat>, i: nat, k: nat, data: bool)
    requires i < |l|
    ensures Part(l[..i + 1], k, data) == Part(l[..i], k, data) + (if (l[i] < k) == data then [l[i]] else [])
  {
    assert l[..i + 1][..i] == l[..i];
  }

  method GetMissing(k: nat, missingIdxs: seq<int>, data: bool, ghost n: nat) returns (missing: array<int>)
    requires MissingList(missingIdxs, n) && |Part(Items(missingIdxs), k, data)| < MAX_DATA
    ensures fresh(missing) && missing.Length == MAX_DATA && IsList(missing, Part(Items(missingIdxs), k, data))
  {
    ghost var l := Items(missingIdxs);
    ghost var got: seq<nat> := [];
    hide Part, Begins, MissingList, Items;
    missing := new int[MAX_DATA];
    var i, j := 0, 0;
    ItemsAt(missingIdxs, 0, n);
    assert Begins(missing[..], got) by { BeginsNothing(missing[..]); }
    assert got == Part(l[..0], k, data) by { NoPart(k, data); }
    while missingIdxs[i] > -1
      invariant 0 <= i < |missingIdxs| && j == |got| && got == Part(l[..i], k, data)
      invariant Begins(missing[..], got)
      decreases |missingIdxs| - i
    {
      ItemsAt(missingIdxs, i, n);
      PartNext(l, i, k, data);
      PartGrows(l, i + 1, k, data);
      if (missingIdxs[i] < k) == data {
        BeginsSnoc(missing[..], got, missingIdxs[i]);
        missing[j] := missingIdxs[i];
        got := got + [l[i]];
        j := j + 1;
      }
      i := i + 1;
    }
    ItemsAt(missingIdxs, i, n);
    assert l[..i] == l;
    ghost var before := missing[..];
    missing[j] := -1;
    BeginsList(missing, before, got);
  }

  lemma BeginsList(a: array<int>, before: seq<int>, l: seq<nat>)
    requires Begins(before, l) && |l| < |before| && a[..] == before[|l| := -1]
    ensures IsList(a, l)
  {
    forall i | 0 <= i < |l| ensures a[i] == l[i] { assert a[i] == a[..][i]; }
    assert a[|l|] == a[..][|l|];
  }

  lemma NoPart(k: nat, data: bool)
    ensures Part([], k, data) == []
  {
  }

  lemma BeginsNothing(s: seq<int>)
    ensures Begins(s, [])
  {
  }

  lemma {:induction false} PartGrows(l: seq<nat>, i: nat, k: nat, data: bool)
    requires i <= |l|
    ensures |Part(l[..i], k, data)| <= |Part(l, k, data)|
  {
    if i < |l| {
      var n := |l| - 1;
      assert l[..n][..i] == l[..i];
      PartGrows(l[..n], i, k, data);
    } else {
      assert l[..i] == l;
    }
  }

  method GetMissingData(c: XorCode, missingIdxs: seq<int>) returns (missingData: array<int>)
    requires Sized(c) && MissingList(missingIdxs, c.k + c.m)
    ensures fresh(missingData) && missingData.Length == MAX_DATA && IsList(missingData, Part(Items(missingIdxs), c.k, true))
  {
    PartFits(c, missingIdxs);
    missingData := GetMissing(c.k, missingIdxs, true, c.k + c.m);
  }

  method GetMissingParity(c: XorCode, missingIdxs: seq<int>) returns (missingParity: array<int>)
    requires Sized(c) && MissingList(missingIdxs, c.k + c.m)
    ensures fresh(missingParity) && missingParity.Length == MAX_DATA && IsList(missingParity, Part(Items(missingIdxs), c.k, false))
  {
    PartFits(c, missingIdxs);
    missingParity := GetMissing(c.k, missingIdxs, false, c.k + c.m);
  }

  lemma PartFits(c: XorCode, missingIdxs: seq<int>)
    requires Sized(c) && MissingList(missingIdxs, c.k + c.m)
    ensures |Part(Items(missingIdxs), c.k, true)| <= c.k && |Part(Items(missingIdxs), c.k, false)| <= c.m
  {
    var l := Items(missingIdxs);
    PartDistinct(l, c.k, true);
    PartDistinct(l, c.k, false);
    DistinctBelow(Part(l, c.k, true), c.k);
    var p := Part(l, c.k, false);
    var q: seq<nat> := seq(|p|, i requires 0 <= i < |p| => p[i] - c.k);
    DistinctBelow(q, c.m);
  }

  // ----- failure patterns

  datatype FailurePattern = GeHd | D0P0 | D1P0 | D2P0 | D3P0 | D1P1 | D1P2 | D2P1 | D0P1 | D0P2 | D0P3

  /** d missing data and p missing parities. */
  ghost function PatternOf(d: nat, p: nat): FailurePattern {
    if d == 0 then (if p == 0 then D0P0 else if p == 1 then D0P1 else if p == 2 then D0P2 else if p == 3 then D0P3 else GeHd)
    else if d == 1 then (if p == 0 then D1P0 else if p == 1 then D1P1 else if p == 2 then D1P2 else GeHd)
    else if d == 2 then (if p == 0 then D2P0 else if p == 1 then D2P1 else GeHd)
    else if d == 3 && p == 0 then D3P0
    else GeHd
  }

  /** The pattern after one more failure. */
  function NextPattern(pattern: FailurePattern, isData: bool): FailurePattern {
    match pattern
    case D0P0 => if isData then D1P0 else D0P1
    case D1P0 => if isData then D2P0 else D1P1
    case D2P0 => if isData then D3P0 else D2P1
    case D3P0 => GeHd
    case D1P1 => if isData then D2P1 else D1P2
    case D1P2 => GeHd
    case D2P1 => GeHd
    case D0P1 => if isData then D1P1 else D0P2
    case D0P2 => if isData then D1P2 else D0P3
    case D0P3 => GeHd
    case GeHd => GeHd
  }

  lemma PatternStep(d: nat, p: nat, isData: bool)
    ensures NextPattern(PatternOf(d, p), isData) == if isData then PatternOf(d + 1, p) else PatternOf(d, p + 1)
    ensures PatternOf(d, p) == GeHd ==> d + p > 2
    ensures d + p <= 3 ==> PatternOf(d, p) != GeHd
  {
  }

  lemma PartStep(l: seq<nat>, i: nat, k: nat)
    requires i < |l|
    ensures |Part(l[..i + 1], k, true)| == |Part(l[..i], k, true)| + (if l[i] < k then 1 else 0)
    ensures |Part(l[..i + 1], k, false)| == |Part(l[..i], k, false)| + (if l[i] < k then 0 else 1)
  {
    assert l[..i + 1][..i] == l[..i];
  }

  /** GeHd from hd failures on; below that, how many data and parity fragments fail. */
  method GetFailurePattern(c: XorCode, missingIdxs: seq<int>) returns (pattern: FailurePattern)
    requires Sized(c) && (c.hd == 3 || c.hd == 4) && MissingList(missingIdxs, c.k + c.m)
    ensures pattern == if |Items(missingIdxs)| >= c.hd then GeHd
                       else PatternOf(|Part(Items(missingIdxs), c.k, true)|, |Part(Items(missingIdxs), c.k, false)|)
  {
    hide Part, PatternOf, NextPattern;
    ghost var l := Items(missingIdxs);
    var i, numFailures := 0, 0;
    ghost var d, p := 0, 0;
    pattern := D0P0;
    PatternStart(l, c.k);
    while missingIdxs[i] > -1
      invariant 0 <= i < |missingIdxs| && numFailures == i < c.hd
      invariant d == |Part(l[..i], c.k, true)| && p == |Part(l[..i], c.k, false)| && d + p == i
      invariant pattern == PatternOf(d, p)
      decreases |missingIdxs| - i
    {
      numFailures := numFailures + 1;
      if numFailures >= c.hd {
        pattern := GeHd;
      }
      PartStep(l, i, c.k);
      PatternStep(d, p, missingIdxs[i] < c.k);
      pattern := NextPattern(pattern, missingIdxs[i] < c.k);
      if missingIdxs[i] < c.k { d := d + 1; } else { p := p + 1; }
      PatternStep(d, p, true);
      NextOfGeHd();
      if pattern == GeHd {
        return;
      }
      i := i + 1;
    }
    assert l[..i] == l;
  }

  lemma PatternStart(l: seq<nat>, k: nat)
    ensures Part(l[..0], k, true) == [] == Part(l[..0], k, false) && PatternOf(0, 0) == D0P0
  {
  }

  lemma NextOfGeHd()
    ensures forall isData :: NextPattern(GeHd, isData) == GeHd
  {
  }

  // ----- parities that see missing data

  /** How many of the listed data fragments parity j sees. */
  ghost function Seen(c: XorCode, l: seq<nat>, j: nat): (n: nat)
    requires forall i :: 0 <= i < |l| ==> l[i] < |c.dataBms|
    ensures n <= |l|
  {
    if l == [] then 0
    else Seen(c, l[..|l| - 1], j) + (if Bit(c.dataBms[l[|l| - 1]], j) then 1 else 0)
  }

  method NumMissingDataInParity(c: XorCode, parityIdx: nat, missingData: array<int>, ghost l: seq<nat>) returns (n: nat)
    requires Sized(c) && c.k <= parityIdx < c.k + c.m && IsList(missingData, l) && forall i :: 0 <= i < |l| ==> l[i] < c.k
    ensures n == Seen(c, l, parityIdx - c.k)
  {
    hide Bit;
    var i := 0;
    n := 0;
    var relativeParityIndex := parityIdx - c.k;
    while missingData[i] > -1
      invariant 0 <= i <= |l| && n == Seen(c, l[..i], relativeParityIndex)
      decreases |l| - i
    {
      assert l[..i + 1][..i] == l[..i];
      if DoesParityHaveData(relativeParityIndex, c.dataBms[missingData[i]]) {
        n := n + 1;
      }
      i := i + 1;
    }
    assert l[..i] == l;
  }

  /** Parity j is present, holds data fragment d and sees at most one of the missing ones. */
  ghost predicate Connects(c: XorCode, d: nat, mp: seq<nat>, l: seq<nat>, j: nat)
    requires j < |c.parityBms| && forall i :: 0 <= i < |l| ==> l[i] < |c.dataBms|
  {
    Seen(c, l, j) <= 1 && Bit(c.parityBms[j], d) && c.k + j !in mp
  }

  /** The first such parity from j on, or -1. */
  ghost function FirstConnected(c: XorCode, d: nat, mp: seq<nat>, l: seq<nat>, j: nat): (r: int)
    requires Sized(c) && j <= c.m && forall i :: 0 <= i < |l| ==> l[i] < c.k
    ensures r == -1 || (j <= r < c.m && Connects(c, d, mp, l, r))
    ensures r == -1 ==> forall i :: j <= i < c.m ==> !Connects(c, d, mp, l, i)
    decreases c.m - j
  {
    if j == c.m then -1 else if Connects(c, d, mp, l, j) then j else FirstConnected(c, d, mp, l, j + 1)
  }

  method IndexOfConnectedParity(c: XorCode, dataIndex: nat, missingParity: array?<int>, missingData: array<int>, ghost mp: seq<nat>, ghost l: seq<nat>)
    returns (r: int)
    requires Sized(c) && IsListOrNull(missingParity, mp) && IsList(missingData, l) && forall i :: 0 <= i < |l| ==> l[i] < c.k
    ensures r == if FirstConnected(c, dataIndex, mp, l, 0) >= 0 then FirstConnected(c, dataIndex, mp, l, 0) + c.k else -1
  {
    hide Bit, Seen;
    var parityIndex := -1;
    var i := 0;
    while i < c.m
      invariant 0 <= i <= c.m && parityIndex == -1
      invariant FirstConnected(c, dataIndex, mp, l, 0) == FirstConnected(c, dataIndex, mp, l, i)
    {
      var numMissing := NumMissingDataInParity(c, i + c.k, missingData, l);
      if numMissing <= 1 && IsDataInParity(dataIndex, c.parityBms[i]) {
        var isMissing := false;
        if missingParity != null {
          var j := 0;
          while missingParity[j] > -1
            invariant 0 <= j <= |mp|
            invariant !isMissing && forall x :: 0 <= x < j ==> mp[x] != c.k + i
            decreases |mp| - j
          {
            if c.k + i == missingParity[j] {
              isMissing := true;
              break;
            }
            j := j + 1;
          }
        }
        if !isMissing {
          parityIndex := i;
          break;
        }
      }
      i := i + 1;
    }
    return if parityIndex > -1 then parityIndex + c.k else parityIndex;
  }

  /** l without its i-th entry. */
  ghost function Without(l: seq<nat>, i: nat): (r: seq<nat>)
    requires i < |l|
    ensures |r| == |l| - 1
  {
    l[..i] + l[i + 1..]
  }

  /** Overwrites the element with -1 and moves the -1 to the end of the list. */
  method RemoveFromMissingList(element: nat, missingList: array<int>, ghost l: seq<nat>, ghost pos: nat)
    requires IsList(missingList, l) && Distinct(l) && pos < |l| && l[pos] == element
    modifies missingList
    ensures IsList(missingList, Without(l, pos))
  {
    var i, elemIdx := 0, -1;
    while missingList[i] > -1
      invariant 0 <= i <= |l|
      invariant elemIdx == if i > pos then pos else -1
      invariant forall x :: 0 <= x < |l| && !(x == pos && i > pos) ==> missingList[x] == l[x]
      invariant i > pos ==> missingList[pos] == -1
      invariant missingList[|l|] == -1
      decreases |l| - i
    {
      if missingList[i] == element {
        elemIdx := i;
        missingList[i] := -1;
      }
      i := i + 1;
    }
    var numElems := i;
    i := elemIdx;
    while i < numElems - 1
      invariant pos <= i <= numElems - 1
      invariant forall x :: 0 <= x < i ==> missingList[x] == Without(l, pos)[x]
      invariant missingList[i] == -1
      invariant forall x :: i < x < |l| ==> missingList[x] == l[x]
    {
      var tmp := missingList[i + 1];
      missingList[i + 1] := missingList[i];
      missingList[i] := tmp;
      i := i + 1;
    }
  }
}
