/** Which fragments have to be read to rebuild the missing ones of a flat XOR code. */
module XorFragmentsNeeded {
  import opened Bitmaps
  import opened Mds
  import opened Erasures
  import opened XorCode
  import opened XorLists
  import opened XorRepair
  import opened XorHdCode
  import opened XorReconstruct
  import XorHdTables

  ghost predicate HasParity(c: XorCode, s: set<nat>, j: nat) { c.k + j in s }

  lemma HasParityOr(c: XorCode, s: set<nat>, j: nat, i: nat)
    ensures HasParity(c, s + {c.k + j}, i) <==> HasParity(c, s, i) || i == j
  {
  }

  /** The two bitmaps name just the fragments of s: data in the first, parities in the second. */
  ghost predicate Collected(c: XorCode, dataBm: bv32, parityBm: bv32, s: set<nat>) {
    && (forall i: nat :: Bit(dataBm, i) <==> i < c.k && i in s)
    && (forall j: nat :: Bit(parityBm, j) <==> j < c.m && HasParity(c, s, j))
  }

  lemma CollectedNone(c: XorCode)
    ensures Collected(c, 0, 0, {})
  {
    hide Bit;
    forall i: nat ensures !Bit(0, i) { BitZero(i); }
  }

  lemma CollectData(c: XorCode, dataBm: bv32, parityBm: bv32, s: set<nat>, bm: bv32)
    requires Sized(c) && Collected(c, dataBm, parityBm, s) && forall i: nat :: c.k <= i ==> !Bit(bm, i)
    ensures Collected(c, Or(dataBm, bm), parityBm, s + BitsBelow(bm, c.k))
  {
    hide Bit, Or;
    forall i: nat ensures Bit(Or(dataBm, bm), i) <==> i < c.k && i in s + BitsBelow(bm, c.k) { BitOr(dataBm, bm, i); }
  }

  lemma DropData(c: XorCode, dataBm: bv32, parityBm: bv32, s: set<nat>, bm: bv32)
    requires Sized(c) && Collected(c, dataBm, parityBm, s)
    ensures Collected(c, AndNot(dataBm, bm), parityBm, s - BitsBelow(bm, c.k))
  {
    hide Bit, AndNot;
    forall i: nat ensures Bit(AndNot(dataBm, bm), i) <==> i < c.k && i in s - BitsBelow(bm, c.k) { BitAndNot(dataBm, bm, i); }
  }

  lemma DropOne(c: XorCode, dataBm: bv32, parityBm: bv32, s: set<nat>, d: nat)
    requires Sized(c) && Collected(c, dataBm, parityBm, s) && d < c.k
    ensures Collected(c, AndNot(dataBm, Single(d)), parityBm, s - {d})
  {
    hide Bit, AndNot, Single;
    DropData(c, dataBm, parityBm, s, Single(d));
    forall i: nat ensures i in BitsBelow(Single(d), c.k) <==> i == d { BitSingle(d, i); }
    assert BitsBelow(Single(d), c.k) == {d};
  }

  lemma CollectParity(c: XorCode, dataBm: bv32, parityBm: bv32, s: set<nat>, j: nat)
    requires Sized(c) && Collected(c, dataBm, parityBm, s) && j < c.m
    ensures Collected(c, dataBm, Or(parityBm, Single(j)), s + {c.k + j})
  {
    hide Bit, Or, Single, HasParity;
    forall i: nat ensures Bit(Or(parityBm, Single(j)), i) <==> i < c.m && HasParity(c, s + {c.k + j}, i) {
      BitOr(parityBm, Single(j), i);
      BitSingle(j, i);
      HasParityOr(c, s, j, i);
    }
  }

  /** Includes a parity and the data it is computed from. */
  method Include(c: XorCode, parityIndex: nat, dataBm: bv32, parityBm: bv32, ghost s: set<nat>) returns (dataBm': bv32, parityBm': bv32)
    requires Sized(c) && Transposed(c) && c.k <= parityIndex < c.k + c.m && Collected(c, dataBm, parityBm, s)
    ensures Collected(c, dataBm', parityBm', s + {parityIndex} + BitsBelow(c.parityBms[parityIndex - c.k], c.k))
  {
    hide Bit, Or, Single, Collected;
    dataBm' := Or(dataBm, c.parityBms[parityIndex - c.k]);
    parityBm' := Or(parityBm, Single(parityIndex - c.k));
    CollectData(c, dataBm, parityBm, s, c.parityBms[parityIndex - c.k]);
    CollectParity(c, dataBm', parityBm, s + BitsBelow(c.parityBms[parityIndex - c.k], c.k), parityIndex - c.k);
    assert s + {parityIndex} + BitsBelow(c.parityBms[parityIndex - c.k], c.k) == s + BitsBelow(c.parityBms[parityIndex - c.k], c.k) + {parityIndex};
  }

  method FragmentsNeededOneData(c: XorCode, missingData: array<int>, missingParity: array?<int>, dataBm: bv32, parityBm: bv32,
      ghost mp: seq<nat>, ghost l: seq<nat>, ghost s: set<nat>) returns (ret: int, dataBm': bv32, parityBm': bv32)
    requires ValidCode(c) && FewLosses(c, mp, l) && |l| == 1 && Collected(c, dataBm, parityBm, s)
    requires IsList(missingData, l) && IsListOrNull(missingParity, mp)
    ensures ret == 0 && Collected(c, dataBm', parityBm', (s - Members(l)) + Needs(c, mp, l))
  {
    hide *;
    dataBm', parityBm', ret := dataBm, parityBm, 0;
    ListStart(missingData, l);
    LossesListed(c, mp, l);
    NextRepairUsable(c, mp, l);
    NextOfOne(c, mp, l);
    ValidTransposed(c);
    var dataIndex := missingData[0];
    var parityIndex := IndexOfConnectedParity(c, dataIndex, missingParity, missingData, mp, l);
    if parityIndex < 0 {
      ret := -1;
      return;
    }
    dataBm', parityBm' := Include(c, parityIndex, dataBm, parityBm, s);
    ghost var t := s + {parityIndex} + BitsBelow(c.parityBms[parityIndex - c.k], c.k);
    DropOne(c, dataBm', parityBm', t, dataIndex);
    dataBm' := AndNot(dataBm', Single(dataIndex));
    NeedsSplit(c, mp, l, s, NextRepair(c, mp, l));
    OneParity(c, NextRepair(c, mp, l), parityIndex);
  }

  lemma OneParity(c: XorCode, r: Repair, parityIndex: nat)
    requires r.Repair? && r.p == r.q && c.k + r.p == parityIndex
    ensures Parities(c, r) == {parityIndex}
  {
  }

  /** Taking the repaired fragments out at the end is the same as taking them out on the way. */
  lemma NeedsSplit(c: XorCode, mp: seq<nat>, l: seq<nat>, s: set<nat>, r: Repair)
    requires Sized(c) && DataList(c, l) && l != [] && r == NextRepair(c, mp, l) && Usable(c, mp, l, r)
    ensures DataList(c, Without(l, r.pos))
    ensures var rest := Without(l, r.pos); var read := Parities(c, r) + BitsBelow(r.bm, c.k);
      ((s + read - Members(rest)) + Needs(c, mp, rest)) - {l[r.pos]} == (s - Members(l)) + Needs(c, mp, l)
    ensures |l| == 1 ==> (s + Parities(c, r) + BitsBelow(r.bm, c.k)) - {l[0]} == (s - Members(l)) + Needs(c, mp, l)
  {
    hide *;
    UsableRepair(c, mp, l, r);
    WithoutList(c, l, r.pos);
    var d, rest, read := l[r.pos], Without(l, r.pos), Parities(c, r) + BitsBelow(r.bm, c.k);
    ReadApart(c, mp, l, r);
    NeedsOf(c, mp, l, r);
    assert Members(l) == Members(rest) + {d};
    SplitSets(s, read, Members(rest), Needs(c, mp, rest), d);
    if |l| == 1 {
      assert rest == [] by { NothingLeft(l); }
      NeedsOfNone(c, mp);
      assert s + Parities(c, r) + BitsBelow(r.bm, c.k) == s + read;
      SplitSets(s, read, {}, {}, d);
    }
  }

  lemma UsableRepair(c: XorCode, mp: seq<nat>, l: seq<nat>, r: Repair)
    requires Usable(c, mp, l, r)
    ensures r.Repair? && r.pos < |l|
  {
  }

  lemma NothingLeft(l: seq<nat>)
    requires |l| == 1
    ensures Without(l, 0) == []
  {
  }

  lemma NeedsOfNone(c: XorCode, mp: seq<nat>)
    requires Sized(c) && DataList(c, [])
    ensures Needs(c, mp, []) == {} && Members([]) == {}
  {
  }

  lemma ReadApart(c: XorCode, mp: seq<nat>, l: seq<nat>, r: Repair)
    requires Sized(c) && DataList(c, l) && Usable(c, mp, l, r)
    ensures forall x :: x in Parities(c, r) + BitsBelow(r.bm, c.k) ==> x !in Members(Without(l, r.pos))
  {
    hide Bit;
    WithoutList(c, l, r.pos);
    forall x | x in Parities(c, r) + BitsBelow(r.bm, c.k) ensures x !in Without(l, r.pos) {
      if x < c.k { NotNamed(l, r.pos, r.bm, x); }
    }
  }

  lemma NeedsOf(c: XorCode, mp: seq<nat>, l: seq<nat>, r: Repair)
    requires Sized(c) && DataList(c, l) && l != [] && r == NextRepair(c, mp, l) && Usable(c, mp, l, r)
    ensures DataList(c, Without(l, r.pos))
    ensures Needs(c, mp, l) == (Parities(c, r) + BitsBelow(r.bm, c.k) - {l[r.pos]}) + (Needs(c, mp, Without(l, r.pos)) - {l[r.pos]})
  {
    hide Bit, NextRepair, BitsBelow;
    WithoutList(c, l, r.pos);
    assert Sources(c, r, l[r.pos]) == Parities(c, r) + BitsBelow(r.bm, c.k) - {l[r.pos]};
  }

  lemma SplitSets(s: set<nat>, read: set<nat>, rest: set<nat>, needs: set<nat>, d: nat)
    requires forall x :: x in read ==> x !in rest
    ensures ((s + read - rest) + needs) - {d} == (s - (rest + {d})) + ((read - {d}) + (needs - {d}))
  {
  }

  method FragmentsNeededTwoData(c: XorCode, missingData: array<int>, missingParity: array?<int>, dataBm: bv32, parityBm: bv32,
      ghost mp: seq<nat>, ghost l: seq<nat>, ghost s: set<nat>) returns (ret: int, dataBm': bv32, parityBm': bv32)
    requires ValidCode(c) && FewLosses(c, mp, l) && |l| == 2 && Collected(c, dataBm, parityBm, s)
    requires IsList(missingData, l) && IsListOrNull(missingParity, mp) && missingData != missingParity
    modifies missingData
    ensures ret == 0 && Collected(c, dataBm', parityBm', (s - Members(l)) + Needs(c, mp, l))
  {
    hide Bit, Or, AndNot, Single, Collected, NextRepair, Needs;
    dataBm', parityBm', ret := dataBm, parityBm, 0;
    ghost var r := NextRepair(c, mp, l);
    NextRepairUsable(c, mp, l);
    var dataIndex, parityIndex := TakeConnected(c, missingData, missingParity, mp, l);
    if parityIndex < 0 {
      ret := -1;
      return;
    }
    dataBm', parityBm' := Include(c, parityIndex, dataBm, parityBm, s);
    ghost var t, rest := s + {parityIndex} + BitsBelow(c.parityBms[parityIndex - c.k], c.k), Without(l, r.pos);
    NeedsSplit(c, mp, l, s, r);
    ret, dataBm', parityBm' := FragmentsNeededOneData(c, missingData, missingParity, dataBm', parityBm', mp, rest, t);
    DropOne(c, dataBm', parityBm', (t - Members(rest)) + Needs(c, mp, rest), dataIndex);
    dataBm' := AndNot(dataBm', Single(dataIndex));
    assert t == s + (Parities(c, r) + BitsBelow(r.bm, c.k));
  }

  /** Three missing data fragments, one of which some parity sees alone. */
  method FragmentsNeededThreeData(c: XorCode, missingData: array<int>, missingParity: array?<int>, dataBm: bv32, parityBm: bv32,
      ghost mp: seq<nat>, ghost l: seq<nat>, ghost s: set<nat>) returns (ret: int, dataBm': bv32, parityBm': bv32)
    requires ValidCode(c) && FewLosses(c, mp, l) && |l| == 3 && Collected(c, dataBm, parityBm, s)
    requires FirstRepairable(c, mp, l, 0) < 3
    requires IsList(missingData, l) && IsListOrNull(missingParity, mp) && missingData != missingParity
    modifies missingData
    ensures ret == 0 && Collected(c, dataBm', parityBm', (s - Members(l)) + Needs(c, mp, l))
  {
    hide Bit, Or, AndNot, Single, Collected, Needs, FirstConnected, FirstRepairable;
    ghost var r := NextRepair(c, mp, l);
    NextRepairUsable(c, mp, l);
    var dataIndex, parityIndex := FindConnected(c, missingData, missingParity, mp, l);
    RemoveFromMissingList(dataIndex, missingData, l, r.pos);
    dataBm', parityBm' := Include(c, parityIndex, dataBm, parityBm, s);
    ghost var t, rest := s + {parityIndex} + BitsBelow(c.parityBms[parityIndex - c.k], c.k), Without(l, r.pos);
    NeedsSplit(c, mp, l, s, r);
    ret, dataBm', parityBm' := FragmentsNeededTwoData(c, missingData, missingParity, dataBm', parityBm', mp, rest, t);
    DropOne(c, dataBm', parityBm', (t - Members(rest)) + Needs(c, mp, rest), dataIndex);
    dataBm' := AndNot(dataBm', Single(dataIndex));
    assert t == s + (Parities(c, r) + BitsBelow(r.bm, c.k));
  }

  /** The bits of the listed data fragments. */
  method MissingElementsBm(c: XorCode, missingData: array<int>, ghost l: seq<nat>) returns (bm: bv32)
    requires Sized(c) && DataList(c, l) && IsList(missingData, l)
    ensures BitsBelow(bm, c.k) == Members(l)
  {
    hide Bit, Or, Single;
    bm := 0;
    var i := 0;
    forall x: nat ensures !Bit(0, x) { BitZero(x); }
    while missingData[i] > -1
      invariant 0 <= i <= |l|
      invariant forall x: nat :: Bit(bm, x) <==> x in l[..i]
      decreases |l| - i
    {
      forall x: nat ensures Bit(Or(bm, Single(l[i])), x) <==> x in l[..i + 1] {
        BitOr(bm, Single(l[i]), x);
        BitSingle(l[i], x);
        assert l[..i + 1] == l[..i] + [l[i]];
      }
      bm := Or(bm, Single(missingData[i]));
      i := i + 1;
    }
    assert l[..i] == l;
  }

  lemma ListEntry(a: array<int>, l: seq<nat>, i: nat)
    requires IsList(a, l) && i <= |l|
    ensures i < a.Length && (a[i] > -1 <==> i < |l|) && (i < |l| ==> a[i] == l[i])
  {
  }

  lemma ParityPrefix(c: XorCode, mp: seq<nat>, i: nat)
    requires ParityList(c, mp) && i <= |mp|
    ensures ParityList(c, mp[..i]) && mp[..|mp|] == mp
  {
  }

  lemma ParityEntry(c: XorCode, mp: seq<nat>, i: nat)
    requires Sized(c) && Transposed(c) && ParityList(c, mp) && i < |mp|
    ensures c.k <= mp[i] < c.k + c.m == c.k + |c.parityBms| && ParityList(c, mp[..i]) && ParityList(c, mp[..i + 1])
  {
    hide Bit;
  }

  lemma ParityHigh(c: XorCode, j: nat)
    requires Sized(c) && Transposed(c) && j < c.m
    ensures forall x: nat :: c.k <= x ==> !Bit(c.parityBms[j], x)
  {
    hide Bit;
  }

  lemma InputsOfNone(c: XorCode, mp: seq<nat>, s: set<nat>, gone: set<nat>)
    requires Sized(c) && ParityList(c, mp)
    ensures ParityList(c, mp[..0]) && s + (Inputs(c, mp[..0]) - gone) == s
  {
  }

  lemma InputsNext(c: XorCode, mp: seq<nat>, s: set<nat>, gone: set<nat>, i: nat)
    requires Sized(c) && ParityList(c, mp) && i < |mp| && s !! gone
    ensures ParityList(c, mp[..i]) && ParityList(c, mp[..i + 1]) && c.k <= mp[i] < c.k + |c.parityBms|
    ensures (s + (Inputs(c, mp[..i]) - gone)) + BitsBelow(c.parityBms[mp[i] - c.k], c.k) - gone == s + (Inputs(c, mp[..i + 1]) - gone)
  {
    hide Inputs, BitsBelow;
    InputsSnoc(c, mp, i);
  }

  /** Adds the data that the listed parities are computed from, other than what is missing. */
  method OrMissingParities(c: XorCode, missingParity: array<int>, missingDataBm: bv32, dataBm: bv32, parityBm: bv32,
      ghost mp: seq<nat>, ghost l: seq<nat>, ghost s: set<nat>) returns (dataBm': bv32)
    requires Sized(c) && Transposed(c) && ParityList(c, mp) && DataList(c, l) && IsList(missingParity, mp)
    requires Collected(c, dataBm, parityBm, s) && s !! Members(l) && BitsBelow(missingDataBm, c.k) == Members(l)
    ensures Collected(c, dataBm', parityBm, s + (Inputs(c, mp) - Members(l)))
  {
    hide *;
    dataBm' := dataBm;
    var i := 0;
    InputsOfNone(c, mp, s, Members(l));
    ListEntry(missingParity, mp, 0);
    while missingParity[i] > -1
      invariant 0 <= i <= |mp| && i < missingParity.Length && (missingParity[i] > -1 <==> i < |mp|)
      invariant ParityList(c, mp[..i]) && Collected(c, dataBm', parityBm, s + (Inputs(c, mp[..i]) - Members(l)))
      decreases |mp| - i
    {
      ListEntry(missingParity, mp, i);
      ListEntry(missingParity, mp, i + 1);
      ParityEntry(c, mp, i);
      ParityHigh(c, mp[i] - c.k);
      ghost var t, bm := s + (Inputs(c, mp[..i]) - Members(l)), c.parityBms[mp[i] - c.k];
      CollectData(c, dataBm', parityBm, t, bm);
      dataBm' := Or(dataBm', c.parityBms[missingParity[i] - c.k]);
      DropData(c, dataBm', parityBm, t + BitsBelow(bm, c.k), missingDataBm);
      dataBm' := AndNot(dataBm', missingDataBm);
      InputsNext(c, mp, s, Members(l), i);
      i := i + 1;
    }
    ParityPrefix(c, mp, i);
    assert mp[..i] == mp;
  }

  // ----- from bitmaps to a list

  /** The bits below n, in increasing order, counted from base. */
  ghost function BitList(bm: bv32, n: nat, base: nat): (l: seq<nat>)
    ensures forall i :: 0 <= i < |l| ==> base <= l[i] < base + n && Bit(bm, l[i] - base)
    ensures forall i, j :: 0 <= i < j < |l| ==> l[i] < l[j]
  {
    if n == 0 then [] else BitList(bm, n - 1, base) + (if Bit(bm, n - 1) then [base + n - 1] else [])
  }

  lemma {:induction false} BitListHas(bm: bv32, n: nat, base: nat, x: nat)
    requires base <= x < base + n && Bit(bm, x - base)
    ensures x in BitList(bm, n, base)
  {
    if x < base + n - 1 { BitListHas(bm, n - 1, base, x); }
  }

  /** Beyond the last bit the list does not grow. */
  lemma {:induction false} BitListTail(bm: bv32, i: nat, n: nat, base: nat)
    requires i <= n && forall x: nat :: i <= x < n ==> !Bit(bm, x)
    ensures BitList(bm, n, base) == BitList(bm, i, base)
  {
    hide Bit;
    if i < n { BitListTail(bm, i, n - 1, base); }
  }

  lemma {:induction false} BitListPrefix(bm: bv32, i: nat, n: nat, base: nat)
    requires i <= n
    ensures |BitList(bm, i, base)| <= |BitList(bm, n, base)|
  {
    hide Bit;
    if i < n { BitListPrefix(bm, i, n - 1, base); }
  }

  /** How often a bitmap can be shifted before nothing is left. */
  ghost function Size(b: bv32): nat
    decreases b
  {
    if b == 0 then 0 else 1 + Size(Shift(b))
  }

  lemma ShiftSmaller(b: bv32)
    requires b != 0
    ensures Size(Shift(b)) < Size(b)
  {
  }

  lemma BitListMeets(bm: bv32, i: nat, n: nat, base: nat)
    requires forall x: nat :: Bit(bm, x) ==> x < n
    ensures |BitList(bm, i, base)| <= |BitList(bm, n, base)|
  {
    hide Bit;
    if i <= n { BitListPrefix(bm, i, n, base); } else { BitListTail(bm, n, i, base); }
  }

  /** One round of the listing loop, which holds the bitmap shifted i times. */
  lemma ListingStep(bm: bv32, b: bv32, i: nat, n: nat, base: nat)
    requires b == ShiftN(bm, i) && forall x: nat :: Bit(bm, x) ==> x < n
    ensures BitList(bm, i + 1, base) == BitList(bm, i, base) + (if LowBit(b) then [base + i] else [])
    ensures |BitList(bm, i + 1, base)| <= |BitList(bm, n, base)|
    ensures ShiftN(bm, i + 1) == Shift(b)
  {
    hide Shift, LowBit, ShiftN;
    ShiftedBit(bm, i, 0);
    BitListMeets(bm, i + 1, n, base);
    assert Bit(bm, i) == LowBit(b);
  }

  lemma ListingDone(bm: bv32, i: nat, n: nat, base: nat)
    requires ShiftN(bm, i) == 0 && forall x: nat :: Bit(bm, x) ==> x < n
    ensures BitList(bm, i, base) == BitList(bm, n, base)
  {
    hide Bit, Shift, ShiftN, LowBit;
    forall x: nat | i <= x ensures !Bit(bm, x) {
      ShiftedBit(bm, i, x - i);
      BitZero(x - i);
    }
    if i <= n { BitListTail(bm, i, n, base); } else { BitListTail(bm, n, i, base); }
  }

  lemma ListingStart(bm: bv32, base: nat)
    ensures ShiftN(bm, 0) == bm && BitList(bm, 0, base) == []
  {
  }

  /** The list starts with head and the entries after it. */
  ghost predicate Continues(s: seq<int>, head: seq<int>, l: seq<nat>) {
    |head| + |l| <= |s| && s[..|head| + |l|] == head + l
  }

  lemma ContinuesSnoc(s: seq<int>, head: seq<int>, l: seq<nat>, x: nat)
    requires Continues(s, head, l) && |head| + |l| < |s|
    ensures Continues(s[|head| + |l| := x], head, l + [x])
  {
  }

  /** Writes the positions of the bits, from base on, into the list from position start on. */
  method ListBits(bm: bv32, base: nat, list: array<int>, start: nat, ghost n: nat) returns (j: nat)
    requires forall i: nat :: Bit(bm, i) ==> i < n
    requires start + |BitList(bm, n, base)| < list.Length
    modifies list
    ensures j == start + |BitList(bm, n, base)|
    ensures list[..j] == old(list[..start]) + BitList(bm, n, base)
  {
    hide Bit, Shift, ShiftN, LowBit, BitList, Continues, Size;
    var b, i := bm, 0;
    j := start;
    ListingStart(bm, base);
    ghost var head, l := list[..start], BitList(bm, 0, base);
    assert Continues(list[..], head, l) by { ContinuesNone(list[..], start); }
    while b != 0
      invariant b == ShiftN(bm, i) && l == BitList(bm, i, base) && j == start + |l| < list.Length
      invariant |head| == start && Continues(list[..], head, l)
      decreases Size(b)
    {
      ListingStep(bm, b, i, n, base);
      assert Size(Shift(b)) < Size(b) by { ShiftSmaller(b); }
      if LowBit(b) {
        ghost var before := list[..];
        ContinuesSnoc(before, head, l, base + i);
        list[j] := base + i;
        assert list[..] == before[|head| + |l| := base + i];
        j := j + 1;
      } else {
        assert l + [] == l;
      }
      i := i + 1;
      l := BitList(bm, i, base);
      b := Shift(b);
    }
    ListingDone(bm, i, n, base);
    ContinuesTaken(list[..], head, l);
  }

  lemma ContinuesNone(s: seq<int>, start: nat)
    requires start <= |s|
    ensures Continues(s, s[..start], [])
  {
  }

  lemma ContinuesTaken(s: seq<int>, head: seq<int>, l: seq<nat>)
    requires Continues(s, head, l)
    ensures |head| + |l| <= |s| && s[..|head| + |l|] == head + l
  {
  }

  /** The fragments that the bitmaps name, in increasing order. */
  ghost function Listing(c: XorCode, dataBm: bv32, parityBm: bv32): (l: seq<nat>)
    ensures forall i, j :: 0 <= i < j < |l| ==> l[i] < l[j]
    ensures forall i :: 0 <= i < |l| ==> l[i] < c.k + c.m
  {
    BitList(dataBm, c.k, 0) + BitList(parityBm, c.m, c.k)
  }

  lemma ListingHas(c: XorCode, dataBm: bv32, parityBm: bv32, s: set<nat>, x: nat)
    requires Collected(c, dataBm, parityBm, s) && x < c.k + c.m && x in s
    ensures x in Listing(c, dataBm, parityBm)
  {
    hide Bit, BitList;
    if x < c.k {
      BitListHas(dataBm, c.k, 0, x);
    } else {
      assert HasParity(c, s, x - c.k);
      BitListHas(parityBm, c.m, c.k, x);
    }
  }

  lemma ListingOnly(c: XorCode, dataBm: bv32, parityBm: bv32, s: set<nat>, i: nat)
    requires Collected(c, dataBm, parityBm, s) && i < |Listing(c, dataBm, parityBm)|
    ensures Listing(c, dataBm, parityBm)[i] in s
  {
    hide Bit, BitList;
    var l := Listing(c, dataBm, parityBm);
    if l[i] >= c.k { assert HasParity(c, s, l[i] - c.k); }
  }

  lemma ListingMembers(c: XorCode, dataBm: bv32, parityBm: bv32, s: set<nat>, absent: nat)
    requires Collected(c, dataBm, parityBm, s) && absent < c.k + c.m && absent !in s
    requires forall x :: x in s ==> x < c.k + c.m
    ensures Members(Listing(c, dataBm, parityBm)) == s && |Listing(c, dataBm, parityBm)| < c.k + c.m
  {
    hide Bit, BitList, Listing, Collected;
    var l := Listing(c, dataBm, parityBm);
    forall x | x in s ensures x in l { ListingHas(c, dataBm, parityBm, s, x); }
    forall i | 0 <= i < |l| ensures l[i] in s { ListingOnly(c, dataBm, parityBm, s, i); }
    assert Members(l) == s;
    DistinctCard(l);
    assert (set i | 0 <= i < |l| :: l[i]) == s;
    SubsetCard(s + {absent}, UpTo(c.k + c.m));
  }

  /** Writes the listing of the two bitmaps, terminated by -1. */
  method WriteListing(c: XorCode, dataBm: bv32, parityBm: bv32, list: array<int>, ghost s: set<nat>)
    requires Collected(c, dataBm, parityBm, s) && |Listing(c, dataBm, parityBm)| < list.Length
    modifies list
    ensures IsList(list, Listing(c, dataBm, parityBm))
  {
    hide Bit, BitList;
    var j := ListBits(dataBm, 0, list, 0, c.k);
    j := ListBits(parityBm, c.k, list, j, c.m);
    assert list[..j] == Listing(c, dataBm, parityBm);
    list[j] := -1;
  }

  // ----- the whole question

  /** What repairing the lost data reads, by the number of fragments lost. */
  method NeededForData(c: XorCode, missingIdxs: seq<int>, missingData: array<int>, missingParity: array?<int>, n: nat,
      ghost mp: seq<nat>, ghost l: seq<nat>) returns (ret: int, dataBm: bv32, parityBm: bv32)
    requires ValidCode(c) && MissingList(missingIdxs, c.k + c.m) && FewLosses(c, mp, l) && n == |l| && 1 <= n <= 3
    requires n == 3 ==> FirstRepairable(c, mp, l, 0) < 3
    requires IsList(missingData, l) && IsListOrNull(missingParity, mp) && missingData != missingParity
    modifies missingData
    ensures ret == 0 && Collected(c, dataBm, parityBm, Needs(c, mp, l))
  {
    hide Bit, Needs, Collected, FirstRepairable, ValidCode;
    CollectedNone(c);
    if n == 1 {
      ret, dataBm, parityBm := FragmentsNeededOneData(c, missingData, missingParity, 0, 0, mp, l, {});
    } else if n == 2 {
      ret, dataBm, parityBm := FragmentsNeededTwoData(c, missingData, missingParity, 0, 0, mp, l, {});
    } else {
      ret, dataBm, parityBm := FragmentsNeededThreeData(c, missingData, missingParity, 0, 0, mp, l, {});
    }
    SizedOf(c);
    assert ({} - Members(l)) + Needs(c, mp, l) == Needs(c, mp, l);
  }

  /** Only data is lost. */
  method NeededDataOnly(c: XorCode, missingIdxs: seq<int>, n: nat) returns (ret: int, dataBm: bv32, parityBm: bv32)
    requires ValidCode(c) && MissingList(missingIdxs, c.k + c.m) && |Items(missingIdxs)| < c.hd
    requires LostParity(c, missingIdxs) == [] && n == |LostData(c, missingIdxs)| && 1 <= n <= 3
    requires n == 3 ==> FirstRepairable(c, LostParity(c, missingIdxs), LostData(c, missingIdxs), 0) < 3
    ensures ret == 0 && Collected(c, dataBm, parityBm, Needed(c, missingIdxs, true))
  {
    hide Bit, Needs, Collected, FirstRepairable, Part, Column, Transposed;
    ghost var l, mp := LostData(c, missingIdxs), LostParity(c, missingIdxs);
    FewLost(c, missingIdxs);
    var missingData := GetMissingData(c, missingIdxs);
    ret, dataBm, parityBm := NeededForData(c, missingIdxs, missingData, null, n, mp, l);
    assert Needed(c, missingIdxs, true) == Needs(c, mp, l);
  }

  /** Data and parities are lost. */
  method NeededBoth(c: XorCode, missingIdxs: seq<int>, n: nat) returns (ret: int, dataBm: bv32, parityBm: bv32)
    requires ValidCode(c) && MissingList(missingIdxs, c.k + c.m) && |Items(missingIdxs)| < c.hd
    requires LostParity(c, missingIdxs) != [] && n == |LostData(c, missingIdxs)| && 1 <= n <= 2
    ensures ret == 0 && Collected(c, dataBm, parityBm, Needed(c, missingIdxs, true))
  {
    hide Bit, Needs, Collected, FirstRepairable, Part, Column, Inputs;
    ghost var l, mp := LostData(c, missingIdxs), LostParity(c, missingIdxs);
    FewLost(c, missingIdxs);
    var missingData := GetMissingData(c, missingIdxs);
    var missingParity := GetMissingParity(c, missingIdxs);
    var missingDataBm := MissingElementsBm(c, missingData, l);
    ret, dataBm, parityBm := NeededForData(c, missingIdxs, missingData, missingParity, n, mp, l);
    NeedsPresent(c, mp, l);
    dataBm := OrMissingParities(c, missingParity, missingDataBm, dataBm, parityBm, mp, l, Needs(c, mp, l));
  }

  /** Only parities are lost. */
  method NeededParityOnly(c: XorCode, missingIdxs: seq<int>) returns (dataBm: bv32, parityBm: bv32)
    requires ValidCode(c) && MissingList(missingIdxs, c.k + c.m) && LostData(c, missingIdxs) == []
    ensures Collected(c, dataBm, parityBm, Needed(c, missingIdxs, true))
  {
    hide Bit, Collected, Part, Column, Inputs, Or, LostParity, Needed;
    ghost var mp := LostParity(c, missingIdxs);
    LostCounts(c, missingIdxs);
    var missingParity := GetMissingParity(c, missingIdxs);
    dataBm, parityBm := 0, 0;
    CollectedNone(c);
    var i := 0;
    assert Inputs(c, mp[..0]) == {} by { NoInputs(c, mp); }
    while missingParity[i] > -1
      invariant 0 <= i <= |mp| && IsList(missingParity, mp)
      invariant Collected(c, dataBm, parityBm, Inputs(c, mp[..i]))
      decreases |mp| - i
    {
      CollectData(c, dataBm, parityBm, Inputs(c, mp[..i]), c.parityBms[mp[i] - c.k]);
      InputsSnoc(c, mp, i);
      dataBm := Or(dataBm, c.parityBms[missingParity[i] - c.k]);
      i := i + 1;
    }
    assert mp[..i] == mp;
    NeededWithoutData(c, missingIdxs);
  }

  lemma NeededWithoutData(c: XorCode, missingIdxs: seq<int>)
    requires Sized(c) && MissingList(missingIdxs, c.k + c.m) && LostData(c, missingIdxs) == []
    ensures Needed(c, missingIdxs, true) == Inputs(c, LostParity(c, missingIdxs))
  {
    hide Inputs, Part;
    assert Needed(c, missingIdxs, true) == Inputs(c, LostParity(c, missingIdxs)) - Members([]);
  }

  lemma NoInputs(c: XorCode, mp: seq<nat>)
    requires Sized(c) && ParityList(c, mp)
    ensures Inputs(c, mp[..0]) == {}
  {
  }

  lemma InputsSnoc(c: XorCode, mp: seq<nat>, i: nat)
    requires Sized(c) && ParityList(c, mp) && i < |mp|
    ensures Inputs(c, mp[..i + 1]) == Inputs(c, mp[..i]) + BitsBelow(c.parityBms[mp[i] - c.k], c.k)
  {
    assert mp[..i + 1][..i] == mp[..i];
  }

  /** Only the sum of two parities recovers the first of three lost data fragments; the methods below exclude such lists. */
  ghost predicate NeedsSum(c: XorCode, missingIdxs: seq<int>)
    requires Sized(c) && MissingList(missingIdxs, c.k + c.m)
  {
    |LostData(c, missingIdxs)| == 3 && FirstRepairable(c, LostParity(c, missingIdxs), LostData(c, missingIdxs), 0) == 3
  }

  lemma FiveBits(b: bv32)
    ensures Bit(b, 0) == LowBit(b) && Bit(b, 1) == LowBit(Shift(b)) && Bit(b, 2) == LowBit(Shift(Shift(b)))
    ensures Bit(b, 3) == LowBit(Shift(Shift(Shift(b)))) && Bit(b, 4) == LowBit(Shift(Shift(Shift(Shift(b)))))
  {
    hide LowBit, Shift;
    NextBit(b, 0);
    NextBit(b, 1);
    NextBit(b, 2);
    NextBit(b, 3);
    NextBit(Shift(b), 0);
    NextBit(Shift(b), 1);
    NextBit(Shift(b), 2);
    NextBit(Shift(Shift(b)), 0);
    NextBit(Shift(Shift(b)), 1);
    NextBit(Shift(Shift(Shift(b))), 0);
    hide Bit;
  }

  lemma NextBit(b: bv32, i: nat)
    ensures Bit(b, i + 1) == Bit(Shift(b), i) && Bit(b, 0) == LowBit(b) && Bit(Shift(b), 0) == LowBit(Shift(b))
  {
  }

  lemma SmallShifts()
    ensures Shift(11) == 5 && Shift(5) == 2 && Shift(2) == 1 && Shift(1) == 0
    ensures Shift(13) == 6 && Shift(6) == 3 && Shift(3) == 1 && Shift(14) == 7 && Shift(7) == 3
    ensures LowBit(11) && LowBit(5) && !LowBit(2) && LowBit(1) && !LowBit(0)
    ensures LowBit(13) && !LowBit(6) && LowBit(3) && !LowBit(14) && LowBit(7)
  {
  }

  /** Three columns of the table for five parities, bit by bit. */
  lemma ThreeColumns(j: nat)
    requires j < 5
    ensures Bit(11, j) <==> j != 2 && j != 4
    ensures Bit(13, j) <==> j != 1 && j != 4
    ensures Bit(14, j) <==> j != 0 && j != 4
  {
    SmallShifts();
    FiveBits(11);
    FiveBits(13);
    FiveBits(14);
    hide Bit, LowBit, Shift;
  }

  /** A parity that holds one of these three holds another one too. */
  lemma SeesAnother(c: XorCode, l: seq<nat>, r: nat, j: nat)
    requires Sized(c) && DataList(c, l) && |l| == 3 && r < 3 && j < 5 == c.m
    requires c.dataBms[l[0]] == 11 && c.dataBms[l[1]] == 13 && c.dataBms[l[2]] == 14 && Bit(c.dataBms[l[r]], j)
    ensures Seen(c, l, j) >= 2
  {
    ThreeColumns(j);
    hide Bit, Seen;
    var other := if r != 0 && Bit(11, j) then 0 else if r != 1 && Bit(13, j) then 1 else 2;
    SeenTwice(c, l, j, if other < r then other else r, if other < r then r else other);
  }

  lemma NoneAlone(c: XorCode, mp: seq<nat>, l: seq<nat>)
    requires Sized(c) && Transposed(c) && DataList(c, l) && |l| == 3 && c.m == 5
    requires c.dataBms[l[0]] == 11 && c.dataBms[l[1]] == 13 && c.dataBms[l[2]] == 14
    ensures FirstRepairable(c, mp, l, 0) == 3
  {
    hide Bit, Seen, Column, FirstConnected;
    var r := FirstRepairable(c, mp, l, 0);
    if r < 3 {
      var j := FirstConnected(c, l[r], mp, l, 0);
      assert Connects(c, l[r], mp, l, j);
      assert Bit(c.dataBms[l[r]], j) by { TransposedAt(c, l[r], j); }
      SeesAnother(c, l, r, j);
    }
  }

  lemma TransposedAt(c: XorCode, i: nat, j: nat)
    requires Sized(c) && Transposed(c) && i < c.k && j < c.m
    ensures Bit(c.parityBms[j], i) <==> Bit(c.dataBms[i], j)
  {
    hide Bit;
  }

  lemma LostThree(c: XorCode)
    requires Sized(c) && c.k == 8 && c.m == 5
    ensures MissingList([0, 1, 7, -1], c.k + c.m) && |Items([0, 1, 7, -1])| == 3 && LostData(c, [0, 1, 7, -1]) == [0, 1, 7]
  {
    hide Sized, Part;
    var l: seq<nat> := [0, 1, 7];
    assert Items([0, 1, 7, -1]) == l;
    PartOfData(l, 8);
  }

  lemma ThreeTableColumns()
    ensures var c := XorHdTables.Table(XorHdTables.Hd4M5, 8);
      ValidCode(c) && Sized(c) && c.k == 8 && c.m == 5 && c.hd == 4 && |c.dataBms| == 8 && c.dataBms[0] == 11 && c.dataBms[1] == 13 && c.dataBms[7] == 14
  {
    XorHdTables.TableValid(XorHdTables.Hd4M5, 8);
    SizedOf(XorHdTables.Table(XorHdTables.Hd4M5, 8));
  }

  lemma ValidTransposed(c: XorCode)
    requires ValidCode(c)
    ensures Sized(c) && Transposed(c)
  {
  }

  /** It does come to that: with 8 data and 5 parity fragments, no parity sees just one of 0, 1 and 7. */
  lemma SumReached()
    ensures var c := XorHdTables.Table(XorHdTables.Hd4M5, 8);
      ValidCode(c) && Sized(c) && MissingList([0, 1, 7, -1], c.k + c.m) && |Items([0, 1, 7, -1])| < c.hd && NeedsSum(c, [0, 1, 7, -1])
  {
    var c := XorHdTables.Table(XorHdTables.Hd4M5, 8);
    ThreeTableColumns();
    hide XorHdTables.Table;
    ValidTransposed(c);
    hide ValidCode, Transposed;
    LostThree(c);
    hide LostData, LostParity, Items, FirstRepairable, MissingList;
    NoneAlone(c, LostParity(c, [0, 1, 7, -1]), LostData(c, [0, 1, 7, -1]));
  }

  lemma {:induction false} PartOfData(l: seq<nat>, k: nat)
    requires forall i :: 0 <= i < |l| ==> l[i] < k
    ensures Part(l, k, true) == l
  {
    if l != [] {
      var n := |l| - 1;
      PartOfData(l[..n], k);
      assert l == l[..n] + [l[n]];
    }
  }

  /** What undoing all the losses reads, by the failure pattern. */
  method NeededForAll(c: XorCode, missingIdxs: seq<int>) returns (ret: int, dataBm: bv32, parityBm: bv32)
    requires ValidCode(c) && MissingList(missingIdxs, c.k + c.m) && (|Items(missingIdxs)| < c.hd ==> !NeedsSum(c, missingIdxs))
    ensures ret == if 0 < |Items(missingIdxs)| < c.hd then 0 else -1
    ensures ret == 0 ==> Collected(c, dataBm, parityBm, Needed(c, missingIdxs, true))
  {
    hide Bit, Collected, Part, Column, Transposed, Needed, LostData, LostParity, PatternOf, FirstRepairable;
    ghost var l, mp := LostData(c, missingIdxs), LostParity(c, missingIdxs);
    ret, dataBm, parityBm := -1, 0, 0;
    var pattern := GetFailurePattern(c, missingIdxs);
    FewLost(c, missingIdxs);
    LostCounts(c, missingIdxs);
    PatternMeans(|l|, |mp|);
    match pattern {
      case D0P0 =>
      case D1P0 =>
        ret, dataBm, parityBm := NeededDataOnly(c, missingIdxs, 1);
      case D2P0 =>
        ret, dataBm, parityBm := NeededDataOnly(c, missingIdxs, 2);
      case D3P0 =>
        ret, dataBm, parityBm := NeededDataOnly(c, missingIdxs, 3);
      case D1P1 =>
        ret, dataBm, parityBm := NeededBoth(c, missingIdxs, 1);
      case D1P2 =>
        ret, dataBm, parityBm := NeededBoth(c, missingIdxs, 1);
      case D2P1 =>
        ret, dataBm, parityBm := NeededBoth(c, missingIdxs, 2);
      case D0P1 =>
        dataBm, parityBm := NeededParityOnly(c, missingIdxs);
        ret := 0;
      case D0P2 =>
        dataBm, parityBm := NeededParityOnly(c, missingIdxs);
        ret := 0;
      case D0P3 =>
        dataBm, parityBm := NeededParityOnly(c, missingIdxs);
        ret := 0;
      case GeHd =>
    }
  }

  lemma LostCounts(c: XorCode, missingIdxs: seq<int>)
    requires Sized(c) && MissingList(missingIdxs, c.k + c.m)
    ensures LostData(c, missingIdxs) == Part(Items(missingIdxs), c.k, true)
    ensures LostParity(c, missingIdxs) == Part(Items(missingIdxs), c.k, false)
  {
  }

  /** The list of what to rebuild followed by the list of what not to use. */
  ghost function Joined(toReconstruct: seq<int>, toExclude: seq<int>): seq<int>
    requires |toReconstruct| > 0
  {
    toReconstruct[..|toReconstruct| - 1] + toExclude
  }

  method Join(toReconstruct: seq<int>, toExclude: seq<int>, ghost n: nat) returns (missingIdxs: seq<int>)
    requires MissingList(toReconstruct, n) && MissingList(toExclude, n)
    ensures missingIdxs == Joined(toReconstruct, toExclude)
  {
    missingIdxs := [];
    var i := 0;
    while toReconstruct[i] > -1
      invariant 0 <= i < |toReconstruct| && missingIdxs == toReconstruct[..i]
      decreases |toReconstruct| - i
    {
      missingIdxs := missingIdxs + [toReconstruct[i]];
      i := i + 1;
    }
    ghost var first := missingIdxs;
    i := 0;
    while toExclude[i] > -1
      invariant 0 <= i < |toExclude| && missingIdxs == first + toExclude[..i]
      decreases |toExclude| - i
    {
      missingIdxs := missingIdxs + [toExclude[i]];
      i := i + 1;
    }
    missingIdxs := missingIdxs + [-1];
    assert toExclude == toExclude[..i] + [-1];
  }

  /** The parity for a single lost data fragment that avoids the excluded fragments, more or less; or -1. */
  ghost function LocalParity(c: XorCode, toReconstruct: seq<int>, toExclude: seq<int>): (j: int)
    requires Sized(c) && MissingList(toReconstruct, c.k + c.m) && MissingList(toExclude, c.k + c.m)
    ensures -1 <= j < c.m
  {
    if |toReconstruct| == 2 && toReconstruct[0] < c.k
    then FirstConnected(c, toReconstruct[0], LostParity(c, toExclude), LostData(c, toExclude), 0)
    else -1
  }

  /** What rebuilding data fragment d from parity j reads. */
  ghost function LocalNeeds(c: XorCode, d: nat, j: nat): set<nat>
    requires j < |c.parityBms|
  {
    {c.k + j} + BitsBelow(c.parityBms[j], c.k) - {d}
  }

  method FragmentsNeededOneDataLocal(c: XorCode, fragmentToReconstruct: nat, fragmentsToExclude: seq<int>)
    returns (ret: int, dataBm: bv32, parityBm: bv32)
    requires ValidCode(c) && fragmentToReconstruct < c.k && MissingList(fragmentsToExclude, c.k + c.m)
    ensures var j := FirstConnected(c, fragmentToReconstruct, LostParity(c, fragmentsToExclude), LostData(c, fragmentsToExclude), 0);
      if j >= 0 then ret == 0 && Collected(c, dataBm, parityBm, LocalNeeds(c, fragmentToReconstruct, j)) else ret == -1
  {
    hide Bit, Collected, Part, Column, LostData, LostParity, FirstConnected;
    ret, dataBm, parityBm := 0, 0, 0;
    LostCounts(c, fragmentsToExclude);
    var missingData := GetMissingData(c, fragmentsToExclude);
    var missingParity := GetMissingParity(c, fragmentsToExclude);
    var parityIndex := IndexOfConnectedParity(c, fragmentToReconstruct, missingParity, missingData, LostParity(c, fragmentsToExclude), LostData(c, fragmentsToExclude));
    if parityIndex < 0 {
      ret := -1;
      return;
    }
    CollectedNone(c);
    dataBm, parityBm := Include(c, parityIndex, 0, 0, {});
    DropOne(c, dataBm, parityBm, {} + {parityIndex} + BitsBelow(c.parityBms[parityIndex - c.k], c.k), fragmentToReconstruct);
    dataBm := AndNot(dataBm, Single(fragmentToReconstruct));
    assert {} + {parityIndex} + BitsBelow(c.parityBms[parityIndex - c.k], c.k) - {fragmentToReconstruct} == LocalNeeds(c, fragmentToReconstruct, parityIndex - c.k);
  }

  /** What the answer lists, when there is one. */
  ghost function Answer(c: XorCode, toReconstruct: seq<int>, toExclude: seq<int>): (s: set<nat>)
    requires Sized(c) && MissingList(toReconstruct, c.k + c.m) && MissingList(toExclude, c.k + c.m)
    requires MissingList(Joined(toReconstruct, toExclude), c.k + c.m)
  {
    var j := LocalParity(c, toReconstruct, toExclude);
    if j >= 0 then LocalNeeds(c, toReconstruct[0], j) else Needed(c, Joined(toReconstruct, toExclude), true)
  }

  lemma FirstPattern(c: XorCode, missingIdxs: seq<int>)
    requires ValidCode(c) && MissingList(missingIdxs, c.k + c.m)
    ensures |Items(missingIdxs)| < c.hd && PatternOf(|Part(Items(missingIdxs), c.k, true)|, |Part(Items(missingIdxs), c.k, false)|) == D1P0
      <==> |missingIdxs| == 2 && missingIdxs[0] < c.k
  {
    hide Bit, Column, Transposed, Part;
    var l := Items(missingIdxs);
    PatternMeans(|Part(l, c.k, true)|, |Part(l, c.k, false)|);
    PartLengths(l, c.k);
    if |missingIdxs| == 2 {
      PartMembers(l, c.k, true, l[0]);
      PartMembers(l, c.k, false, l[0]);
      assert l[0] in l;
    }
  }

  /** The answer is about fragments of the stripe, not all of them. */
  lemma AnswerFits(c: XorCode, toReconstruct: seq<int>, toExclude: seq<int>)
    requires ValidCode(c) && MissingList(toReconstruct, c.k + c.m) && MissingList(toExclude, c.k + c.m)
    requires MissingList(Joined(toReconstruct, toExclude), c.k + c.m)
    requires LocalParity(c, toReconstruct, toExclude) >= 0 || 1 < |Joined(toReconstruct, toExclude)| <= c.hd
    ensures forall x :: x in Answer(c, toReconstruct, toExclude) ==> x < c.k + c.m
    ensures Joined(toReconstruct, toExclude)[0] >= 0 && Joined(toReconstruct, toExclude)[0] !in Answer(c, toReconstruct, toExclude)
  {
    hide Bit, Column, Transposed, LostData, LostParity, FirstConnected, Needed;
    var all := Joined(toReconstruct, toExclude);
    if LocalParity(c, toReconstruct, toExclude) < 0 {
      NeededPresent(c, all, true);
      assert all[0] in all;
    }
  }

  /** Lists the fragments to read, in increasing order, for rebuilding some fragments without using others. */
  method XorHdFragmentsNeeded(c: XorCode, toReconstruct: seq<int>, toExclude: seq<int>, fragmentsNeeded: array<int>)
    returns (ret: int, ghost needed: seq<nat>)
    requires ValidCode(c) && MissingList(toReconstruct, c.k + c.m) && MissingList(toExclude, c.k + c.m)
    requires MissingList(Joined(toReconstruct, toExclude), c.k + c.m) && c.k + c.m <= fragmentsNeeded.Length
    requires |Joined(toReconstruct, toExclude)| - 1 < c.hd ==> !NeedsSum(c, Joined(toReconstruct, toExclude))
    modifies fragmentsNeeded
    ensures ret == if LocalParity(c, toReconstruct, toExclude) >= 0 || 1 < |Joined(toReconstruct, toExclude)| <= c.hd then 0 else -1
    ensures ret == 0 ==> IsList(fragmentsNeeded, needed) && Members(needed) == Answer(c, toReconstruct, toExclude)
    ensures ret == 0 ==> forall i, j :: 0 <= i < j < |needed| ==> needed[i] < needed[j]
    ensures ret != 0 ==> fragmentsNeeded[..] == old(fragmentsNeeded[..])
  {
    hide Bit, Collected, Part, Column, Transposed, LostData, LostParity, FirstConnected, PatternOf, Needed, Listing, FirstRepairable;
    ghost var all := Joined(toReconstruct, toExclude);
    ghost var local := LocalParity(c, toReconstruct, toExclude);
    var dataBm, parityBm: bv32 := 0, 0;
    ret, needed := -1, [];
    var pattern := GetFailurePattern(c, toReconstruct);
    FirstPattern(c, toReconstruct);
    if pattern == D1P0 {
      ret, dataBm, parityBm := FragmentsNeededOneDataLocal(c, toReconstruct[0], toExclude);
    }
    if ret == -1 {
      var missingIdxs := Join(toReconstruct, toExclude, c.k + c.m);
      ret, dataBm, parityBm := NeededForAll(c, missingIdxs);
    }
    if ret >= 0 {
      needed := Listing(c, dataBm, parityBm);
      AnswerFits(c, toReconstruct, toExclude);
      ListingMembers(c, dataBm, parityBm, Answer(c, toReconstruct, toExclude), all[0]);
      WriteListing(c, dataBm, parityBm, fragmentsNeeded, Answer(c, toReconstruct, toExclude));
    }
  }

  lemma {:induction false} ConnectedAlone(c: XorCode, d: nat, j: nat)
    requires Sized(c) && d < c.k && j <= c.m
    ensures FirstConnected(c, d, [], [], j) == FirstConnected(c, d, [], [d], j)
    decreases c.m - j
  {
    hide Bit;
    if j < c.m {
      SeenOfOne(c, [d], j);
      ConnectedAlone(c, d, j + 1);
    }
  }

  lemma LostSingle(c: XorCode, missing: seq<int>, d: nat)
    requires Sized(c) && d < c.k && |missing| == 2 && missing[0] == d && missing[1] == -1
    ensures LostData(c, missing) == [d] && LostParity(c, missing) == []
  {
    var one := Items(missing);
    assert one == [d] && one[..0] == [];
    assert Part(one[..0], c.k, true) == [] == Part(one[..0], c.k, false);
    assert Part(one, c.k, true) == [d] && Part(one, c.k, false) == [];
  }

  lemma LostNothing(c: XorCode, missing: seq<int>)
    requires Sized(c) && |missing| == 1 && missing[0] == -1
    ensures LostData(c, missing) == [] && LostParity(c, missing) == []
  {
  }

  /** With nothing excluded, the answer is what the decoder reads, all of it present. */
  lemma AnswerIsNeeded(c: XorCode, missingIdxs: seq<int>)
    requires ValidCode(c) && MissingList(missingIdxs, c.k + c.m) && 1 < |missingIdxs| <= c.hd
    ensures Joined(missingIdxs, [-1]) == missingIdxs
    ensures Answer(c, missingIdxs, [-1]) == Needed(c, missingIdxs, true)
    ensures forall x :: x in Answer(c, missingIdxs, [-1]) ==> x < c.k + c.m && x !in missingIdxs
  {
    hide Bit, Column, Transposed, LostData, LostParity, Needs, FirstConnected, Inputs;
    assert Joined(missingIdxs, [-1]) == missingIdxs;
    NeededPresent(c, missingIdxs, true);
    if |missingIdxs| == 2 && missingIdxs[0] < c.k {
      var d := missingIdxs[0];
      LostSingle(c, missingIdxs, d);
      LostNothing(c, [-1]);
      ConnectedAlone(c, d, 0);
      NeedsOfOne(c, d);
      assert Needed(c, missingIdxs, true) == Needs(c, [], [d]) by { NoInputs(c, []); }
    }
  }

  lemma NeedsOfOne(c: XorCode, d: nat)
    requires ValidCode(c) && d < c.k
    ensures FirstConnected(c, d, [], [d], 0) >= 0
    ensures Needs(c, [], [d]) == LocalNeeds(c, d, FirstConnected(c, d, [], [d], 0))
  {
    hide Bit, Column, Transposed, FirstConnected, NextRepair, Sources, BitsBelow;
    NextOfOne(c, [], [d]);
    var j := FirstConnected(c, d, [], [d], 0);
    SourcesOfOne(c, d, j);
    assert Without([d], 0) == [];
    assert Needs(c, [], [d]) == Sources(c, NextRepair(c, [], [d]), d);
  }

  lemma SourcesOfOne(c: XorCode, d: nat, j: nat)
    requires d < c.k && j < |c.parityBms|
    ensures Sources(c, Repair(0, j, j, c.parityBms[j]), d) == LocalNeeds(c, d, j)
  {
    hide Bit, BitsBelow;
    assert {c.k + j, c.k + j} == {c.k + j};
  }

  /** Excluded fragments stay out of the answer, except where a single lost data fragment is served by a
      parity that sees one of them. */
  lemma AnswerAvoids(c: XorCode, toReconstruct: seq<int>, toExclude: seq<int>)
    requires ValidCode(c) && MissingList(toReconstruct, c.k + c.m) && MissingList(toExclude, c.k + c.m)
    requires MissingList(Joined(toReconstruct, toExclude), c.k + c.m)
    requires LocalParity(c, toReconstruct, toExclude) >= 0 || 1 < |Joined(toReconstruct, toExclude)| <= c.hd
    ensures (forall x :: x in Answer(c, toReconstruct, toExclude) ==> x !in Joined(toReconstruct, toExclude)) <==>
      (LocalParity(c, toReconstruct, toExclude) >= 0 ==> Seen(c, LostData(c, toExclude), LocalParity(c, toReconstruct, toExclude)) == 0)
  {
    hide Bit, Column, LostData, LostParity, FirstConnected, Needed, Seen;
    var all, j := Joined(toReconstruct, toExclude), LocalParity(c, toReconstruct, toExclude);
    if j < 0 {
      NeededPresent(c, all, true);
    } else {
      NotExcluded(c.k + c.m, toReconstruct, toExclude);
      LocalAvoids(c, toReconstruct[0], toExclude, j);
      assert forall x :: x in all <==> x == toReconstruct[0] || x in toExclude;
    }
  }

  lemma NotExcluded(n: nat, toReconstruct: seq<int>, toExclude: seq<int>)
    requires |toReconstruct| == 2 && MissingList(toReconstruct, n) && MissingList(toExclude, n)
    requires MissingList(Joined(toReconstruct, toExclude), n)
    ensures toReconstruct[0] !in toExclude
  {
    var all := Joined(toReconstruct, toExclude);
    forall i | 0 <= i < |toExclude| - 1 ensures toExclude[i] != toReconstruct[0] { assert all[0] == toReconstruct[0] && all[i + 1] == toExclude[i]; }
  }

  lemma UnseenFragments(c: XorCode, d: nat, toExclude: seq<int>, j: nat)
    requires j < |c.parityBms| && c.k + j !in toExclude
    requires forall i :: 0 <= i < c.k && Bit(c.parityBms[j], i) ==> i in Present(toExclude, c.k + c.m)
    ensures forall x :: x in LocalNeeds(c, d, j) ==> x !in toExclude
  {
    hide Bit;
    forall x | x in LocalNeeds(c, d, j) ensures x !in toExclude {
      if x != c.k + j { assert x in BitsBelow(c.parityBms[j], c.k); }
    }
  }

  lemma UnseenAvoids(c: XorCode, d: nat, toExclude: seq<int>, j: nat)
    requires ValidCode(c) && d < c.k && MissingList(toExclude, c.k + c.m) && j < c.m
    requires Connects(c, d, LostParity(c, toExclude), LostData(c, toExclude), j) && Seen(c, LostData(c, toExclude), j) == 0
    ensures forall x :: x in LocalNeeds(c, d, j) ==> x !in toExclude
  {
    hide Bit, Column, LostData, LostParity, Seen, Part, BitsBelow;
    LostMembers(c, toExclude, c.k + j);
    UnseenInputs(c, toExclude, j);
    UnseenFragments(c, d, toExclude, j);
  }

  lemma LocalAvoids(c: XorCode, d: nat, toExclude: seq<int>, j: nat)
    requires ValidCode(c) && d < c.k && d !in toExclude && MissingList(toExclude, c.k + c.m) && j < c.m
    requires Connects(c, d, LostParity(c, toExclude), LostData(c, toExclude), j)
    ensures (forall x :: x in LocalNeeds(c, d, j) ==> x !in toExclude) <==> Seen(c, LostData(c, toExclude), j) == 0
  {
    hide Bit, Column, LostData, LostParity, Seen, Part;
    var l := LostData(c, toExclude);
    LostMembers(c, toExclude, c.k + j);
    if Seen(c, l, j) == 0 {
      UnseenAvoids(c, d, toExclude, j);
    } else {
      var i := SomeSeen(c, l, j);
      assert l[i] in l;
      LostMembers(c, toExclude, l[i]);
      assert l[i] in LocalNeeds(c, d, j);
    }
  }

  /** A parity that sees something of a list sees some member of it. */
  lemma {:induction false} SomeSeen(c: XorCode, l: seq<nat>, j: nat) returns (i: nat)
    requires Sized(c) && DataList(c, l) && j < c.m && Seen(c, l, j) > 0
    ensures i < |l| && Bit(c.dataBms[l[i]], j)
  {
    hide Bit;
    i := |l| - 1;
    if !Bit(c.dataBms[l[i]], j) { i := SomeSeen(c, l[..i], j); }
  }

  /** The list of one fragment. */
  function Only(d: nat): seq<int> { [d as int, -1] }

  /** Asked to rebuild data fragment d without x, the answer has x in it, although the parity j would do without. */
  ghost predicate AnswersExcluded(c: XorCode, d: nat, x: nat, j: nat) {
    && ValidCode(c) && d < c.k && x < c.k && j < c.m
    && MissingList(Only(d), c.k + c.m) && MissingList(Only(x), c.k + c.m) && MissingList(Joined(Only(d), Only(x)), c.k + c.m)
    && x in Answer(c, Only(d), Only(x))
    && Connects(c, d, LostParity(c, Only(x)), LostData(c, Only(x)), j) && x !in LocalNeeds(c, d, j)
  }

  lemma OnlyLists(c: XorCode, x: nat)
    requires ValidCode(c) && x < c.k
    ensures MissingList(Only(x), c.k + c.m) && LostData(c, Only(x)) == [x] && LostParity(c, Only(x)) == []
  {
    hide Bit, Column, Transposed, LostData, LostParity;
    LostSingle(c, Only(x), x);
  }

  lemma SeenInTable(c: XorCode, i: nat, x: nat, j: nat)
    requires ValidCode(c) && i < c.k && x < c.k && j < c.m
    ensures Bit(c.parityBms[j], i) <==> Bit(c.dataBms[i], j)
    ensures Seen(c, [x], j) == if Bit(c.dataBms[x], j) then 1 else 0
  {
    hide Bit, Column;
    SeenOfOne(c, [x], j);
  }

  lemma OnlyJoined(d: nat, x: nat, n: nat)
    requires d < n && x < n && d != x
    ensures MissingList(Joined(Only(d), Only(x)), n)
  {
    assert Joined(Only(d), Only(x)) == [d as int, x, -1];
  }

  /** It comes to that whenever parity 0 sees both and parity j only the fragment to rebuild. */
  lemma ExcludedAnswered(c: XorCode, d: nat, x: nat, j: nat)
    requires ValidCode(c) && d < c.k && x < c.k && d != x && j < c.m
    requires Bit(c.dataBms[d], 0) && Bit(c.dataBms[x], 0) && Bit(c.dataBms[d], j) && !Bit(c.dataBms[x], j)
    ensures AnswersExcluded(c, d, x, j)
  {
    hide Bit, Column, LostData, LostParity, Seen, MissingList, Transposed;
    OnlyLists(c, d);
    OnlyLists(c, x);
    OnlyJoined(d, x, c.k + c.m);
    SeenInTable(c, d, x, 0);
    SeenInTable(c, x, x, 0);
    SeenInTable(c, d, x, j);
    SeenInTable(c, x, x, j);
    assert x in BitsBelow(c.parityBms[0], c.k);
  }

  /** It does with a shipped table: rebuilding fragment 0 without fragment 1 is answered with fragment 1. */
  lemma ExcludedReached()
    ensures AnswersExcluded(XorHdTables.Table(XorHdTables.Hd4M5, 8), 0, 1, 1)
  {
    var c := XorHdTables.Table(XorHdTables.Hd4M5, 8);
    hide *;
    ThreeTableColumns();
    ColumnsOfTwo(c);
    ExcludedAnswered(c, 0, 1, 1);
  }

  lemma ColumnsOfTwo(c: XorCode)
    requires |c.dataBms| >= 2 && c.dataBms[0] == 11 && c.dataBms[1] == 13
    ensures Bit(c.dataBms[0], 0) && Bit(c.dataBms[1], 0) && Bit(c.dataBms[0], 1) && !Bit(c.dataBms[1], 1)
  {
    ThreeColumns(0);
    ThreeColumns(1);
    hide Bit;
  }
}
