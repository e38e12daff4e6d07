/** The decoder of the flat XOR codes of Hamming distance 3 and 4. */
module XorHdCode {
  import opened Bytes
  import opened Bitmaps
  import opened Mds
  import opened Erasures
  import opened Regions
  import opened XorCode
  import opened XorLists
  import opened XorRepair
  import opened XorBuffers

  /** The missing data fragments l can be repaired from the known ones, which hold what was stored. */
  ghost predicate Ready(c: XorCode, data: seq<array<bv8>>, parity: seq<array<bv8>>, blocksize: nat,
      orig: seq<seq<bv8>>, known: set<nat>, mp: seq<nat>, l: seq<nat>)
    reads data, parity
  {
    && ValidCode(c) && Stripe(data, parity, c.k, c.m, blocksize) && IsXorCodeword(c, blocksize, orig)
    && FewLosses(c, mp, l) && Needs(c, mp, l) <= known && Holds(c, Contents(data), Contents(parity), orig, known)
  }

  /** What the next repair reads is there, and the repairs after it are ready once it is done. */
  lemma ReadyStep(c: XorCode, data: seq<array<bv8>>, parity: seq<array<bv8>>, blocksize: nat,
      orig: seq<seq<bv8>>, known: set<nat>, mp: seq<nat>, l: seq<nat>, r: Repair)
    requires Ready(c, data, parity, blocksize, orig, known, mp, l) && l != [] && r == NextRepair(c, mp, l)
    ensures Usable(c, mp, l, r)
    ensures parity[r.p][..] == ParityOf(c.parityBms[r.p], orig[..c.k], blocksize)
    ensures parity[r.q][..] == ParityOf(c.parityBms[r.q], orig[..c.k], blocksize)
    ensures forall i :: 0 <= i < c.k && i != l[r.pos] && Bit(r.bm, i) ==> data[i][..] == orig[..c.k][i]
    ensures FewLosses(c, mp, Without(l, r.pos)) && Needs(c, mp, Without(l, r.pos)) <= known + {l[r.pos]}
  {
    hide Bit, NextRepair, ParityOf;
    NextRepairUsable(c, mp, l);
    WithoutList(c, l, r.pos);
    assert Sources(c, r, l[r.pos]) <= Needs(c, mp, l);
    assert c.k + r.p in Parities(c, r) && c.k + r.q in Parities(c, r);
    forall i | 0 <= i < c.k && i != l[r.pos] && Bit(r.bm, i) ensures data[i][..] == orig[..c.k][i] {
      assert i in Sources(c, r, l[r.pos]);
    }
  }

  /** Carries out the next repair from the source that holds its parities' sum. */
  method RecoverNext(c: XorCode, data: seq<array<bv8>>, parity: seq<array<bv8>>, src: array<bv8>, bm: bv32, dataIndex: nat, blocksize: nat,
      ghost orig: seq<seq<bv8>>, ghost known: set<nat>, ghost mp: seq<nat>, ghost l: seq<nat>, ghost r: Repair)
    requires Ready(c, data, parity, blocksize, orig, known, mp, l) && l != []
    requires r == NextRepair(c, mp, l) && Usable(c, mp, l, r) && bm == r.bm && dataIndex == l[r.pos]
    requires src !in data && src.Length == blocksize && src[..] == ParityOf(bm, orig[..c.k], blocksize)
    modifies data[dataIndex]
    ensures data[dataIndex][..] == orig[dataIndex]
    ensures Contents(data) == old(Contents(data))[dataIndex := orig[dataIndex]] && Contents(parity) == old(Contents(parity))
    ensures Ready(c, data, parity, blocksize, orig, known + {dataIndex}, mp, Without(l, r.pos))
  {
    hide Bit, ParityOf, NextRepair, Needs, ValidCode;
    ReadyStep(c, data, parity, blocksize, orig, known, mp, l, r);
    assert Sized(c) by { SizedOf(c); }
    RecoverFrom(c, data, parity, src, bm, dataIndex, blocksize, orig[..c.k]);
    assert Holds(c, Contents(data), Contents(parity), orig, known + {dataIndex});
  }

  ghost function Members(l: seq<nat>): (s: set<nat>)
    ensures forall x :: x in s <==> x in l
  {
    set x | x in l
  }

  lemma MembersSplit(c: XorCode, l: seq<nat>, pos: nat, known: set<nat>)
    requires DataList(c, l) && pos < |l|
    ensures known + Members(l) == known + {l[pos]} + Members(Without(l, pos))
  {
    WithoutList(c, l, pos);
  }

  /** There is one missing data fragment: any present parity that holds it will do. */
  method DecodeOneData(c: XorCode, data: seq<array<bv8>>, parity: seq<array<bv8>>, missingData: array<int>, missingParity: array?<int>,
      blocksize: nat, ghost orig: seq<seq<bv8>>, ghost known: set<nat>, ghost mp: seq<nat>, ghost l: seq<nat>)
    requires Ready(c, data, parity, blocksize, orig, known, mp, l) && |l| == 1
    requires IsList(missingData, l) && IsListOrNull(missingParity, mp)
    modifies data[l[0]]
    ensures Holds(c, Contents(data), Contents(parity), orig, known + Members(l))
  {
    hide Bit, ParityOf, FirstConnected, FirstRepairable, Needs, Holds, Contents, Members;
    var dataIndex := missingData[0];
    var parityIndex := IndexOfConnectedParity(c, dataIndex, missingParity, missingData, mp, l);
    ghost var r := NextRepair(c, mp, l);
    ReadyStep(c, data, parity, blocksize, orig, known, mp, l, r);
    RecoverNext(c, data, parity, parity[parityIndex - c.k], c.parityBms[parityIndex - c.k], dataIndex, blocksize, orig, known, mp, l, r);
    assert Members(l) == {dataIndex};
  }

  /** The first of two missing data fragments that has a connected parity, taken off the list; a negative
      parity index if neither has one. */
  method TakeConnected(c: XorCode, missingData: array<int>, missingParity: array?<int>, ghost mp: seq<nat>, ghost l: seq<nat>)
    returns (dataIndex: int, parityIndex: int)
    requires Sized(c) && DataList(c, l) && |l| == 2
    requires IsList(missingData, l) && IsListOrNull(missingParity, mp) && missingData != missingParity
    modifies missingData
    ensures NextRepair(c, mp, l).Stuck? ==> parityIndex < 0
    ensures NextRepair(c, mp, l).Repair? ==>
      var r := NextRepair(c, mp, l);
      r.p == r.q && r.bm == c.parityBms[r.p] && parityIndex == c.k + r.p && dataIndex == l[r.pos] && IsList(missingData, Without(l, r.pos))
  {
    hide Bit, FirstConnected, Seen;
    dataIndex := missingData[0];
    parityIndex := IndexOfConnectedParity(c, dataIndex, missingParity, missingData, mp, l);
    if parityIndex < 0 {
      dataIndex := missingData[1];
      parityIndex := IndexOfConnectedParity(c, dataIndex, missingParity, missingData, mp, l);
      if parityIndex < 0 {
        return;
      }
      missingData[1] := -1;
    } else {
      missingData[0] := missingData[1];
      missingData[1] := -1;
    }
  }

  method DecodeTwoData(c: XorCode, data: seq<array<bv8>>, parity: seq<array<bv8>>, missingData: array<int>, missingParity: array?<int>,
      blocksize: nat, ghost orig: seq<seq<bv8>>, ghost known: set<nat>, ghost mp: seq<nat>, ghost l: seq<nat>) returns (ret: int)
    requires Ready(c, data, parity, blocksize, orig, known, mp, l) && |l| == 2
    requires IsList(missingData, l) && IsListOrNull(missingParity, mp) && missingData != missingParity
    requires Apart(missingData, data) && Apart(missingData, parity) && Apart(missingParity, data)
    modifies missingData, Targets(data, l, 0)
    ensures ret == 0
    ensures Holds(c, Contents(data), Contents(parity), orig, known + Members(l))
  {
    hide Bit, ParityOf, NextRepair, Needs;
    ghost var r := NextRepair(c, mp, l);
    ReadyStep(c, data, parity, blocksize, orig, known, mp, l, r);
    var dataIndex, parityIndex := TakeConnected(c, missingData, missingParity, mp, l);
    if parityIndex < 0 {
      return -2;
    }
    RecoverNext(c, data, parity, parity[parityIndex - c.k], c.parityBms[parityIndex - c.k], dataIndex, blocksize, orig, known, mp, l, r);
    DecodeOneData(c, data, parity, missingData, missingParity, blocksize, orig, known + {dataIndex}, mp, Without(l, r.pos));
    MembersSplit(c, l, r.pos, known);
    ret := 0;
  }

  /** The first listed fragment that has a connected parity. */
  method FindConnected(c: XorCode, missingData: array<int>, missingParity: array?<int>, ghost mp: seq<nat>, ghost l: seq<nat>)
    returns (dataIndex: int, parityIndex: int)
    requires Sized(c) && DataList(c, l) && IsList(missingData, l) && IsListOrNull(missingParity, mp)
    ensures var pos := FirstRepairable(c, mp, l, 0);
      if pos < |l| then dataIndex == l[pos] && parityIndex == c.k + FirstConnected(c, l[pos], mp, l, 0) else parityIndex < 0
  {
    hide Bit, FirstConnected;
    var i := 0;
    dataIndex, parityIndex := -1, -1;
    while missingData[i] > -1
      invariant 0 <= i <= |l| && parityIndex < 0
      invariant FirstRepairable(c, mp, l, 0) == FirstRepairable(c, mp, l, i)
      decreases |l| - i
    {
      parityIndex := IndexOfConnectedParity(c, missingData[i], missingParity, missingData, mp, l);
      if parityIndex > -1 {
        dataIndex := missingData[i];
        break;
      }
      i := i + 1;
    }
  }

  /** The first parity that sees two, and the first that sees three, of the missing fragments; -1 for none. */
  method FindTwoAndThree(c: XorCode, missingData: array<int>, ghost l: seq<nat>) returns (contains2d: int, contains3d: int)
    requires Sized(c) && DataList(c, l) && IsList(missingData, l)
    ensures contains2d == FirstSeeing(c, l, 2, 0, c.m) && contains3d == FirstSeeing(c, l, 3, 0, c.m)
  {
    hide Bit, Seen;
    contains2d, contains3d := -1, -1;
    for i := 0 to c.m
      invariant contains2d == FirstSeeing(c, l, 2, 0, i) && contains3d == FirstSeeing(c, l, 3, 0, i)
    {
      var numMissing := NumMissingDataInParity(c, c.k + i, missingData, l);
      FirstSeeingGrows(c, l, 2, 0, i);
      FirstSeeingGrows(c, l, 3, 0, i);
      if numMissing == 2 && contains2d < 0 {
        contains2d := i;
      } else if numMissing == 3 && contains3d < 0 {
        contains3d := i;
      }
    }
  }

  lemma {:induction false} FirstSeeingGrows(c: XorCode, l: seq<nat>, w: nat, j: nat, n: nat)
    requires Sized(c) && DataList(c, l) && j <= n < c.m
    ensures FirstSeeing(c, l, w, j, n + 1) ==
      if FirstSeeing(c, l, w, j, n) >= 0 then FirstSeeing(c, l, w, j, n) else if Seen(c, l, n) == w then n else -1
    decreases n - j
  {
    hide Seen, Bit;
    if j < n { FirstSeeingGrows(c, l, w, j + 1, n); }
  }

  /** The first listed fragment that the bitmap names, or -1. */
  method FindNamed(bm: bv32, missingData: array<int>, ghost l: seq<nat>) returns (dataIndex: int)
    requires IsList(missingData, l)
    ensures dataIndex == if FirstNamed(bm, l, 0) < |l| then l[FirstNamed(bm, l, 0)] else -1
  {
    hide Bit;
    var i := 0;
    dataIndex := -1;
    while missingData[i] > -1
      invariant 0 <= i <= |l| && dataIndex == -1
      invariant FirstNamed(bm, l, 0) == FirstNamed(bm, l, i)
      decreases |l| - i
    {
      if IsDataInParity(missingData[i], bm) {
        dataIndex := missingData[i];
        break;
      }
      i := i + 1;
    }
  }

  /** A new buffer with the sum of two parities. */
  method SumOfParities(c: XorCode, data: seq<array<bv8>>, parity: seq<array<bv8>>, p: nat, q: nat, blocksize: nat, ghost o: seq<seq<bv8>>)
    returns (buffer: array<bv8>)
    requires Sized(c) && Stripe(data, parity, c.k, c.m, blocksize) && p < c.m && q < c.m
    requires |o| == c.k && forall i :: 0 <= i < c.k ==> |o[i]| == blocksize
    requires parity[p][..] == ParityOf(c.parityBms[p], o, blocksize) && parity[q][..] == ParityOf(c.parityBms[q], o, blocksize)
    ensures fresh(buffer) && buffer.Length == blocksize
    ensures buffer[..] == ParityOf(Xor32(c.parityBms[p], c.parityBms[q]), o, blocksize)
  {
    hide ParityOf, Xor32, XorByte;
    buffer := new bv8[blocksize];
    forall x | 0 <= x < blocksize { buffer[x] := parity[p][x]; }
    XorBufsAndStore(parity[q], buffer, blocksize);
    ParitySum(c.parityBms[p], c.parityBms[q], o, blocksize, buffer[..]);
  }

  /** What to repair first of three missing data fragments, and the source and the bitmap to do it with:
      a connected parity, or else the sum of one that sees two and one that sees three. */
  method ChooseOfThree(c: XorCode, data: seq<array<bv8>>, parity: seq<array<bv8>>, missingData: array<int>, missingParity: array?<int>,
      blocksize: nat, ghost orig: seq<seq<bv8>>, ghost known: set<nat>, ghost mp: seq<nat>, ghost l: seq<nat>, ghost r: Repair)
    returns (ret: int, dataIndex: int, parityBuffer: array<bv8>, parityBm: bv32)
    requires Ready(c, data, parity, blocksize, orig, known, mp, l) && |l| == 3 && r == NextRepair(c, mp, l)
    requires IsList(missingData, l) && IsListOrNull(missingParity, mp)
    ensures ret == 0 && r.Repair? && r.pos < |l| && dataIndex == l[r.pos] && parityBm == r.bm
    ensures parityBuffer !in data && parityBuffer.Length == blocksize && parityBuffer[..] == ParityOf(r.bm, orig[..c.k], blocksize)
  {
    hide Bit, ParityOf, Needs, FirstRepairable, FirstConnected, FirstSeeing, FirstNamed;
    ReadyStep(c, data, parity, blocksize, orig, known, mp, l, r);
    var parityIndex: int;
    parityBuffer, parityBm, ret := parity[0], 0xffffffff, 0;
    dataIndex, parityIndex := FindConnected(c, missingData, missingParity, mp, l);
    if parityIndex < 0 {
      var contains2d, contains3d := FindTwoAndThree(c, missingData, l);
      if contains2d < 0 || contains3d < 0 {
        ret := -2;
        return;
      }
      parityBm := Xor32(c.parityBms[contains2d], c.parityBms[contains3d]);
      parityBuffer := SumOfParities(c, data, parity, contains2d, contains3d, blocksize, orig[..c.k]);
      dataIndex := FindNamed(parityBm, missingData, l);
      if dataIndex < 0 {
        ret := -2;
        return;
      }
    } else {
      parityBuffer := parity[parityIndex - c.k];
      parityBm := c.parityBms[parityIndex - c.k];
    }
  }

  method DecodeThreeData(c: XorCode, data: seq<array<bv8>>, parity: seq<array<bv8>>, missingData: array<int>, missingParity: array?<int>,
      blocksize: nat, ghost orig: seq<seq<bv8>>, ghost known: set<nat>, ghost mp: seq<nat>, ghost l: seq<nat>) returns (ret: int)
    requires Ready(c, data, parity, blocksize, orig, known, mp, l) && |l| == 3
    requires IsList(missingData, l) && IsListOrNull(missingParity, mp) && missingData != missingParity
    requires Apart(missingData, data) && Apart(missingData, parity) && Apart(missingParity, data)
    modifies missingData, Targets(data, l, 0)
    ensures ret == 0
    ensures Holds(c, Contents(data), Contents(parity), orig, known + Members(l))
  {
    hide Bit, ParityOf, Needs, NextRepair;
    ghost var r := NextRepair(c, mp, l);
    var dataIndex: int, parityBuffer: array<bv8>, parityBm: bv32;
    ret, dataIndex, parityBuffer, parityBm := ChooseOfThree(c, data, parity, missingData, missingParity, blocksize, orig, known, mp, l, r);
    if ret < 0 {
      return;
    }
    ReadyStep(c, data, parity, blocksize, orig, known, mp, l, r);
    RecoverNext(c, data, parity, parityBuffer, parityBm, dataIndex, blocksize, orig, known, mp, l, r);
    RemoveFromMissingList(dataIndex, missingData, l, r.pos);
    ret := DecodeTwoData(c, data, parity, missingData, missingParity, blocksize, orig, known + {dataIndex}, mp, Without(l, r.pos));
    MembersSplit(c, l, r.pos, known);
  }

  // ----- the whole decoder

  /** The missing data, or the missing parities, of a list of missing fragments. */
  ghost function LostData(c: XorCode, missingIdxs: seq<int>): (l: seq<nat>)
    requires MissingList(missingIdxs, c.k + c.m)
    ensures DataList(c, l)
  {
    PartDistinct(Items(missingIdxs), c.k, true);
    Part(Items(missingIdxs), c.k, true)
  }

  ghost function LostParity(c: XorCode, missingIdxs: seq<int>): (l: seq<nat>)
    requires MissingList(missingIdxs, c.k + c.m)
    ensures ParityList(c, l)
  {
    PartDistinct(Items(missingIdxs), c.k, false);
    Part(Items(missingIdxs), c.k, false)
  }

  ghost function LostDataBuffers(c: XorCode, data: seq<array<bv8>>, missingIdxs: seq<int>): (s: seq<array<bv8>>)
    requires |data| == c.k && MissingList(missingIdxs, c.k + c.m)
    ensures s == Targets(data, LostData(c, missingIdxs), 0)
  {
    Targets(data, LostData(c, missingIdxs), 0)
  }

  ghost function LostParityBuffers(c: XorCode, parity: seq<array<bv8>>, missingIdxs: seq<int>): (s: seq<array<bv8>>)
    requires |parity| == c.m && MissingList(missingIdxs, c.k + c.m)
    ensures s == Targets(parity, LostParity(c, missingIdxs), c.k)
  {
    Targets(parity, LostParity(c, missingIdxs), c.k)
  }

  /** The data that the listed parities are computed from. */
  ghost function Inputs(c: XorCode, mp: seq<nat>): (s: set<nat>)
    requires Sized(c) && ParityList(c, mp)
    ensures forall i :: i in s ==> i < c.k
  {
    if mp == [] then {} else Inputs(c, mp[..|mp| - 1]) + BitsBelow(c.parityBms[mp[|mp| - 1] - c.k], c.k)
  }

  lemma {:induction false} InputsHas(c: XorCode, mp: seq<nat>, x: nat, i: nat)
    requires Sized(c) && ParityList(c, mp) && x < |mp| && i < c.k && Bit(c.parityBms[mp[x] - c.k], i)
    ensures i in Inputs(c, mp)
  {
    hide Bit;
    if x < |mp| - 1 { InputsHas(c, mp[..|mp| - 1], x, i); }
  }

  /** The fragments that undoing the losses reads. */
  ghost function Needed(c: XorCode, missingIdxs: seq<int>, decodeParity: bool): set<nat>
    requires Sized(c) && MissingList(missingIdxs, c.k + c.m)
  {
    var l, mp := LostData(c, missingIdxs), LostParity(c, missingIdxs);
    Needs(c, mp, l) + (if decodeParity then Inputs(c, mp) - Members(l) else {})
  }

  /** Adds the stored data into the missing parities; of the data, only what they are computed from is read. */
  method EncodeMissing(c: XorCode, data: seq<array<bv8>>, parity: seq<array<bv8>>, missingParity: array<int>, blocksize: nat,
      ghost orig: seq<seq<bv8>>, ghost known: set<nat>, ghost mp: seq<nat>)
    requires Sized(c) && Stripe(data, parity, c.k, c.m, blocksize) && IsXorCodeword(c, blocksize, orig)
    requires ParityList(c, mp) && IsList(missingParity, mp) && Apart(missingParity, parity)
    requires Holds(c, Contents(data), Contents(parity), orig, known) && Inputs(c, mp) <= known
    modifies Targets(parity, mp, c.k)
    ensures ParityAdded(c, Contents(Targets(parity, mp, c.k)), old(Contents(Targets(parity, mp, c.k))), orig, mp, blocksize)
    ensures Contents(data) == old(Contents(data))
  {
    hide Added, Bit, Targets, Inputs, ParityOf, AddedTo;
    ghost var to, d := Targets(parity, mp, c.k), Contents(data);
    ghost var before := Contents(to);
    SelectiveEncode(c, data, parity, missingParity[..], blocksize, mp);
    AddedStored(c, Contents(to), before, d, orig, known, mp, blocksize);
  }

  /** Adding the held data is adding the stored data, as far as the parities read it. */
  lemma AddedStored(c: XorCode, after: seq<seq<bv8>>, before: seq<seq<bv8>>, d: seq<seq<bv8>>, orig: seq<seq<bv8>>,
      known: set<nat>, mp: seq<nat>, blocksize: nat)
    requires AddedTo(c, after, before, d, mp, blocksize) && IsXorCodeword(c, blocksize, orig)
    requires (forall i: nat :: i < c.k && i in known ==> d[i] == orig[i]) && Inputs(c, mp) <= known
    ensures ParityAdded(c, after, before, orig, mp, blocksize)
  {
    hide Added, Bit, Inputs, ParityOf;
    forall x | 0 <= x < |mp|
      ensures Added(before[x], c.parityBms[mp[x] - c.k], d, c.k) == Added(before[x], c.parityBms[mp[x] - c.k], orig[..c.k], c.k)
    {
      forall i | 0 <= i < c.k && Bit(c.parityBms[mp[x] - c.k], i) ensures d[i] == orig[..c.k][i] {
        InputsHas(c, mp, x, i);
      }
      AddedAgrees(before[x], c.parityBms[mp[x] - c.k], d, orig[..c.k], c.k);
    }
  }

  /** What a lost parity buffer holds afterwards: its parity, added to what was in it before. */
  ghost predicate ParityAdded(c: XorCode, after: seq<seq<bv8>>, before: seq<seq<bv8>>, orig: seq<seq<bv8>>, mp: seq<nat>, blocksize: nat) {
    Sized(c) && IsXorCodeword(c, blocksize, orig) && AddedTo(c, after, before, orig[..c.k], mp, blocksize)
  }

  /** The listed buffers have their stored contents. */
  ghost predicate DataRestored(d: seq<seq<bv8>>, orig: seq<seq<bv8>>, l: seq<nat>)
  {
    forall i :: 0 <= i < |l| ==> l[i] < |d| && l[i] < |orig| && d[l[i]] == orig[l[i]]
  }

  lemma ReadyParts(c: XorCode, data: seq<array<bv8>>, parity: seq<array<bv8>>, blocksize: nat,
      orig: seq<seq<bv8>>, known: set<nat>, mp: seq<nat>, l: seq<nat>)
    requires Ready(c, data, parity, blocksize, orig, known, mp, l)
    ensures Sized(c) && Stripe(data, parity, c.k, c.m, blocksize) && IsXorCodeword(c, blocksize, orig) && FewLosses(c, mp, l)
    ensures |data| == c.k && |parity| == c.m && |orig| == c.k + c.m && forall i :: 0 <= i < c.k + c.m ==> |orig[i]| == blocksize
    ensures AllSized(parity, blocksize)
  {
  }

  /** The list of the missing parities, apart from every buffer. */
  method ListMissingParity(c: XorCode, data: seq<array<bv8>>, parity: seq<array<bv8>>, missingIdxs: seq<int>) returns (missingParity: array<int>)
    requires Sized(c) && MissingList(missingIdxs, c.k + c.m)
    ensures fresh(missingParity) && Apart(missingParity, data) && Apart(missingParity, parity)
    ensures IsList(missingParity, LostParity(c, missingIdxs)) && IsListOrNull(missingParity, LostParity(c, missingIdxs))
  {
    hide Part;
    missingParity := GetMissingParity(c, missingIdxs);
  }

  /** The list of the missing data, an array of its own. */
  method ListMissingData(c: XorCode, data: seq<array<bv8>>, parity: seq<array<bv8>>, missingIdxs: seq<int>) returns (missingData: array<int>)
    requires Sized(c) && MissingList(missingIdxs, c.k + c.m)
    ensures fresh(missingData) && Apart(missingData, data) && Apart(missingData, parity)
    ensures IsList(missingData, LostData(c, missingIdxs))
  {
    hide Part;
    missingData := GetMissingData(c, missingIdxs);
  }

  lemma ListsOf(c: XorCode, mp: seq<nat>, l: seq<nat>)
    requires FewLosses(c, mp, l)
    ensures Distinct(l) && (forall i :: 0 <= i < |l| ==> l[i] < c.k) && forall i :: 0 <= i < |mp| ==> c.k <= mp[i] < c.k + c.m
  {
  }

  lemma HeldIsRestored(c: XorCode, d: seq<seq<bv8>>, p: seq<seq<bv8>>, orig: seq<seq<bv8>>, known: set<nat>, l: seq<nat>)
    requires Holds(c, d, p, orig, known + Members(l)) && forall i :: 0 <= i < |l| ==> l[i] < c.k
    ensures DataRestored(d, orig, l)
  {
  }

  /** Repairs the missing data of a pattern, by the number of fragments missing. */
  method DecodeData(c: XorCode, data: seq<array<bv8>>, parity: seq<array<bv8>>, missingIdxs: seq<int>, missingParity: array?<int>, n: nat,
      blocksize: nat, ghost orig: seq<seq<bv8>>, ghost known: set<nat>) returns (ret: int)
    requires MissingList(missingIdxs, c.k + c.m)
    requires Ready(c, data, parity, blocksize, orig, known, LostParity(c, missingIdxs), LostData(c, missingIdxs))
    requires n == |LostData(c, missingIdxs)| && 1 <= n <= 3
    requires IsListOrNull(missingParity, LostParity(c, missingIdxs)) && Apart(missingParity, data)
    modifies LostDataBuffers(c, data, missingIdxs)
    ensures ret == 0
    ensures DataRestored(Contents(data), orig, LostData(c, missingIdxs))
    ensures Holds(c, Contents(data), Contents(parity), orig, known + Members(LostData(c, missingIdxs)))
    ensures IsListOrNull(missingParity, LostParity(c, missingIdxs))
    ensures Contents(parity) == old(Contents(parity)) && Contents(LostParityBuffers(c, parity, missingIdxs)) == old(Contents(LostParityBuffers(c, parity, missingIdxs)))
  {
    hide Ready, Needs, Holds, DataRestored, Members, IsXorCodeword, MissingList, Sized, FewLosses, ValidCode, IsList, LostData, LostParity, Contents,
      AllSized, Part, Items, DataList, ParityList;
    ghost var l, mp := LostData(c, missingIdxs), LostParity(c, missingIdxs);
    ReadyParts(c, data, parity, blocksize, orig, known, mp, l);
    ListsOf(c, mp, l);
    var missingData := ListMissingData(c, data, parity, missingIdxs);
    ret := 0;
    if n == 1 {
      DecodeOneData(c, data, parity, missingData, missingParity, blocksize, orig, known, mp, l);
    } else if n == 2 {
      ret := DecodeTwoData(c, data, parity, missingData, missingParity, blocksize, orig, known, mp, l);
    } else {
      ret := DecodeThreeData(c, data, parity, missingData, missingParity, blocksize, orig, known, mp, l);
    }
    HeldIsRestored(c, Contents(data), Contents(parity), orig, known, l);
  }

  lemma FewLost(c: XorCode, missingIdxs: seq<int>)
    requires ValidCode(c) && MissingList(missingIdxs, c.k + c.m)
    ensures |LostData(c, missingIdxs)| + |LostParity(c, missingIdxs)| == |Items(missingIdxs)|
    ensures |Items(missingIdxs)| < c.hd ==> FewLosses(c, LostParity(c, missingIdxs), LostData(c, missingIdxs))
  {
    hide Part;
    PartLengths(Items(missingIdxs), c.k);
  }

  /** Decodes in place. Below hd losses every lost data buffer gets its contents back, and with decodeParity
      every lost parity buffer gets its parity added; from hd losses on nothing changes and the result is -1.
      Only buffers of lost fragments are written, and only fragments in Needed are read. */
  method XorHdDecode(c: XorCode, data: seq<array<bv8>>, parity: seq<array<bv8>>, missingIdxs: seq<int>, blocksize: nat, decodeParity: bool,
      ghost orig: seq<seq<bv8>>, ghost known: set<nat>) returns (ret: int)
    requires ValidCode(c) && Stripe(data, parity, c.k, c.m, blocksize) && IsXorCodeword(c, blocksize, orig)
    requires MissingList(missingIdxs, c.k + c.m) && Holds(c, Contents(data), Contents(parity), orig, known)
    requires |Items(missingIdxs)| < c.hd ==> Needed(c, missingIdxs, decodeParity) <= known
    modifies LostDataBuffers(c, data, missingIdxs), LostParityBuffers(c, parity, missingIdxs)
    ensures ret == if |Items(missingIdxs)| < c.hd then 0 else -1
    ensures ret == 0 ==> DataRestored(Contents(data), orig, LostData(c, missingIdxs))
    ensures ret == 0 && decodeParity ==>
      ParityAdded(c, Contents(LostParityBuffers(c, parity, missingIdxs)), old(Contents(LostParityBuffers(c, parity, missingIdxs))), orig, LostParity(c, missingIdxs), blocksize)
    ensures ret != 0 ==> Contents(data) == old(Contents(data))
    ensures ret != 0 || !decodeParity ==> Contents(parity) == old(Contents(parity))
  {
    hide Bit, Part, Needs, Inputs, Column, Transposed, ParityOf, Targets, Added, DataRestored, ParityAdded, PatternOf;
    ghost var l, mp := LostData(c, missingIdxs), LostParity(c, missingIdxs);
    ghost var to := LostParityBuffers(c, parity, missingIdxs);
    ghost var before := Contents(to);
    var pattern := GetFailurePattern(c, missingIdxs);
    FewLost(c, missingIdxs);
    PatternMeans(|l|, |mp|);
    NothingLost(c, data, orig, mp, l, to, before, blocksize);
    ret := 0;
    match pattern {
      case D0P0 =>
      case D1P0 =>
        ret := DecodeData(c, data, parity, missingIdxs, null, 1, blocksize, orig, known);
      case D2P0 =>
        ret := DecodeData(c, data, parity, missingIdxs, null, 2, blocksize, orig, known);
      case D3P0 =>
        ret := DecodeData(c, data, parity, missingIdxs, null, 3, blocksize, orig, known);
      case D1P1 =>
        ret := DecodeBoth(c, data, parity, missingIdxs, 1, blocksize, decodeParity, orig, known, l, mp, to, before);
      case D1P2 =>
        ret := DecodeBoth(c, data, parity, missingIdxs, 1, blocksize, decodeParity, orig, known, l, mp, to, before);
      case D2P1 =>
        ret := DecodeBoth(c, data, parity, missingIdxs, 2, blocksize, decodeParity, orig, known, l, mp, to, before);
      case D0P1 =>
        DecodeParityOnly(c, data, parity, missingIdxs, blocksize, decodeParity, orig, known, mp, to, before);
      case D0P2 =>
        DecodeParityOnly(c, data, parity, missingIdxs, blocksize, decodeParity, orig, known, mp, to, before);
      case D0P3 =>
        DecodeParityOnly(c, data, parity, missingIdxs, blocksize, decodeParity, orig, known, mp, to, before);
      case GeHd =>
        ret := -1;
    }
    NothingLost(c, data, orig, mp, l, to, before, blocksize);
  }

  lemma PatternMeans(d: nat, p: nat)
    ensures match PatternOf(d, p)
      case D0P0 => d == 0 && p == 0
      case D1P0 => d == 1 && p == 0
      case D2P0 => d == 2 && p == 0
      case D3P0 => d == 3 && p == 0
      case D1P1 => d == 1 && p == 1
      case D1P2 => d == 1 && p == 2
      case D2P1 => d == 2 && p == 1
      case D0P1 => d == 0 && p == 1
      case D0P2 => d == 0 && p == 2
      case D0P3 => d == 0 && p == 3
      case GeHd => d + p >= 3
    ensures d + p == 3 ==> PatternOf(d, p) != GeHd
  {
  }

  lemma NothingLost(c: XorCode, data: seq<array<bv8>>, orig: seq<seq<bv8>>, mp: seq<nat>, l: seq<nat>,
      to: seq<array<bv8>>, before: seq<seq<bv8>>, blocksize: nat)
    requires Sized(c) && |data| == c.k && DataList(c, l) && ParityList(c, mp) && IsXorCodeword(c, blocksize, orig)
    requires |to| == |before| == |mp| && forall x :: 0 <= x < |mp| ==> |before[x]| == blocksize
    ensures l == [] ==> DataRestored(Contents(data), orig, l) && Needs(c, mp, l) == {}
    ensures mp == [] ==> ParityAdded(c, Contents(to), before, orig, mp, blocksize)
  {
  }

  lemma IsTheList(a: array<int>, l: seq<nat>)
    requires IsListOrNull(a, l)
    ensures IsList(a, l)
  {
  }

  /** Data and parities are missing: first the data, then the parities from the data. */
  method DecodeBoth(c: XorCode, data: seq<array<bv8>>, parity: seq<array<bv8>>, missingIdxs: seq<int>, n: nat, blocksize: nat, decodeParity: bool,
      ghost orig: seq<seq<bv8>>, ghost known: set<nat>, ghost l: seq<nat>, ghost mp: seq<nat>, ghost to: seq<array<bv8>>, ghost before: seq<seq<bv8>>)
      returns (ret: int)
    requires MissingList(missingIdxs, c.k + c.m) && l == LostData(c, missingIdxs) && mp == LostParity(c, missingIdxs)
    requires Ready(c, data, parity, blocksize, orig, known, mp, l)
    requires to == Targets(parity, mp, c.k) && before == Contents(to)
    requires (decodeParity ==> Inputs(c, mp) - Members(l) <= known) && n == |l| && 1 <= n <= 3
    modifies LostDataBuffers(c, data, missingIdxs), to
    ensures ret == 0 && DataRestored(Contents(data), orig, l)
    ensures decodeParity ==> ParityAdded(c, Contents(to), before, orig, mp, blocksize)
    ensures !decodeParity ==> Contents(parity) == old(Contents(parity))
  {
    hide *;
    ReadyParts(c, data, parity, blocksize, orig, known, mp, l);
    var missingParity := ListMissingParity(c, data, parity, missingIdxs);
    ret := DecodeData(c, data, parity, missingIdxs, missingParity, n, blocksize, orig, known);
    if decodeParity {
      IsTheList(missingParity, mp);
      EncodeMissing(c, data, parity, missingParity, blocksize, orig, known + Members(l), mp);
    }
  }

  method DecodeParityOnly(c: XorCode, data: seq<array<bv8>>, parity: seq<array<bv8>>, missingIdxs: seq<int>, blocksize: nat, decodeParity: bool,
      ghost orig: seq<seq<bv8>>, ghost known: set<nat>, ghost mp: seq<nat>, ghost to: seq<array<bv8>>, ghost before: seq<seq<bv8>>)
    requires Sized(c) && Stripe(data, parity, c.k, c.m, blocksize) && IsXorCodeword(c, blocksize, orig)
    requires MissingList(missingIdxs, c.k + c.m) && mp == LostParity(c, missingIdxs)
    requires to == Targets(parity, mp, c.k) && before == Contents(to)
    requires Holds(c, Contents(data), Contents(parity), orig, known) && (decodeParity ==> Inputs(c, mp) <= known)
    modifies to
    ensures decodeParity ==> ParityAdded(c, Contents(to), before, orig, mp, blocksize)
    ensures !decodeParity ==> Contents(parity) == old(Contents(parity))
  {
    hide *;
    if decodeParity {
      var missingParity := ListMissingParity(c, data, parity, missingIdxs);
      EncodeMissing(c, data, parity, missingParity, blocksize, orig, known, mp);
    }
  }

  /** Below hd losses nothing lost is needed, so that the other fragments suffice. */
  lemma NeededPresent(c: XorCode, missingIdxs: seq<int>, decodeParity: bool)
    requires ValidCode(c) && MissingList(missingIdxs, c.k + c.m) && |Items(missingIdxs)| < c.hd
    ensures forall x :: x in Needed(c, missingIdxs, decodeParity) ==> x < c.k + c.m && x !in missingIdxs
  {
    hide Bit, Part, Needs, Inputs, Column, Transposed;
    var l, mp, all := LostData(c, missingIdxs), LostParity(c, missingIdxs), Items(missingIdxs);
    FewLost(c, missingIdxs);
    NeedsPresent(c, mp, l);
    forall x | x in Needed(c, missingIdxs, decodeParity) ensures x < c.k + c.m && x !in missingIdxs {
      PartMembers(all, c.k, true, x);
      PartMembers(all, c.k, false, x);
      ItemsMembers(missingIdxs, x);
    }
  }

  lemma ItemsMembers(missing: seq<int>, x: nat)
    requires |missing| > 0 && (forall i :: 0 <= i < |missing| - 1 ==> missing[i] >= 0) && missing[|missing| - 1] == -1
    ensures x in Items(missing) <==> x in missing
  {
    if x in missing {
      var i :| 0 <= i < |missing| && missing[i] == x;
      assert Items(missing)[i] == x;
    }
  }

  /** A rebuilt parity is right exactly where the buffer was zero on entry. */
  lemma ParityRestored(c: XorCode, after: seq<seq<bv8>>, before: seq<seq<bv8>>, orig: seq<seq<bv8>>, mp: seq<nat>, blocksize: nat, x: nat)
    requires ParityAdded(c, after, before, orig, mp, blocksize) && x < |mp|
    ensures after[x] == orig[mp[x]] <==> before[x] == ZeroBlock(blocksize)
  {
  }
}
