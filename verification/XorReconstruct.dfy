/** Rebuilding one fragment of a flat XOR code, whatever else is lost. */
module XorReconstruct {
  import opened Bytes
  import opened Bitmaps
  import opened Mds
  import opened Erasures
  import opened Regions
  import opened XorCode
  import opened XorLists
  import opened XorRepair
  import opened XorBuffers
  import opened XorHdCode

  /** The fragments that are not missing. */
  ghost function Present(missingIdxs: seq<int>, n: nat): (s: set<nat>)
    ensures forall i: nat :: i in s <==> i < n && i !in missingIdxs
  {
    set i: nat | i in UpTo(n) && i !in missingIdxs
  }

  /** A parity that sees the lost fragment and no other lost one can rebuild it. */
  lemma ConnectedInputs(c: XorCode, missingIdxs: seq<int>, d: nat, j: nat)
    requires Sized(c) && Transposed(c) && MissingList(missingIdxs, c.k + c.m) && d < c.k && d in missingIdxs && j < c.m
    requires Connects(c, d, LostParity(c, missingIdxs), LostData(c, missingIdxs), j)
    ensures c.k + j in Present(missingIdxs, c.k + c.m)
    ensures forall i :: 0 <= i < c.k && i != d && Bit(c.parityBms[j], i) ==> i in Present(missingIdxs, c.k + c.m)
  {
    hide Bit, Part, Seen, MissingList, Transposed;
    var l, mp := LostData(c, missingIdxs), LostParity(c, missingIdxs);
    LostMembers(c, missingIdxs, d);
    LostMembers(c, missingIdxs, c.k + j);
    var pos :| 0 <= pos < |l| && l[pos] == d;
    ConnectedNamesOne(c, mp, l, pos, j);
    forall i | 0 <= i < c.k && i != d && Bit(c.parityBms[j], i) ensures i in Present(missingIdxs, c.k + c.m) {
      LostMembers(c, missingIdxs, i);
      NotNamed(l, pos, c.parityBms[j], i);
    }
  }

  lemma LostMembers(c: XorCode, missingIdxs: seq<int>, x: nat)
    requires MissingList(missingIdxs, c.k + c.m)
    ensures x in LostData(c, missingIdxs) <==> x in missingIdxs && x < c.k
    ensures x in LostParity(c, missingIdxs) <==> x in missingIdxs && x >= c.k
  {
    hide Part;
    PartMembers(Items(missingIdxs), c.k, true, x);
    PartMembers(Items(missingIdxs), c.k, false, x);
    ItemsMembers(missingIdxs, x);
  }

  /** A parity that sees no lost fragment is computed from present ones only. */
  lemma UnseenInputs(c: XorCode, missingIdxs: seq<int>, j: nat)
    requires Sized(c) && Transposed(c) && MissingList(missingIdxs, c.k + c.m) && j < c.m
    requires Seen(c, LostData(c, missingIdxs), j) == 0
    ensures forall i :: 0 <= i < c.k && Bit(c.parityBms[j], i) ==> i in Present(missingIdxs, c.k + c.m)
  {
    hide Bit, Part, Seen;
    var l := LostData(c, missingIdxs);
    forall i | 0 <= i < c.k && Bit(c.parityBms[j], i) ensures i in Present(missingIdxs, c.k + c.m) {
      LostMembers(c, missingIdxs, i);
      if i in l {
        var a :| 0 <= a < |l| && l[a] == i;
        SeenOnce(c, l, j, a);
      }
    }
  }

  /** Clears a parity buffer and adds the data that its bitmap names. */
  method RecomputeParity(c: XorCode, data: seq<array<bv8>>, parity: seq<array<bv8>>, j: nat, blocksize: nat, ghost o: seq<seq<bv8>>)
    requires Sized(c) && Stripe(data, parity, c.k, c.m, blocksize) && j < c.m
    requires |o| == c.k && forall i :: 0 <= i < c.k ==> |o[i]| == blocksize
    requires forall i :: 0 <= i < c.k && Bit(c.parityBms[j], i) ==> data[i][..] == o[i]
    modifies parity[j]
    ensures parity[j][..] == ParityOf(c.parityBms[j], o, blocksize)
  {
    hide Bit, Added, ParityOf, XorByte;
    var bm := c.parityBms[j];
    ghost var zero := ZeroBlock(blocksize);
    forall x | 0 <= x < blocksize { parity[j][x] := 0; }
    assert parity[j][..] == zero;
    AddedNone(zero, bm, o);
    for i := 0 to c.k
      invariant parity[j][..] == Added(zero, bm, o, i)
      invariant forall i :: 0 <= i < c.k && Bit(bm, i) ==> data[i][..] == o[i]
    {
      AddedStep(zero, bm, o, i);
      if IsDataInParity(i, bm) {
        XorBufsAndStore(data[i], parity[j], blocksize);
      }
    }
    AddedIsParity(zero, bm, o);
  }

  /** The lost fragment can be rebuilt without the general decoder. */
  ghost predicate Cheap(c: XorCode, missingIdxs: seq<int>, index: nat)
    requires Sized(c) && MissingList(missingIdxs, c.k + c.m) && index < c.k + c.m
  {
    var l, mp := LostData(c, missingIdxs), LostParity(c, missingIdxs);
    if index < c.k then FirstConnected(c, index, mp, l, 0) >= 0 else Seen(c, l, index - c.k) == 0
  }

  /** The general decoder, run for one of the lost fragments. */
  method DecodeFor(c: XorCode, data: seq<array<bv8>>, parity: seq<array<bv8>>, missingIdxs: seq<int>, index: nat, blocksize: nat,
      ghost orig: seq<seq<bv8>>) returns (ret: int)
    requires ValidCode(c) && Stripe(data, parity, c.k, c.m, blocksize) && IsXorCodeword(c, blocksize, orig)
    requires MissingList(missingIdxs, c.k + c.m) && index < c.k + c.m && index in missingIdxs
    requires Holds(c, Contents(data), Contents(parity), orig, Present(missingIdxs, c.k + c.m))
    modifies LostDataBuffers(c, data, missingIdxs), LostParityBuffers(c, parity, missingIdxs)
    ensures ret == if |Items(missingIdxs)| < c.hd then 0 else -1
    ensures ret == 0 && index < c.k ==> data[index][..] == orig[index]
    ensures ret == 0 && index >= c.k ==> (parity[index - c.k][..] == orig[index] <==> old(parity[index - c.k][..]) == ZeroBlock(blocksize))
    ensures ret != 0 ==> Contents(data) == old(Contents(data)) && Contents(parity) == old(Contents(parity))
  {
    hide *;
    ghost var l, mp, known := LostData(c, missingIdxs), LostParity(c, missingIdxs), Present(missingIdxs, c.k + c.m);
    SizedOf(c);
    MissingListParts(missingIdxs, c.k + c.m);
    StripeSizes(data, parity, c.k, c.m, blocksize);
    HeldSizes(c, Contents(data), Contents(parity), orig, known);
    ghost var to := LostParityBuffers(c, parity, missingIdxs);
    ghost var before := Contents(to);
    LostMembers(c, missingIdxs, index);
    if |Items(missingIdxs)| < c.hd { NeededPresent(c, missingIdxs, true); }
    ret := XorHdDecode(c, data, parity, missingIdxs, blocksize, true, orig, known);
    if ret == 0 {
      if index < c.k {
        RestoredAt(Contents(data), orig, l, index);
      } else {
        ghost var pos :| 0 <= pos < |mp| && mp[pos] == index;
        assert to[pos] == parity[index - c.k];
        ParityRestored(c, Contents(to), before, orig, mp, blocksize, pos);
      }
    }
  }

  lemma HeldSizes(c: XorCode, d: seq<seq<bv8>>, p: seq<seq<bv8>>, orig: seq<seq<bv8>>, known: set<nat>)
    requires Holds(c, d, p, orig, known)
    ensures |orig| == c.k + c.m
  {
  }

  lemma RestoredAt(d: seq<seq<bv8>>, orig: seq<seq<bv8>>, l: seq<nat>, i: nat)
    requires DataRestored(d, orig, l) && i in l
    ensures i < |d| && i < |orig| && d[i] == orig[i]
  {
  }

  /** The buffer of a lost fragment is one of those that may be written. */
  lemma LostBuffer(c: XorCode, data: seq<array<bv8>>, parity: seq<array<bv8>>, missingIdxs: seq<int>, index: nat)
    requires |data| == c.k && |parity| == c.m && MissingList(missingIdxs, c.k + c.m) && index < c.k + c.m && index in missingIdxs
    ensures index < c.k ==> data[index] in LostDataBuffers(c, data, missingIdxs)
    ensures index >= c.k ==> parity[index - c.k] in LostParityBuffers(c, parity, missingIdxs)
  {
    hide Part, LostData, LostParity, Targets;
    LostMembers(c, missingIdxs, index);
    if index < c.k {
      var pos :| 0 <= pos < |LostData(c, missingIdxs)| && LostData(c, missingIdxs)[pos] == index;
      assert LostDataBuffers(c, data, missingIdxs)[pos] == data[index];
    } else {
      var pos :| 0 <= pos < |LostParity(c, missingIdxs)| && LostParity(c, missingIdxs)[pos] == index;
      assert LostParityBuffers(c, parity, missingIdxs)[pos] == parity[index - c.k];
    }
  }

  /** Copies parity j into the lost data buffer and takes the other named data out of it. */
  method RebuildFromParity(c: XorCode, data: seq<array<bv8>>, parity: seq<array<bv8>>, missingIdxs: seq<int>, index: nat, j: nat, blocksize: nat,
      ghost orig: seq<seq<bv8>>)
    requires ValidCode(c) && Stripe(data, parity, c.k, c.m, blocksize) && IsXorCodeword(c, blocksize, orig)
    requires MissingList(missingIdxs, c.k + c.m) && index < c.k && index in missingIdxs && j < c.m
    requires Connects(c, index, LostParity(c, missingIdxs), LostData(c, missingIdxs), j)
    requires Holds(c, Contents(data), Contents(parity), orig, Present(missingIdxs, c.k + c.m))
    modifies data[index]
    ensures Contents(data) == old(Contents(data))[index := orig[index]] && Contents(parity) == old(Contents(parity))
  {
    hide Bit, Part, ParityOf, Seen, LostData, LostParity, Present, Column;
    ConnectedInputs(c, missingIdxs, index, j);
    RecoverFrom(c, data, parity, parity[j], c.parityBms[j], index, blocksize, orig[..c.k]);
  }

  /** Encodes a lost parity again from data that is all there. */
  method RebuildFromData(c: XorCode, data: seq<array<bv8>>, parity: seq<array<bv8>>, missingIdxs: seq<int>, index: nat, blocksize: nat,
      ghost orig: seq<seq<bv8>>)
    requires ValidCode(c) && Stripe(data, parity, c.k, c.m, blocksize) && IsXorCodeword(c, blocksize, orig)
    requires MissingList(missingIdxs, c.k + c.m) && c.k <= index < c.k + c.m && Seen(c, LostData(c, missingIdxs), index - c.k) == 0
    requires Holds(c, Contents(data), Contents(parity), orig, Present(missingIdxs, c.k + c.m))
    modifies parity[index - c.k]
    ensures Contents(data) == old(Contents(data)) && Contents(parity) == old(Contents(parity))[index - c.k := orig[index]]
  {
    hide Bit, Part, ParityOf, Seen, LostData, LostParity, Present, Column;
    UnseenInputs(c, missingIdxs, index - c.k);
    RecomputeParity(c, data, parity, index - c.k, blocksize, orig[..c.k]);
  }

  method ReconstructData(c: XorCode, data: seq<array<bv8>>, parity: seq<array<bv8>>, missingIdxs: seq<int>, index: nat, blocksize: nat,
      ghost orig: seq<seq<bv8>>) returns (ret: int)
    requires ValidCode(c) && Stripe(data, parity, c.k, c.m, blocksize) && IsXorCodeword(c, blocksize, orig)
    requires MissingList(missingIdxs, c.k + c.m) && index < c.k && index in missingIdxs
    requires Holds(c, Contents(data), Contents(parity), orig, Present(missingIdxs, c.k + c.m))
    modifies LostDataBuffers(c, data, missingIdxs), LostParityBuffers(c, parity, missingIdxs)
    ensures ret == if Cheap(c, missingIdxs, index) || |Items(missingIdxs)| < c.hd then 0 else -1
    ensures ret == 0 ==> data[index][..] == orig[index]
    ensures Cheap(c, missingIdxs, index) ==>
      Contents(data) == old(Contents(data))[index := orig[index]] && Contents(parity) == old(Contents(parity))
    ensures ret != 0 ==> Contents(data) == old(Contents(data)) && Contents(parity) == old(Contents(parity))
  {
    hide Bit, Part, FirstConnected, Connects, Seen, LostDataBuffers, LostParityBuffers, Holds, IsXorCodeword, Contents, ValidCode, Stripe, Present;
    Sizes(c, data, parity, blocksize, orig);
    ghost var l, mp := LostData(c, missingIdxs), LostParity(c, missingIdxs);
    var missingData := GetMissingData(c, missingIdxs);
    var missingParity := GetMissingParity(c, missingIdxs);
    var connected := IndexOfConnectedParity(c, index, missingParity, missingData, mp, l);
    if connected >= 0 {
      LostBuffer(c, data, parity, missingIdxs, index);
      RebuildFromParity(c, data, parity, missingIdxs, index, connected - c.k, blocksize, orig);
      assert Contents(data)[index] == orig[index];
      ret := 0;
    } else {
      ret := DecodeFor(c, data, parity, missingIdxs, index, blocksize, orig);
    }
  }

  lemma Sizes(c: XorCode, data: seq<array<bv8>>, parity: seq<array<bv8>>, blocksize: nat, orig: seq<seq<bv8>>)
    requires ValidCode(c) && Stripe(data, parity, c.k, c.m, blocksize) && IsXorCodeword(c, blocksize, orig)
    ensures Sized(c) && (c.hd == 3 || c.hd == 4) && |data| == c.k && |parity| == c.m && |orig| == c.k + c.m
  {
  }

  method ReconstructParity(c: XorCode, data: seq<array<bv8>>, parity: seq<array<bv8>>, missingIdxs: seq<int>, index: nat, blocksize: nat,
      ghost orig: seq<seq<bv8>>) returns (ret: int)
    requires ValidCode(c) && Stripe(data, parity, c.k, c.m, blocksize) && IsXorCodeword(c, blocksize, orig)
    requires MissingList(missingIdxs, c.k + c.m) && c.k <= index < c.k + c.m && index in missingIdxs
    requires Holds(c, Contents(data), Contents(parity), orig, Present(missingIdxs, c.k + c.m))
    modifies LostDataBuffers(c, data, missingIdxs), LostParityBuffers(c, parity, missingIdxs)
    ensures ret == if Cheap(c, missingIdxs, index) || |Items(missingIdxs)| < c.hd then 0 else -1
    ensures ret == 0 ==>
      (parity[index - c.k][..] == orig[index] <==> Cheap(c, missingIdxs, index) || old(parity[index - c.k][..]) == ZeroBlock(blocksize))
    ensures Cheap(c, missingIdxs, index) ==>
      Contents(data) == old(Contents(data)) && Contents(parity) == old(Contents(parity))[index - c.k := orig[index]]
    ensures ret != 0 ==> Contents(data) == old(Contents(data)) && Contents(parity) == old(Contents(parity))
  {
    hide Bit, Part, Seen, LostDataBuffers, LostParityBuffers, Holds, IsXorCodeword, Contents, ValidCode, Stripe, Present;
    Sizes(c, data, parity, blocksize, orig);
    ghost var l := LostData(c, missingIdxs);
    var missingData := GetMissingData(c, missingIdxs);
    var numDataMissing := NumMissingDataInParity(c, index, missingData, l);
    if numDataMissing == 0 {
      LostBuffer(c, data, parity, missingIdxs, index);
      RebuildFromData(c, data, parity, missingIdxs, index, blocksize, orig);
      assert Contents(parity)[index - c.k] == orig[index];
      ret := 0;
    } else {
      ret := DecodeFor(c, data, parity, missingIdxs, index, blocksize, orig);
    }
  }

  /** Rebuilds one missing fragment: from one parity, or by encoding it again, if its equation allows, and
      otherwise with the decoder. */
  method XorReconstructOne(c: XorCode, data: seq<array<bv8>>, parity: seq<array<bv8>>, missingIdxs: seq<int>, index: nat, blocksize: nat,
      ghost orig: seq<seq<bv8>>) returns (ret: int)
    requires ValidCode(c) && Stripe(data, parity, c.k, c.m, blocksize) && IsXorCodeword(c, blocksize, orig)
    requires MissingList(missingIdxs, c.k + c.m) && index < c.k + c.m && index in missingIdxs
    requires Holds(c, Contents(data), Contents(parity), orig, Present(missingIdxs, c.k + c.m))
    modifies LostDataBuffers(c, data, missingIdxs), LostParityBuffers(c, parity, missingIdxs)
    ensures ret == if Cheap(c, missingIdxs, index) || |Items(missingIdxs)| < c.hd then 0 else -1
    ensures ret == 0 && index < c.k ==> data[index][..] == orig[index]
    ensures ret == 0 && index >= c.k ==>
      (parity[index - c.k][..] == orig[index] <==> Cheap(c, missingIdxs, index) || old(parity[index - c.k][..]) == ZeroBlock(blocksize))
    ensures Cheap(c, missingIdxs, index) ==>
      Contents(data) + Contents(parity) == (old(Contents(data)) + old(Contents(parity)))[index := orig[index]]
    ensures ret != 0 ==> Contents(data) == old(Contents(data)) && Contents(parity) == old(Contents(parity))
  {
    hide ValidCode, Bit, IsXorCodeword, Holds, Cheap, Contents;
    if index < c.k {
      ret := ReconstructData(c, data, parity, missingIdxs, index, blocksize, orig);
    } else {
      ret := ReconstructParity(c, data, parity, missingIdxs, index, blocksize, orig);
    }
  }
}
