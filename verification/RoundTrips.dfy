/** Encode, overwrite what is lost, decode: the whole run of each codec, from its own matrix or tables. */
module RoundTrips {
  import opened Fields
  import opened Bytes
  import opened Mds
  import opened MatrixOps
  import opened Systematic
  import opened GaloisField
  import opened Erasures
  import opened Regions
  import opened RsCodec
  import opened ErasureCode
  import opened XorCode
  import opened XorLists
  import opened XorRepair
  import opened XorBuffers
  import opened XorHdCode
  import opened XorReconstruct
  import XorHdTables
  import opened IsaL
  import opened LinearDecode
  import opened LrcMatrix
  import opened Lrc
  import opened IsalCommon

  /** The lost buffers hold junk, the others what they held before. */
  ghost predicate Spoiled(held: seq<seq<bv8>>, frags: seq<seq<bv8>>, junk: seq<seq<bv8>>, miss: set<nat>) {
    |held| == |frags| == |junk| && forall i :: 0 <= i < |held| ==> held[i] == if i in miss then junk[i] else frags[i]
  }

  method Fill(bufs: seq<array<bv8>>, i: nat, bytes: seq<bv8>)
    requires i < |bufs| && Distinct(bufs) && bufs[i].Length == |bytes|
    modifies bufs[i]
    ensures Contents(bufs) == old(Contents(bufs))[i := bytes]
  {
    ghost var before := Contents(bufs);
    forall x | 0 <= x < |bytes| { bufs[i][x] := bytes[x]; }
    assert bufs[i][..] == bytes;
    forall j | 0 <= j < |bufs| && j != i ensures bufs[j][..] == before[j] { assert bufs[j] != bufs[i]; }
  }

  method Overwrite(data: seq<array<bv8>>, parity: seq<array<bv8>>, k: nat, m: nat, missing: seq<int>, blocksize: nat, junk: seq<seq<bv8>>)
    requires Stripe(data, parity, k, m, blocksize) && MissingList(missing, k + m)
    requires |junk| == k + m && forall i :: 0 <= i < k + m ==> |junk[i]| == blocksize
    modifies data, parity
    ensures Spoiled(Fragments(data, parity), old(Fragments(data, parity)), junk, Missing(missing))
  {
    hide *;
    var bufs := data + parity;
    Separate(data, parity, k, m, blocksize);
    BufsAre(data, parity);
    ghost var before, miss := Contents(bufs), Missing(missing);
    SpoiledNone(before, junk, miss);
    assert |bufs| == k + m && |before| == k + m && forall i :: 0 <= i < k + m ==> bufs[i].Length == blocksize;
    for i := 0 to k + m
      invariant SpoiledTo(Contents(bufs), before, junk, miss, i)
    {
      var lost := IsMissing(missing, i, k + m);
      SpoiledNext(Contents(bufs), before, junk, miss, i);
      if lost { Fill(bufs, i, junk[i]); }
    }
    BufsAre(data, parity);
    SpoiledAll(Contents(bufs), before, junk, miss);
  }

  lemma BufsAre(data: seq<array<bv8>>, parity: seq<array<bv8>>)
    ensures Contents(data + parity) == Fragments(data, parity)
  {
  }

  ghost predicate SpoiledTo(held: seq<seq<bv8>>, frags: seq<seq<bv8>>, junk: seq<seq<bv8>>, miss: set<nat>, n: nat) {
    |held| == |frags| == |junk| && forall i :: 0 <= i < |held| ==> held[i] == if i < n && i in miss then junk[i] else frags[i]
  }

  lemma SpoiledNone(frags: seq<seq<bv8>>, junk: seq<seq<bv8>>, miss: set<nat>)
    requires |frags| == |junk|
    ensures SpoiledTo(frags, frags, junk, miss, 0)
  {
  }

  lemma SpoiledNext(held: seq<seq<bv8>>, frags: seq<seq<bv8>>, junk: seq<seq<bv8>>, miss: set<nat>, n: nat)
    requires SpoiledTo(held, frags, junk, miss, n) && n < |held|
    ensures if n in miss then SpoiledTo(held[n := junk[n]], frags, junk, miss, n + 1) else SpoiledTo(held, frags, junk, miss, n + 1)
  {
  }

  lemma SpoiledAll(held: seq<seq<bv8>>, frags: seq<seq<bv8>>, junk: seq<seq<bv8>>, miss: set<nat>)
    requires SpoiledTo(held, frags, junk, miss, |held|)
    ensures Spoiled(held, frags, junk, miss)
  {
  }

  lemma Separate(data: seq<array<bv8>>, parity: seq<array<bv8>>, k: nat, m: nat, blocksize: nat)
    requires Stripe(data, parity, k, m, blocksize)
    ensures |data| == k && |parity| == m && Distinct(data + parity) && AllSized(data + parity, blocksize)
  {
  }

  lemma NumMissing(missing: seq<int>, n: nat)
    requires MissingList(missing, n)
    ensures |Missing(missing)| == |missing| - 1
  {
    MissingCard(missing, n);
  }

  /** Encodes with a new Reed-Solomon instance, then overwrites the listed buffers. */
  method RsStore(k: nat, m: nat, data: seq<array<bv8>>, parity: seq<array<bv8>>, missing: seq<int>, blocksize: nat, junk: seq<seq<bv8>>)
    returns (inst: Instance, ghost frags: seq<seq<bv8>>)
    requires k >= 1 && m >= 1 && k + m <= 65536 && WordStripe(data, parity, k, m, blocksize) && MissingList(missing, k + m)
    requires |junk| == k + m && forall i :: 0 <= i < k + m ==> |junk[i]| == blocksize
    modifies data, parity
    ensures fresh(inst) && fresh(inst.matrix) && inst.matrix.Length0 == k + m && inst.matrix.Length1 == k
    ensures IsStandard(Gf16(), RowElements(k + m), Rows(inst.matrix), k, m)
    ensures IsRsGenerator(Rows(inst.matrix), k, m) && IsCodeword(Rows(inst.matrix), k, m, blocksize, frags)
    ensures |frags| == k + m && frags[..k] == old(Contents(data))
    ensures Spoiled(Fragments(data, parity), frags, junk, Missing(missing))
  {
    hide *;
    WordStripeParts(data, parity, k, m, blocksize);
    var r := Instance.Create(k, m);
    inst := r;
    InstanceParts(inst);
    ghost var rows := Rows(inst.matrix);
    RsEncode(inst.matrix, data, parity, k, m, blocksize);
    frags := Fragments(data, parity);
    Overwrite(data, parity, k, m, missing, blocksize, junk);
    assert Rows(inst.matrix) == rows;
  }

  lemma LostSetWithin(data: seq<array<bv8>>, parity: seq<array<bv8>>, miss: set<nat>)
    ensures forall b :: b in LostSet(data, parity, miss) ==> b in data || b in parity
  {
  }

  lemma SpoiledKeeps(held: seq<seq<bv8>>, frags: seq<seq<bv8>>, junk: seq<seq<bv8>>, miss: set<nat>)
    requires Spoiled(held, frags, junk, miss)
    ensures |held| == |frags| && forall i :: 0 <= i < |held| && i !in miss ==> held[i] == frags[i]
  {
  }

  /** Reed-Solomon: up to m lost buffers, data or parity, come back whatever they were overwritten with. With more the
      decoder refuses and leaves them overwritten. */
  method RsRoundTrip(k: nat, m: nat, data: seq<array<bv8>>, parity: seq<array<bv8>>, missing: seq<int>, blocksize: nat, junk: seq<seq<bv8>>)
    returns (ret: int, ghost rows: Matrix<bv16>, ghost frags: seq<seq<bv8>>)
    requires k >= 1 && m >= 1 && k + m <= 65536 && WordStripe(data, parity, k, m, blocksize)
    requires MissingList(missing, k + m)
    requires |junk| == k + m && forall i :: 0 <= i < k + m ==> |junk[i]| == blocksize
    modifies data, parity
    ensures IsRsGenerator(rows, k, m) && IsStandard(Gf16(), RowElements(k + m), rows, k, m)
    ensures IsCodeword(rows, k, m, blocksize, frags) && frags[..k] == old(Contents(data))
    ensures ret == if |missing| - 1 <= m then 0 else -1
    ensures if ret == 0 then Fragments(data, parity) == frags else Spoiled(Fragments(data, parity), frags, junk, Missing(missing))
  {
    hide *;
    LostSetWithin(data, parity, Missing(missing));
    var inst;
    inst, frags := RsStore(k, m, data, parity, missing, blocksize, junk);
    rows := Rows(inst.matrix);
    NumMissing(missing, k + m);
    SpoiledKeeps(Fragments(data, parity), frags, junk, Missing(missing));
    ret := RsDecode(inst.matrix, data, parity, k, m, missing, blocksize, true, frags);
  }

  method LrcStore(isa: IsaL, k: nat, m: nat, l: nat, data: seq<array<bv8>>, parity: seq<array<bv8>>, missing: seq<int>, blocksize: nat, junk: seq<seq<bv8>>)
    returns (matrix: array2<bv8>, ghost frags: seq<seq<bv8>>)
    requires Contract(isa) && 1 <= l <= m && 2 * l <= k <= 255
    requires Stripe(data, parity, k, m, blocksize) && MissingList(missing, k + m)
    requires |junk| == k + m && forall i :: 0 <= i < k + m ==> |junk[i]| == blocksize
    modifies data, parity
    ensures fresh(matrix) && matrix.Length0 == k + m && matrix.Length1 == k
    ensures IsBuilt(isa.f, Rows(matrix), k, m, l) && |frags| == k + m && IsLinearCode(isa.f, Rows(matrix), k, blocksize, frags)
    ensures frags[..k] == old(Contents(data))
    ensures PresentHeld(data, parity, frags, Missing(missing))
  {
    ContractField(isa);
    hide IsBuilt, IsLinearCode, Spoiled, MissingList, Missing, Contract, IsByteField, PresentHeld, LocalOnly;
    var made;
    made, matrix := GenEncodingMatrix(isa, k, m, l);
    ghost var rows := Rows(matrix);
    hide IsLrcMatrix;
    BuiltTop(isa, rows, k, m, l);
    hide IdentityOnTop;
    IsalEncode(isa, matrix, data, parity, k, m, blocksize);
    FragmentsSplit(data, parity);
    frags := Fragments(data, parity);
    Overwrite(data, parity, k, m, missing, blocksize, junk);
    assert Rows(matrix) == rows;
    SpoiledHolds(data, parity, frags, junk, Missing(missing));
  }

  lemma BuiltTop(isa: IsaL, rows: Matrix<bv8>, k: nat, m: nat, l: nat)
    requires IsLrcMatrix(isa.f, rows, k, m, l)
    ensures IdentityOnTop(isa.f, rows, k, k)
  {
  }

  lemma SpoiledHolds(data: seq<array<bv8>>, parity: seq<array<bv8>>, frags: seq<seq<bv8>>, junk: seq<seq<bv8>>, miss: set<nat>)
    requires Spoiled(Fragments(data, parity), frags, junk, miss)
    ensures |frags| == |data| + |parity| && PresentHeld(data, parity, frags, miss)
  {
    var held := Fragments(data, parity);
    forall i | 0 <= i < |frags| && i !in miss ensures (data + parity)[i][..] == frags[i] { assert held[i] == frags[i]; }
  }

  /** LRC: whatever is lost comes back exactly if it is solvable, and r + 1 lost buffers always do if the field has room
      for all points, r the number of global parities. */
  method LrcRoundTrip(isa: IsaL, k: nat, m: nat, l: nat, data: seq<array<bv8>>, parity: seq<array<bv8>>, missing: seq<int>, blocksize: nat, junk: seq<seq<bv8>>)
    returns (ret: int, ghost rows: Matrix<bv8>, ghost frags: seq<seq<bv8>>)
    requires Contract(isa) && 1 <= l <= m && 2 * l <= k <= 255
    requires Stripe(data, parity, k, m, blocksize) && MissingList(missing, k + m)
    requires |junk| == k + m && forall i :: 0 <= i < k + m ==> |junk[i]| == blocksize
    modifies data, parity
    ensures IsBuilt(isa.f, rows, k, m, l) && |frags| == k + m && IsLinearCode(isa.f, rows, k, blocksize, frags)
    ensures frags[..k] == old(Contents(data))
    ensures ret == if Lrc.Solvable(isa.f, rows, k, m, l, Missing(missing)) then 0 else -1
    ensures ret == 0 ==> AllRestored(data, parity, frags)
    ensures k + (m - l) + 1 <= 255 && |missing| - 1 <= m - l + 1 ==> ret == 0
  {
    hide *;
    ContractField(isa);
    LostSetWithin(data, parity, Missing(missing));
    var matrix;
    matrix, frags := LrcStore(isa, k, m, l, data, parity, missing, blocksize, junk);
    rows := Rows(matrix);
    BuiltGenerator(isa.f, rows, k, m, l);
    NumMissing(missing, k + m);
    StoredStripe(isa.f, rows, k, m, l, blocksize, data, parity, frags, Missing(missing));
    ret := LrcDecode(isa, matrix, data, parity, k, m, l, missing, blocksize, frags);
  }

  lemma StoredStripe(f: Field<bv8>, gen: Matrix<bv8>, k: nat, m: nat, l: nat, blocksize: nat,
      data: seq<array<bv8>>, parity: seq<array<bv8>>, frags: seq<seq<bv8>>, miss: set<nat>)
    requires IsByteField(f) && IsLrcMatrix(f, gen, k, m, l) && |frags| == k + m && IsLinearCode(f, gen, k, blocksize, frags)
    requires Stripe(data, parity, k, m, blocksize) && PresentHeld(data, parity, frags, miss)
    ensures LrcStripe(f, gen, k, m, l, blocksize, data, parity, frags, miss)
  {
  }

  method XorStore(c: XorCode, data: seq<array<bv8>>, parity: seq<array<bv8>>, missing: seq<int>, blocksize: nat, junk: seq<seq<bv8>>)
    returns (ghost frags: seq<seq<bv8>>)
    requires ValidCode(c) && Stripe(data, parity, c.k, c.m, blocksize) && MissingList(missing, c.k + c.m)
    requires |junk| == c.k + c.m && forall i :: 0 <= i < c.k + c.m ==> |junk[i]| == blocksize
    requires forall j :: 0 <= j < c.m ==> parity[j][..] == ZeroBlock(blocksize)
    modifies data, parity
    ensures IsXorCodeword(c, blocksize, frags) && |frags| == c.k + c.m && frags[..c.k] == old(Contents(data))
    ensures Spoiled(Fragments(data, parity), frags, junk, Missing(missing))
  {
    SizedOf(c);
    hide ValidCode, Added, ParityOf, Spoiled, MissingList, Missing, IsXorCodeword;
    ghost var before := Contents(parity);
    XorCodeEncode(c, data, parity, blocksize);
    ghost var d, p := Contents(data), Contents(parity);
    EncodedIsXorCodeword(c, blocksize, d, before, p);
    FragmentsSplit(data, parity);
    frags := Fragments(data, parity);
    Overwrite(data, parity, c.k, c.m, missing, blocksize, junk);
  }

  /** The fragments that are not lost. */
  ghost function Kept(n: nat, missing: seq<int>): (s: set<nat>)
    ensures forall x: nat :: x in s <==> x < n && x !in missing
  {
    set x: nat | x < n && x !in missing
  }

  lemma KeptHolds(c: XorCode, data: seq<array<bv8>>, parity: seq<array<bv8>>, frags: seq<seq<bv8>>, junk: seq<seq<bv8>>, missing: seq<int>)
    requires Sized(c) && |data| == c.k && |parity| == c.m && MissingList(missing, c.k + c.m)
    requires Spoiled(Fragments(data, parity), frags, junk, Missing(missing))
    ensures Holds(c, Contents(data), Contents(parity), frags, Kept(c.k + c.m, missing))
  {
    KeptNotMissing(c.k + c.m, missing);
    SpoiledKeeps(Fragments(data, parity), frags, junk, Missing(missing));
    FragmentsSplit(data, parity);
    hide MissingList, Missing, Spoiled, Kept, Sized, Holds;
    HoldsOf(c, Contents(data), Contents(parity), frags, Kept(c.k + c.m, missing));
  }

  lemma HoldsOf(c: XorCode, d: seq<seq<bv8>>, p: seq<seq<bv8>>, frags: seq<seq<bv8>>, known: set<nat>)
    requires |d| == c.k && |p| == c.m && |frags| == c.k + c.m && forall i :: i in known && i < c.k + c.m ==> (d + p)[i] == frags[i]
    ensures Holds(c, d, p, frags, known)
  {
    forall j: nat | j < c.m && c.k + j in known ensures p[j] == frags[c.k + j] { assert (d + p)[c.k + j] == p[j]; }
    forall i: nat | i < c.k && i in known ensures d[i] == frags[i] { assert (d + p)[i] == d[i]; }
  }

  lemma KeptNotMissing(n: nat, missing: seq<int>)
    requires MissingList(missing, n)
    ensures forall i: nat :: i in Kept(n, missing) ==> i < n && i !in Missing(missing)
  {
  }

  /** Buffers that are not lost are not written. */
  lemma KeptApart(c: XorCode, data: seq<array<bv8>>, parity: seq<array<bv8>>, missing: seq<int>, blocksize: nat)
    requires Stripe(data, parity, c.k, c.m, blocksize) && MissingList(missing, c.k + c.m)
    ensures forall i: nat :: i < c.k && i !in missing ==> data[i] !in LostDataBuffers(c, data, missing) && data[i] !in LostParityBuffers(c, parity, missing)
    ensures forall j: nat :: j < c.m && c.k + j !in missing ==> parity[j] !in LostDataBuffers(c, data, missing) && parity[j] !in LostParityBuffers(c, parity, missing)
  {
    hide Part;
    forall i | 0 <= i < |LostData(c, missing)| ensures LostData(c, missing)[i] in missing {
      LostMembers(c, missing, LostData(c, missing)[i]);
    }
    forall i | 0 <= i < |LostParity(c, missing)| ensures LostParity(c, missing)[i] in missing {
      LostMembers(c, missing, LostParity(c, missing)[i]);
    }
  }

  /** Kept fragments as they were, lost data restored and lost parity rebuilt on zeros make the whole codeword. */
  lemma AllBack(c: XorCode, frags: seq<seq<bv8>>, d: seq<seq<bv8>>, p: seq<seq<bv8>>, before: seq<seq<bv8>>, after: seq<seq<bv8>>, missing: seq<int>, blocksize: nat)
    requires Sized(c) && |frags| == c.k + c.m && MissingList(missing, c.k + c.m) && Holds(c, d, p, frags, Kept(c.k + c.m, missing))
    requires DataRestored(d, frags, LostData(c, missing))
    requires ParityAdded(c, after, before, frags, LostParity(c, missing), blocksize)
    requires forall x :: 0 <= x < |before| ==> before[x] == ZeroBlock(blocksize)
    requires forall x :: 0 <= x < |LostParity(c, missing)| ==> after[x] == p[LostParity(c, missing)[x] - c.k]
    ensures d + p == frags
  {
    hide ParityAdded, Part;
    var l, mp := LostData(c, missing), LostParity(c, missing);
    forall i: nat | i < c.k ensures d[i] == frags[i] {
      LostMembers(c, missing, i);
      if i in missing { var x :| 0 <= x < |l| && l[x] == i; }
    }
    forall j: nat | j < c.m ensures p[j] == frags[c.k + j] {
      LostMembers(c, missing, c.k + j);
      if c.k + j in missing {
        var x :| 0 <= x < |mp| && mp[x] == c.k + j;
        assert |before| == |mp| by { AddedSizes(c, after, before, frags, mp, blocksize); }
        ParityRestored(c, after, before, frags, mp, blocksize, x);
      }
    }
  }

  lemma AddedSizes(c: XorCode, after: seq<seq<bv8>>, before: seq<seq<bv8>>, orig: seq<seq<bv8>>, mp: seq<nat>, blocksize: nat)
    requires ParityAdded(c, after, before, orig, mp, blocksize)
    ensures |after| == |before| == |mp|
  {
  }

  lemma NeededKept(c: XorCode, missing: seq<int>)
    requires ValidCode(c) && Sized(c) && MissingList(missing, c.k + c.m) && |missing| - 1 < c.hd
    ensures |Items(missing)| == |missing| - 1 && Needed(c, missing, true) <= Kept(c.k + c.m, missing)
  {
    hide Needed;
    NeededPresent(c, missing, true);
  }

  lemma StillHolds(c: XorCode, frags: seq<seq<bv8>>, d: seq<seq<bv8>>, p: seq<seq<bv8>>, d': seq<seq<bv8>>, p': seq<seq<bv8>>, missing: seq<int>)
    requires Holds(c, d, p, frags, Kept(c.k + c.m, missing)) && |d'| == c.k && |p'| == c.m
    requires forall i: nat :: i < c.k && i !in missing ==> d'[i] == d[i]
    requires forall j: nat :: j < c.m && c.k + j !in missing ==> p'[j] == p[j]
    ensures Holds(c, d', p', frags, Kept(c.k + c.m, missing))
  {
  }

  lemma LostParityContents(c: XorCode, parity: seq<array<bv8>>, missing: seq<int>)
    requires |parity| == c.m && MissingList(missing, c.k + c.m)
    ensures var mp, held := LostParity(c, missing), Contents(LostParityBuffers(c, parity, missing));
      |held| == |mp| && forall x :: 0 <= x < |mp| ==> held[x] == Contents(parity)[mp[x] - c.k] && mp[x] in missing
  {
    hide Part;
    var mp := LostParity(c, missing);
    forall x | 0 <= x < |mp| ensures mp[x] in missing { LostMembers(c, missing, mp[x]); }
  }

  /** The lost fragments from k on hold zeros. */
  ghost predicate LostZero(k: nat, held: seq<seq<bv8>>, missing: seq<int>, blocksize: nat) {
    forall i :: k <= i < |held| && i in missing ==> held[i] == ZeroBlock(blocksize)
  }

  lemma ZerosBefore(c: XorCode, data: seq<array<bv8>>, parity: seq<array<bv8>>, missing: seq<int>, blocksize: nat)
    requires |data| == c.k && |parity| == c.m && MissingList(missing, c.k + c.m) && LostZero(c.k, Fragments(data, parity), missing, blocksize)
    ensures forall b :: b in Contents(LostParityBuffers(c, parity, missing)) ==> b == ZeroBlock(blocksize)
  {
    hide Part;
    LostParityContents(c, parity, missing);
    var mp, held := LostParity(c, missing), Contents(LostParityBuffers(c, parity, missing));
    forall x | 0 <= x < |held| ensures held[x] == ZeroBlock(blocksize) {
      assert Fragments(data, parity)[mp[x]] == held[x];
    }
  }

  /** Decoding, with what it leaves alone. */
  method DecodeLost(c: XorCode, data: seq<array<bv8>>, parity: seq<array<bv8>>, missing: seq<int>, blocksize: nat, ghost frags: seq<seq<bv8>>)
    returns (ret: int)
    requires ValidCode(c) && Sized(c) && Stripe(data, parity, c.k, c.m, blocksize) && MissingList(missing, c.k + c.m) && |missing| - 1 < c.hd
    requires IsXorCodeword(c, blocksize, frags) && Holds(c, Contents(data), Contents(parity), frags, Kept(c.k + c.m, missing))
    modifies LostDataBuffers(c, data, missing), LostParityBuffers(c, parity, missing)
    ensures ret == 0 && Holds(c, Contents(data), Contents(parity), frags, Kept(c.k + c.m, missing))
    ensures DataRestored(Contents(data), frags, LostData(c, missing))
    ensures ParityAdded(c, Contents(LostParityBuffers(c, parity, missing)), old(Contents(LostParityBuffers(c, parity, missing))), frags, LostParity(c, missing), blocksize)
  {
    hide ValidCode, Part, IsXorCodeword, MissingList, Needed, ParityAdded, DataRestored, Targets, Holds, Kept;
    ghost var d, p := Contents(data), Contents(parity);
    KeptApart(c, data, parity, missing, blocksize);
    hide Stripe;
    NeededKept(c, missing);
    ret := XorHdDecode(c, data, parity, missing, blocksize, true, frags, Kept(c.k + c.m, missing));
    StillHolds(c, frags, d, p, Contents(data), Contents(parity), missing);
  }

  /** Decodes after the lost buffers were overwritten, the lost parity with zeros. */
  method XorRestore(c: XorCode, data: seq<array<bv8>>, parity: seq<array<bv8>>, missing: seq<int>, blocksize: nat, ghost frags: seq<seq<bv8>>)
    returns (ret: int)
    requires ValidCode(c) && Stripe(data, parity, c.k, c.m, blocksize) && MissingList(missing, c.k + c.m) && |missing| - 1 < c.hd
    requires IsXorCodeword(c, blocksize, frags) && |frags| == c.k + c.m
    requires Holds(c, Contents(data), Contents(parity), frags, Kept(c.k + c.m, missing))
    requires LostZero(c.k, Fragments(data, parity), missing, blocksize)
    modifies LostDataBuffers(c, data, missing), LostParityBuffers(c, parity, missing)
    ensures ret == 0 && Contents(data) + Contents(parity) == frags
  {
    SizedOf(c);
    ZerosBefore(c, data, parity, missing, blocksize);
    assert |data| == c.k && |parity| == c.m;
    hide ValidCode, Sized, Part, IsXorCodeword, MissingList, ParityAdded, DataRestored, Targets, Holds, Kept, Stripe;
    ghost var before := Contents(LostParityBuffers(c, parity, missing));
    ret := DecodeLost(c, data, parity, missing, blocksize, frags);
    LostParityContents(c, parity, missing);
    AllBack(c, frags, Contents(data), Contents(parity), before, Contents(LostParityBuffers(c, parity, missing)), missing, blocksize);
  }

  /** Flat XOR: fewer than hd lost buffers come back, for every shape that has tables, if the parity buffers
      are zero before encoding and the lost ones are zero before decoding. */
  method XorRoundTrip(k: nat, m: nat, hd: nat, data: seq<array<bv8>>, parity: seq<array<bv8>>, missing: seq<int>, blocksize: nat, junk: seq<seq<bv8>>)
    returns (ret: int, ghost frags: seq<seq<bv8>>)
    requires XorHdTables.InitXorHdCode(k, m, hd).Some? && Stripe(data, parity, k, m, blocksize)
    requires MissingList(missing, k + m) && |missing| - 1 < hd
    requires |junk| == k + m && forall i :: 0 <= i < k + m ==> |junk[i]| == blocksize
    requires (forall j :: 0 <= j < m ==> parity[j][..] == ZeroBlock(blocksize)) && forall i :: k <= i < k + m ==> junk[i] == ZeroBlock(blocksize)
    modifies data, parity
    ensures IsXorCodeword(XorHdTables.InitXorHdCode(k, m, hd).value, blocksize, frags) && |frags| == k + m && frags[..k] == old(Contents(data))
    ensures ret == 0 && Contents(data) + Contents(parity) == frags
  {
    XorHdTables.InitValid(k, m, hd);
    hide XorHdTables.InitXorHdCode;
    var c := XorHdTables.InitXorHdCode(k, m, hd).value;
    SizedOf(c);
    hide ValidCode, Sized, Spoiled, MissingList, Missing, IsXorCodeword, Holds, LostZero;
    frags := XorStore(c, data, parity, missing, blocksize, junk);
    KeptHolds(c, data, parity, frags, junk, missing);
    ZerosStored(Fragments(data, parity), k, frags, junk, missing, blocksize);
    ret := XorRestore(c, data, parity, missing, blocksize, frags);
  }

  lemma ZerosStored(held: seq<seq<bv8>>, k: nat, frags: seq<seq<bv8>>, junk: seq<seq<bv8>>, missing: seq<int>, blocksize: nat)
    requires Spoiled(held, frags, junk, Missing(missing)) && MissingList(missing, |held|)
    requires forall i :: k <= i < |junk| ==> junk[i] == ZeroBlock(blocksize)
    ensures LostZero(k, held, missing, blocksize)
  {
    forall i | k <= i < |held| && i in missing ensures held[i] == ZeroBlock(blocksize) {
      assert i as nat in Missing(missing);
    }
  }
}
