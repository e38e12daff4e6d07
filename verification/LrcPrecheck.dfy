/** The check made before an LRC fragment is reconstructed: first a local test, then the count of useful fragments. */
module LrcPrecheck {
  import opened Fields
  import opened Vectors
  import opened Mds
  import opened Erasures
  import opened LocalGroups
  import opened IsaL
  import opened LrcMatrix
  import opened LrcSelection
  import opened Lrc
  import opened LrcReconstruct
  import opened LrcTolerance

  /** The bit of fragment i in its 64-bit word of a bitmap. */
  function OneBit(i: nat): bv64 { 1 << ((i % 64) as bv64) }

  /** The bitmap's answer for fragment i: its bit if it is set, as a 64-bit number. */
  function BmValue(flags: seq<bool>, i: nat): bv64
    requires i < |flags|
  {
    if flags[i] then OneBit(i) else 0
  }

  /** Storing a 64-bit number in a 32-bit integer, and reading a 32-bit integer as a 64-bit number. */
  function Narrowed(v: bv64): bv32 { (v & 0xffff_ffff) as bv32 }
  function Widened(x: bv32): bv64 { if x & 0x8000_0000 != 0 then (x as bv64) | 0xffff_ffff_0000_0000 else x as bv64 }

  lemma ShiftAmount(n: nat)
    requires n < 64
    ensures (n as bv64) < 32 <==> n < 32
    ensures (n as bv64) < 64
  {
  }

  lemma ShiftedOut(s: bv64)
    requires s < 64
    ensures Narrowed(1 << s) == 0 <==> s >= 32
  {
  }

  lemma BitNarrowed(i: nat)
    ensures Narrowed(OneBit(i)) == 0 <==> i % 64 >= 32
  {
    hide Narrowed;
    ShiftAmount(i % 64);
    ShiftedOut((i % 64) as bv64);
  }

  lemma OrNarrowed(x: bv32, v: bv64)
    ensures Narrowed(Widened(x) | v) == 0 <==> x == 0 && Narrowed(v) == 0
  {
  }

  /** The losses whose bits survive in a 32-bit integer. */
  ghost function Noticed(miss: set<nat>): (s: set<nat>)
    ensures forall i :: i in s <==> i in miss && i % 64 < 32
  {
    set i | i in miss && i % 64 < 32
  }

  lemma ValueNarrowed(flags: seq<bool>, i: nat)
    requires i < |flags|
    ensures Narrowed(BmValue(flags, i)) == 0 <==> !flags[i] || i % 64 >= 32
  {
    hide Narrowed, OneBit;
    BitNarrowed(i);
    ZeroNarrowed();
  }

  lemma ValueNoticed(flags: seq<bool>, miss: set<nat>, i: nat, x: bv32)
    requires Marked(flags, miss) && i < |flags|
    ensures Narrowed(BmValue(flags, i)) == 0 <==> i !in Noticed(miss)
    ensures Narrowed(Widened(x) | BmValue(flags, i)) == 0 <==> x == 0 && i !in Noticed(miss)
  {
    hide *;
    MarkedAt(flags, miss, i);
    ValueNarrowed(flags, i);
    OrNarrowed(x, BmValue(flags, i));
  }

  lemma ZeroNarrowed()
    ensures Narrowed(0) == 0
  {
  }

  /** Collects the bits of the group's losses, other than that of the fragment itself. */
  method GroupBits(flags: seq<bool>, lo: nat, hi: nat, dest: nat, first: bv32, ghost miss: set<nat>) returns (missing: bv32)
    requires lo <= hi <= |flags| && Marked(flags, miss)
    ensures missing == 0 <==> first == 0 && forall i: nat :: lo <= i < hi && i != dest ==> i !in Noticed(miss)
  {
    hide Narrowed, Widened, BmValue, Noticed, Marked;
    missing := first;
    for i := lo to hi
      invariant missing == 0 <==> first == 0 && forall x: nat :: lo <= x < i && x != dest ==> x !in Noticed(miss)
    {
      ValueNoticed(flags, miss, i, missing);
      if i != dest {
        missing := Narrowed(Widened(missing) | BmValue(flags, i));
      }
    }
  }

  lemma CompleteMeans(k: nat, m: nat, l: nat, v: nat, dest: nat, lo: nat, hi: nat, miss: set<nat>)
    requires 0 < l <= m && v < l && lo == LocalGroupDataLower(k, l, v) && hi == LocalGroupDataUpper(k, l, v) && lo <= hi <= k
    ensures GroupComplete(k, m, l, v, dest, miss) <==>
      (forall i: nat :: lo <= i < hi && i != dest ==> i !in miss) && (dest < k ==> k + m - l + v !in miss)
  {
    hide LocalGroupDataLower;
    forall i: nat ensures lo <= i < hi <==> i < k && InGroup(k, l, v, i) {}
  }

  /** The requests that pass: the group seems complete, or there are enough useful fragments. */
  ghost predicate Passes(k: nat, m: nat, l: nat, miss: set<nat>, dest: nat)
    requires 0 < l <= k && l <= m && dest < k + m
  {
    LocallyRepairable(k, m, l, Noticed(miss), dest) || |Selection(k, m, l, miss)| == k
  }

  lemma PassesMeans(k: nat, m: nat, l: nat, miss: set<nat>, dest: nat)
    requires 0 < l <= k && l <= m && dest < k + m
    ensures Passes(k, m, l, miss, dest) <==> LocallyRepairable(k, m, l, Noticed(miss), dest) || |Selection(k, m, l, miss)| == k
  {
  }

  method CheckReconstructFragments(k: nat, m: nat, l: nat, flags: seq<bool>, dest: nat, ghost miss: set<nat>) returns (ret: int)
    requires 0 < l <= m && l <= k && |flags| == k + m && Marked(flags, miss) && dest < k + m
    ensures ret == if Passes(k, m, l, miss, dest) then 0 else -Preprocessing.EINSUFFFRAGS
  {
    hide *;
    PassesMeans(k, m, l, miss, dest);
    RepairableMeans(k, m, l, Noticed(miss), dest);
    if dest < k {
      var v := LocalGroupForData(k, l, dest);
      GroupsTile(k, l, dest, v);
      var lo, hi := LocalGroupDataLower(k, l, v), LocalGroupDataUpper(k, l, v);
      CompleteMeans(k, m, l, v, dest, lo, hi, Noticed(miss));
      ValueNoticed(flags, miss, k + m - l + v, 0);
      var missing := GroupBits(flags, lo, hi, dest, Narrowed(BmValue(flags, k + m - l + v)), miss);
      if missing == 0 {
        return 0;
      }
    } else if dest >= k + m - l {
      var v := dest - k - m + l;
      GroupsTile(k, l, 0, v);
      var lo, hi := LocalGroupDataLower(k, l, v), LocalGroupDataUpper(k, l, v);
      CompleteMeans(k, m, l, v, dest, lo, hi, Noticed(miss));
      var missing := GroupBits(flags, lo, hi, dest, 0, miss);
      if missing == 0 {
        return 0;
      }
    }
    ret := CountUsefulFragments(k, m, l, flags, miss);
  }

  /** Fragment x has to be there if fragment dest is to be rebuilt from its group. */
  ghost predicate Helps(k: nat, m: nat, l: nat, dest: nat, x: nat)
    requires 0 < l <= k && l <= m && dest < k + m
  {
    x != dest && !LocallyRepairable(k, m, l, {x}, dest)
  }

  /** The local test is right about all losses exactly if no helper has an index that is 32 or more modulo 64. */
  lemma LocalTest(k: nat, m: nat, l: nat, dest: nat)
    requires 0 < l <= k && l <= m && dest < k + m && LocallyRepairable(k, m, l, {}, dest)
    ensures (forall miss: set<nat> :: LocallyRepairable(k, m, l, Noticed(miss), dest) <==> LocallyRepairable(k, m, l, miss, dest))
      <==> forall x: nat :: Helps(k, m, l, dest, x) ==> x % 64 < 32
  {
    if x: nat :| Helps(k, m, l, dest, x) && x % 64 >= 32 {
      assert Noticed({x}) == {};
    } else {
      forall miss: set<nat> ensures LocallyRepairable(k, m, l, Noticed(miss), dest) <==> LocallyRepairable(k, m, l, miss, dest) {
        SmallHelpers(k, m, l, dest, miss);
      }
    }
  }

  lemma SmallHelpers(k: nat, m: nat, l: nat, dest: nat, miss: set<nat>)
    requires 0 < l <= k && l <= m && dest < k + m && LocallyRepairable(k, m, l, {}, dest)
    requires forall x: nat :: Helps(k, m, l, dest, x) ==> x % 64 < 32
    ensures LocallyRepairable(k, m, l, Noticed(miss), dest) <==> LocallyRepairable(k, m, l, miss, dest)
  {
    hide LocalGroupForData;
    RepairableMeans(k, m, l, miss, dest);
    RepairableMeans(k, m, l, Noticed(miss), dest);
    RepairableMeans(k, m, l, {}, dest);
    var v := if dest < k then LocalGroupForData(k, l, dest) else dest - (k + m - l);
    if !GroupComplete(k, m, l, v, dest, miss) {
      var x := if exists d: nat :: d < k && InGroup(k, l, v, d) && d != dest && d in miss
        then var d: nat :| d < k && InGroup(k, l, v, d) && d != dest && d in miss; d else k + m - l + v;
      RepairableMeans(k, m, l, {x}, dest);
      assert x in miss && !GroupComplete(k, m, l, v, dest, {x}) && !GroupComplete(k, m, l, v, dest, if x in Noticed(miss) then Noticed(miss) else {x});
      assert Helps(k, m, l, dest, x);
    }
  }

  lemma {:induction false} UsableArePresent(k: nat, m: nat, l: nat, miss: set<nat>, v: nat)
    requires 0 < l <= m && v <= l
    ensures |Available(miss, k + m - l)| + |UsableLocals(k, m, l, miss, v)| <= |Available(miss, k + m - l + v)|
  {
    hide GroupHit;
    if v > 0 { UsableArePresent(k, m, l, miss, v - 1); }
  }

  /** More losses than parities are never solvable. */
  lemma ManyLosses(k: nat, m: nat, l: nat, miss: set<nat>)
    requires 0 < l <= m && l <= k && miss <= UpTo(k + m) && |miss| > m
    ensures |Selection(k, m, l, miss)| < k
  {
    hide Selection, UsableLocals, Available, UpTo;
    UsableArePresent(k, m, l, miss, l);
    AvailableCount(miss, k + m);
    assert miss * UpTo(k + m) == miss;
    UsefulIffSelected(k, m, l, miss);
  }

  /** With a single group the first data fragment needs all the others and the local parity. */
  lemma OneGroup(k: nat, miss: set<nat>)
    requires k >= 1
    ensures LocallyRepairable(k, 1, 1, miss, 0) <==> (forall i: nat :: 0 < i < k ==> i !in miss) && k !in miss
  {
    hide GroupComplete, LocalGroupForData, LocalGroupDataLower;
    RepairableMeans(k, 1, 1, miss, 0);
    GroupEnds(k, 1);
    CompleteMeans(k, 1, 1, 0, 0, 0, k, miss);
  }

  /** Two losses of a code with 34 data fragments in one group and one local parity: the check accepts the request
      although the group is not complete and the decoder cannot find its rows. */
  lemma AcceptsUnsolvable()
    ensures LocallyRepairable(34, 1, 1, Noticed({0, 33}), 0)
    ensures !LocallyRepairable(34, 1, 1, {0, 33}, 0) && |Selection(34, 1, 1, {0, 33})| < 34
  {
    hide *;
    TwoLosses();
    OneGroup(34, {0, 33});
    OneGroup(34, {0});
    ManyLosses(34, 1, 1, {0, 33});
  }

  lemma TwoLosses()
    ensures Noticed({0, 33}) == {0} && {0, 33} <= UpTo(34 + 1) && |{0, 33}| == 2
  {
    var both, one: set<nat> := {0, 33}, {0};
    assert Noticed(both) == one;
  }

  /** What is lost is at least what is noticed. */
  lemma FewerLosses(k: nat, m: nat, l: nat, miss: set<nat>, dest: nat)
    requires 0 < l <= k && l <= m && dest < k + m && LocallyRepairable(k, m, l, miss, dest)
    ensures LocallyRepairable(k, m, l, Noticed(miss), dest)
  {
    hide LocallyRepairable, LocalGroupForData, InGroup;
    RepairableMeans(k, m, l, miss, dest);
    RepairableMeans(k, m, l, Noticed(miss), dest);
  }

  /** No request that can be served is turned away. One that passes cannot be served exactly if the group is complete but
      its parity does not depend on the fragment, or it is not and the rows found are dependent, or no k rows are found
      and a loss was overlooked. */
  lemma PassedUnserved(f: Field<bv8>, gen: Matrix<bv8>, k: nat, m: nat, l: nat, miss: set<nat>, dest: nat)
    requires IsLrcMatrix(f, gen, k, m, l) && dest < k + m
    ensures HasPlan(f, gen, k, m, l, miss, dest) ==> Passes(k, m, l, miss, dest)
    ensures Passes(k, m, l, miss, dest) && !HasPlan(f, gen, k, m, l, miss, dest) <==>
      if LocallyRepairable(k, m, l, miss, dest) then !LocallyCounted(f, gen, k, m, l, dest)
      else if |Selection(k, m, l, miss)| == k then !TrivialKernel(f, Select(WithCombined(gen, k, m, l), Selection(k, m, l, miss)), k)
      else LocallyRepairable(k, m, l, Noticed(miss), dest)
  {
    hide LocallyRepairable, LocallyCounted, Selection, TrivialKernel, WithCombined, LocalOnly;
    if LocallyRepairable(k, m, l, miss, dest) { FewerLosses(k, m, l, miss, dest); }
  }

  /** A request for the first global parity of the largest stripe that passes with k rows found, which are dependent. */
  lemma DependentPasses(f: Field<bv8>, matrix: Matrix<bv8>)
    requires IsByteField(f) && IsBuilt(f, matrix, 128, 128, 1)
    ensures IsLrcMatrix(f, matrix, 128, 128, 1)
    ensures var miss := RepeatedLosses(128, 128, 1);
      128 in miss && |Selection(128, 128, 1, miss)| == 128 && Passes(128, 128, 1, miss, 128) && !HasPlan(f, matrix, 128, 128, 1, miss, 128)
  {
    hide *;
    BuiltGenerator(f, matrix, 128, 128, 1);
    MatrixShape(f, matrix, 128, 128, 1);
    RepeatedUnsolvable(f, matrix, 128, 128, 1);
    RepeatedLossesAre(128, 128, 1);
    var miss := RepeatedLosses(128, 128, 1);
    RepairableMeans(128, 128, 1, miss, 128);
    HasPlanMeans(f, matrix, 128, 128, 1, miss, 128);
    PassesMeans(128, 128, 1, miss, 128);
  }

  /** With k + r = 255 the local parity of data fragment 1 has no coefficient for it. */
  lemma NotCounted(f: Field<bv8>, matrix: Matrix<bv8>, k: nat, m: nat, l: nat)
    requires IsByteField(f) && IsBuilt(f, matrix, k, m, l) && k + (m - l) == 255
    ensures 0 < l <= m && 2 <= k && l <= k && Shape(matrix, k + m, k) && !LocallyCounted(f, matrix, k, m, l, 1)
  {
    BuiltRepeats(f, matrix, k, m, l);
    FieldOf(f);
    hide IsBuilt, IsByteField, IsField, Dot, LocalGroupForData, RowsLeft;
    assert 255 in RowsLeft(k);
    var c := CombinedRow(matrix, k, m, l);
    assert Family(matrix, k, m, l)[255] == c;
    DotUnit(f, Unit(f, k, 1), c, k, 1);
  }

  /** In the largest stripe none of these r + 1 lost fragments can be rebuilt, not even data fragment 1, all of whose
      group is there. */
  lemma NoneRebuilt(f: Field<bv8>, matrix: Matrix<bv8>, dest: nat)
    requires IsByteField(f) && IsBuilt(f, matrix, 128, 128, 1) && dest in RepeatedLosses(128, 128, 1)
    ensures dest < 256 && Shape(matrix, 256, 128) && !HasPlan(f, matrix, 128, 128, 1, RepeatedLosses(128, 128, 1), dest)
  {
    hide *;
    BuiltGenerator(f, matrix, 128, 128, 1);
    MatrixShape(f, matrix, 128, 128, 1);
    RepeatedUnsolvable(f, matrix, 128, 128, 1);
    RepeatedLossesAre(128, 128, 1);
    NotCounted(f, matrix, 128, 128, 1);
    RepairableMeans(128, 128, 1, RepeatedLosses(128, 128, 1), dest);
    PlanFails(f, matrix, 128, 128, 1, RepeatedLosses(128, 128, 1), dest);
  }

  lemma PlanFails(f: Field<bv8>, gen: Matrix<bv8>, k: nat, m: nat, l: nat, miss: set<nat>, dest: nat)
    requires 0 < l <= k && l <= m && Shape(gen, k + m, k) && dest < k + m && !Solvable(f, gen, k, m, l, miss)
    requires LocallyRepairable(k, m, l, miss, dest) ==> !LocallyCounted(f, gen, k, m, l, dest)
    ensures !HasPlan(f, gen, k, m, l, miss, dest)
  {
    hide LocallyRepairable, LocallyCounted, Solvable;
  }
}
