/** Nothing on the list of fragments to read can be dropped: for each of them there are two code words that agree on all the
    others and differ in a fragment that is to be rebuilt. */
module XorMinimal {
  import opened Bytes
  import opened Bitmaps
  import opened Erasures
  import opened Regions
  import opened XorCode
  import opened XorLists
  import opened XorRepair
  import opened XorHdCode
  import opened XorReconstruct
  import opened XorFragmentsNeeded

  // ----- code words of single bytes, given by the data fragments that are one

  /** The exclusive or of the marks that the bitmap names, of the first n. */
  ghost function Sum(bm: bv32, s: set<nat>, n: nat): (r: bv8)
    ensures r == 0 || r == 1
  {
    if n == 0 then 0 else Flip(Sum(bm, s, n - 1), Bit(bm, n - 1) && n - 1 in s)
  }

  /** Exclusive or with a one, or with a zero. */
  function Flip(b: bv8, one: bool): (r: bv8)
    ensures r == XorByte(b, if one then 1 else 0)
    ensures b == 0 || b == 1 ==> r == 0 || r == 1
  {
    if one then b ^ 1 else b
  }

  lemma FlipTwice(b: bv8)
    requires b == 0 || b == 1
    ensures Flip(b, false) == b && Flip(b, true) != b && (Flip(b, true) == 0 || Flip(b, true) == 1)
  {
  }

  lemma {:induction false} SumAgree(bm: bv32, s: set<nat>, s': set<nat>, n: nat)
    requires forall i: nat :: i < n && Bit(bm, i) ==> (i in s <==> i in s')
    ensures Sum(bm, s, n) == Sum(bm, s', n)
  {
    hide Bit, Flip;
    if n > 0 { SumAgree(bm, s, s', n - 1); }
  }

  lemma {:induction false} SumNone(bm: bv32, s: set<nat>, n: nat)
    requires forall i: nat :: i < n && Bit(bm, i) ==> i !in s
    ensures Sum(bm, s, n) == 0
  {
    hide Bit, Flip;
    if n > 0 {
      SumNone(bm, s, n - 1);
      FlipTwice(0);
    }
  }

  /** One more named mark changes the sum. */
  lemma {:induction false} SumAdd(bm: bv32, s: set<nat>, t: nat, n: nat)
    requires t < n && Bit(bm, t) && t !in s
    ensures Sum(bm, s + {t}, n) != Sum(bm, s, n)
  {
    hide Bit, Flip;
    FlipTwice(Sum(bm, s, n - 1));
    FlipTwice(Sum(bm, s + {t}, n - 1));
    if t < n - 1 { SumAdd(bm, s, t, n - 1); } else { SumAgree(bm, s, s + {t}, n - 1); }
  }

  ghost function Marks(c: XorCode, s: set<nat>): (d: seq<seq<bv8>>)
    ensures |d| == c.k && forall i :: 0 <= i < c.k ==> d[i] == [if i in s then 1 else 0]
  {
    seq(c.k, i requires 0 <= i < c.k => [if i in s then 1 else 0])
  }

  lemma {:induction false} RowIsSum(bm: bv32, s: set<nat>, col: seq<bv8>, n: nat)
    requires n <= |col| && forall i: nat :: i < n ==> col[i] == if i in s then 1 else 0
    ensures XorRow(bm, col, n) == Sum(bm, s, n)
  {
    hide Bit;
    if n > 0 { RowIsSum(bm, s, col, n - 1); }
  }

  /** Whether fragment y of that code word is zero. */
  ghost function ValueAt(c: XorCode, s: set<nat>, y: nat): bv8
    requires y < c.k + |c.parityBms|
  {
    if y < c.k then if y in s then 1 else 0 else Sum(c.parityBms[y - c.k], s, c.k)
  }

  /** The code word. */
  ghost function Word(c: XorCode, s: set<nat>): (w: seq<seq<bv8>>)
    requires Sized(c)
    ensures |w| == c.k + c.m && forall y :: 0 <= y < c.k + c.m ==> w[y] == [ValueAt(c, s, y)]
  {
    seq(c.k + c.m, y requires 0 <= y < c.k + c.m => [ValueAt(c, s, y)])
  }

  /** The sums of the marks, each as a parity fragment. */
  ghost function SumsOf(c: XorCode, s: set<nat>): (p: seq<seq<bv8>>)
    requires |c.parityBms| == c.m
    ensures |p| == c.m && forall j :: 0 <= j < c.m ==> p[j] == [Sum(c.parityBms[j], s, c.k)]
  {
    seq(c.m, j requires 0 <= j < c.m => [Sum(c.parityBms[j], s, c.k)])
  }

  lemma SumIsParity(c: XorCode, s: set<nat>, bm: bv32)
    ensures [Sum(bm, s, c.k)] == ParityOf(bm, Marks(c, s), 1)
  {
    hide Bit, Sum;
    RowIsSum(bm, s, ByteColumn(Marks(c, s), 0), c.k);
  }

  lemma WordParts(c: XorCode, s: set<nat>)
    requires Sized(c)
    ensures |c.parityBms| == c.m && Word(c, s) == Marks(c, s) + SumsOf(c, s)
  {
    hide Sum;
  }

  lemma WordIsCodeword(c: XorCode, s: set<nat>)
    requires Sized(c)
    ensures IsXorCodeword(c, 1, Word(c, s))
  {
    hide *;
    WordParts(c, s);
    var d, p := Marks(c, s), SumsOf(c, s);
    forall j | 0 <= j < c.m ensures p[j] == ParityOf(c.parityBms[j], d, 1) { SumIsParity(c, s, c.parityBms[j]); }
    ParitiesMake(c, 1, d, p);
  }

  // ----- the marks that a list of repairs needs

  /** The list can be repaired one by one, by single parities. */
  ghost predicate Plain(c: XorCode, mp: seq<nat>, l: seq<nat>) {
    ValidCode(c) && FewLosses(c, mp, l) && (|l| == 3 ==> FirstRepairable(c, mp, l, 0) < 3)
  }

  lemma PlainParts(c: XorCode, mp: seq<nat>, l: seq<nat>)
    requires Plain(c, mp, l)
    ensures ValidCode(c) && FewLosses(c, mp, l) && Sized(c) && DataList(c, l) && |c.parityBms| == c.m
    ensures (forall i :: 0 <= i < |l| ==> l[i] < c.k) && forall x: nat :: x in l ==> x < c.k
  {
  }

  lemma PlainRest(c: XorCode, mp: seq<nat>, l: seq<nat>, pos: nat)
    requires Plain(c, mp, l) && pos < |l|
    ensures Plain(c, mp, Without(l, pos))
  {
    AtMostFour(c);
    hide ValidCode, FirstRepairable;
    WithoutList(c, l, pos);
  }

  lemma AtMostFour(c: XorCode)
    requires ValidCode(c)
    ensures c.hd <= 4
  {
  }

  lemma UsableParts(c: XorCode, mp: seq<nat>, l: seq<nat>, r: Repair)
    requires Usable(c, mp, l, r) && r.p == r.q
    ensures r.Repair? && r.pos < |l| && r.p < c.m == |c.parityBms| && r.bm == c.parityBms[r.p]
    ensures forall i :: 0 <= i < |l| ==> (Bit(r.bm, l[i]) <==> i == r.pos)
  {
  }

  lemma SingleParity(c: XorCode, mp: seq<nat>, l: seq<nat>)
    requires Plain(c, mp, l) && l != []
    ensures DataList(c, l) && NextRepair(c, mp, l).Repair? ==> NextRepair(c, mp, l).p == NextRepair(c, mp, l).q
  {
    hide ValidCode, FirstConnected, FirstRepairable, FirstSeeing, FirstNamed;
  }

  lemma NeedsNext(c: XorCode, mp: seq<nat>, l: seq<nat>, r: Repair)
    requires Sized(c) && DataList(c, l) && l != [] && r == NextRepair(c, mp, l) && r.Repair? && r.pos < |l| && r.p == r.q
    ensures DataList(c, Without(l, r.pos)) && forall x :: x in Without(l, r.pos) <==> x in l && x != l[r.pos]
    ensures Needs(c, mp, l) == {c.k + r.p} + (BitsBelow(r.bm, c.k) - {l[r.pos]}) + (Needs(c, mp, Without(l, r.pos)) - {l[r.pos]})
  {
    hide NextRepair, BitsBelow;
    WithoutList(c, l, r.pos);
    assert {c.k + r.p, c.k + r.q} == {c.k + r.p};
  }

  /** The next repair uses one parity, which names just one fragment of the list. */
  lemma PlainRepair(c: XorCode, mp: seq<nat>, l: seq<nat>) returns (pos: nat, p: nat, bm: bv32)
    requires Plain(c, mp, l) && l != []
    ensures Sized(c) && p < c.m == |c.parityBms| && bm == c.parityBms[p] && pos < |l| && l[pos] < c.k
    ensures forall i :: 0 <= i < |l| ==> (Bit(bm, l[i]) <==> i == pos)
    ensures Plain(c, mp, Without(l, pos)) && DataList(c, l) && DataList(c, Without(l, pos))
    ensures forall x :: x in Without(l, pos) <==> x in l && x != l[pos]
    ensures Needs(c, mp, l) == {c.k + p} + (BitsBelow(bm, c.k) - {l[pos]}) + (Needs(c, mp, Without(l, pos)) - {l[pos]})
  {
    hide *;
    PlainParts(c, mp, l);
    var r := NextRepair(c, mp, l);
    NextRepairUsable(c, mp, l);
    UsableRepair(c, mp, l, r);
    SingleParity(c, mp, l);
    UsableParts(c, mp, l, r);
    pos, p, bm := r.pos, r.p, r.bm;
    PlainRest(c, mp, l, pos);
    NeedsNext(c, mp, l, r);
  }

  lemma UsableRepair(c: XorCode, mp: seq<nat>, l: seq<nat>, r: Repair)
    requires Usable(c, mp, l, r)
    ensures r.Repair?
  {
  }

  /** The marks s can be completed by marks of the list so that every parity that its repairs read is zero. */
  lemma {:induction false} Complete(c: XorCode, mp: seq<nat>, l: seq<nat>, s: set<nat>) returns (s': set<nat>)
    requires Plain(c, mp, l) && forall i :: i in l ==> i !in s
    ensures Sized(c) && DataList(c, l) && |c.parityBms| == c.m && s <= s' && forall i :: i in s' ==> i in s || i in l
    ensures forall j: nat :: j < c.m && c.k + j in Needs(c, mp, l) ==> Sum(c.parityBms[j], s', c.k) == 0
    decreases |l|
  {
    hide *;
    PlainParts(c, mp, l);
    if l == [] {
      s' := s;
      NeedsNothing(c, mp);
    } else {
      var pos, p, bm := PlainRepair(c, mp, l);
      var t, rest := l[pos], Without(l, pos);
      var s1 := if Sum(bm, s, c.k) == 0 then s else s + {t};
      SumZeroed(bm, s, t, c.k);
      s' := Complete(c, mp, rest, s1);
      KeepsSum(c, l, pos, bm, s1, s', rest);
    }
  }

  lemma SumZeroed(bm: bv32, s: set<nat>, t: nat, n: nat)
    requires t < n && Bit(bm, t) && t !in s
    ensures Sum(bm, if Sum(bm, s, n) == 0 then s else s + {t}, n) == 0
  {
    SumAdd(bm, s, t, n);
  }

  lemma NeedsNothing(c: XorCode, mp: seq<nat>)
    requires Sized(c)
    ensures DataList(c, []) && Needs(c, mp, []) == {}
  {
  }

  /** Marks of the rest of the list do not change the sum of a parity that names none of it. */
  lemma KeepsSum(c: XorCode, l: seq<nat>, pos: nat, bm: bv32, s: set<nat>, s': set<nat>, rest: seq<nat>)
    requires pos < |l| && (forall i :: 0 <= i < |l| ==> (Bit(bm, l[i]) <==> i == pos))
    requires forall x :: x in rest <==> x in l && x != l[pos]
    requires s <= s' && forall i :: i in s' ==> i in s || i in rest
    ensures Sum(bm, s', c.k) == Sum(bm, s, c.k)
  {
    hide Bit, Sum;
    forall i: nat | i < c.k && Bit(bm, i) ensures i in s <==> i in s' {
      if i in rest { NotNamed(l, pos, bm, i); }
    }
    SumAgree(bm, s, s', c.k);
  }

  lemma NeedsAbsent(c: XorCode, mp: seq<nat>, l: seq<nat>, x: nat)
    requires Plain(c, mp, l)
    ensures Sized(c) && DataList(c, l) && |c.parityBms| == c.m
    ensures x in Needs(c, mp, l) ==> x < c.k + c.m && x !in l && x !in mp
  {
    PlainParts(c, mp, l);
    hide *;
    NeedsPresent(c, mp, l);
  }

  /** The named marks t and x, or t alone where x is the parity. */
  ghost function First(c: XorCode, t: nat, x: nat): set<nat> {
    if x < c.k then {t, x} else {t}
  }

  lemma FirstCancels(c: XorCode, bm: bv32, t: nat, x: nat)
    requires x < c.k && t < c.k && Bit(bm, t) && Bit(bm, x) && t != x
    ensures Sum(bm, First(c, t, x), c.k) == 0
  {
    hide Bit, Sum;
    SumNone(bm, {}, c.k);
    SumAdd(bm, {}, t, c.k);
    SumAdd(bm, {} + {t}, x, c.k);
    assert {} + {t} + {x} == {t, x};
  }

  /** What the repairs of the list show of the marks, but for fragment x, is zero. */
  ghost predicate Silent(c: XorCode, seen: set<nat>, s: set<nat>, x: nat)
    requires |c.parityBms| == c.m
  {
    forall y: nat :: y in seen && y != x && y < c.k + c.m ==> ValueAt(c, s, y) == 0
  }

  /** For each fragment that the repairs of the list read there are marks, of it and of the list, that nothing else of
      what they read shows. */
  lemma {:induction false} NeedsMinimal(c: XorCode, mp: seq<nat>, l: seq<nat>, x: nat) returns (s: set<nat>, w: nat)
    requires Plain(c, mp, l) && Sized(c) && DataList(c, l) && x in Needs(c, mp, l)
    ensures |c.parityBms| == c.m && w in l && w in s && w < c.k
    ensures forall i :: i in s ==> i in l || (i == x && x < c.k)
    ensures Silent(c, Needs(c, mp, l), s, x)
    decreases |l|
  {
    hide *;
    PlainParts(c, mp, l);
    NeedsAbsent(c, mp, l, x);
    if l == [] { NeedsNothing(c, mp); }
    var pos, p, bm := PlainRepair(c, mp, l);
    var t, rest := l[pos], Without(l, pos);
    if x == c.k + p || x in BitsBelow(bm, c.k) {
      FirstMembers(c, t, x, l);
      s := Complete(c, mp, rest, First(c, t, x));
      w := t;
      if x < c.k { NamedBit(bm, c.k, x); FirstCancels(c, bm, t, x); }
      KeepsSum(c, l, pos, bm, First(c, t, x), s, rest);
      SilentFirst(c, mp, l, rest, t, p, bm, s, x);
    } else {
      s, w := NeedsMinimal(c, mp, rest, x);
      SilentRest(c, mp, l, rest, pos, p, bm, s, x);
    }
  }

  lemma NamedBit(bm: bv32, n: nat, x: nat)
    ensures x in BitsBelow(bm, n) <==> x < n && Bit(bm, x)
  {
  }

  lemma FirstMembers(c: XorCode, t: nat, x: nat, l: seq<nat>)
    requires t in l && x !in l
    ensures t in First(c, t, x) && forall i :: i in First(c, t, x) ==> (i == t || (i == x && x < c.k)) && (i in l ==> i == t)
  {
  }

  lemma SilentFirst(c: XorCode, mp: seq<nat>, l: seq<nat>, rest: seq<nat>, t: nat, p: nat, bm: bv32, s: set<nat>, x: nat)
    requires Plain(c, mp, l) && Sized(c) && DataList(c, l) && DataList(c, rest) && p < c.m == |c.parityBms| && bm == c.parityBms[p]
    requires Needs(c, mp, l) == {c.k + p} + (BitsBelow(bm, c.k) - {t}) + (Needs(c, mp, rest) - {t})
    requires t in l && (forall y :: y in rest ==> y in l) && forall i :: i in s ==> i in l || (i == x && x < c.k)
    requires x < c.k ==> Sum(bm, s, c.k) == 0
    requires x >= c.k ==> x == c.k + p
    requires forall j: nat :: j < c.m && c.k + j in Needs(c, mp, rest) ==> Sum(c.parityBms[j], s, c.k) == 0
    ensures Silent(c, Needs(c, mp, l), s, x)
  {
    hide *;
    forall y: nat | y in Needs(c, mp, l) && y != x && y < c.k + c.m ensures ValueAt(c, s, y) == 0 {
      NeedsAbsent(c, mp, l, y);
      NamedBit(bm, c.k, y);
      ValueIs(c, s, y);
    }
    SilentMeans(c, Needs(c, mp, l), s, x);
  }

  lemma ValueIs(c: XorCode, s: set<nat>, y: nat)
    requires y < c.k + |c.parityBms|
    ensures y < c.k ==> (ValueAt(c, s, y) == 0 <==> y !in s)
    ensures y >= c.k ==> ValueAt(c, s, y) == Sum(c.parityBms[y - c.k], s, c.k)
  {
  }

  lemma SilentMeans(c: XorCode, seen: set<nat>, s: set<nat>, x: nat)
    requires |c.parityBms| == c.m
    ensures Silent(c, seen, s, x) <==> forall y: nat :: y in seen && y != x && y < c.k + c.m ==> ValueAt(c, s, y) == 0
  {
  }

  lemma SilentRest(c: XorCode, mp: seq<nat>, l: seq<nat>, rest: seq<nat>, pos: nat, p: nat, bm: bv32, s: set<nat>, x: nat)
    requires Plain(c, mp, l) && Sized(c) && DataList(c, l) && DataList(c, rest) && pos < |l| && p < c.m == |c.parityBms| && bm == c.parityBms[p]
    requires Needs(c, mp, l) == {c.k + p} + (BitsBelow(bm, c.k) - {l[pos]}) + (Needs(c, mp, rest) - {l[pos]})
    requires (forall i :: 0 <= i < |l| ==> (Bit(bm, l[i]) <==> i == pos)) && forall y :: y in rest <==> y in l && y != l[pos]
    requires x in Needs(c, mp, l) && x !in BitsBelow(bm, c.k) && forall i :: i in s ==> i in rest || (i == x && x < c.k)
    requires Silent(c, Needs(c, mp, rest), s, x)
    ensures Silent(c, Needs(c, mp, l), s, x)
  {
    hide *;
    SilentMeans(c, Needs(c, mp, rest), s, x);
    forall i: nat | i < c.k && Bit(bm, i) ensures i !in s {
      NamedBit(bm, c.k, i);
      NotNamed(l, pos, bm, i);
    }
    SumNone(bm, s, c.k);
    forall y: nat | y in Needs(c, mp, l) && y != x && y < c.k + c.m ensures ValueAt(c, s, y) == 0 {
      NeedsAbsent(c, mp, l, y);
      NamedBit(bm, c.k, y);
      ValueIs(c, s, y);
    }
    SilentMeans(c, Needs(c, mp, l), s, x);
  }

  // ----- the whole answer

  /** A parity that the repairs read names nothing but what they read and what they repair. */
  lemma {:induction false} NamedIsNeeded(c: XorCode, mp: seq<nat>, l: seq<nat>, j: nat, x: nat)
    requires Plain(c, mp, l) && Sized(c) && DataList(c, l) && j < c.m == |c.parityBms| && c.k + j in Needs(c, mp, l)
    requires x < c.k && Bit(c.parityBms[j], x)
    ensures x in Needs(c, mp, l) || x in l
    decreases |l|
  {
    hide *;
    if l == [] { NeedsNothing(c, mp); }
    var pos, p, bm := PlainRepair(c, mp, l);
    NamedBit(bm, c.k, x);
    if j != p {
      NamedBit(bm, c.k, c.k + j);
      NamedIsNeeded(c, mp, Without(l, pos), j, x);
    }
  }

  lemma {:induction false} InputOf(c: XorCode, mp: seq<nat>, x: nat) returns (w: nat)
    requires Sized(c) && ParityList(c, mp) && x in Inputs(c, mp)
    ensures w in mp && c.k <= w < c.k + c.m && |c.parityBms| == c.m && x < c.k && Bit(c.parityBms[w - c.k], x)
  {
    hide Bit;
    var n := |mp| - 1;
    if x in Inputs(c, mp[..n]) { w := InputOf(c, mp[..n], x); } else { w := mp[n]; }
  }

  /** Fragment x tells two code words apart that agree on the rest of what is seen, and differ in one of the lost fragments. */
  ghost predicate Decides(c: XorCode, seen: set<nat>, lost: seq<int>, x: nat) {
    exists a: seq<seq<bv8>>, b: seq<seq<bv8>>, w: nat :: TellsApart(c, seen, lost, x, a, b, w)
  }

  ghost predicate TellsApart(c: XorCode, seen: set<nat>, lost: seq<int>, x: nat, a: seq<seq<bv8>>, b: seq<seq<bv8>>, w: nat) {
    && IsXorCodeword(c, 1, a) && IsXorCodeword(c, 1, b)
    && (forall y: nat :: y in seen && y != x && y < c.k + c.m ==> a[y] == b[y])
    && w in lost && w < c.k + c.m && a[w] != b[w]
  }

  /** Marks that nothing else shows tell the code word from zero. */
  lemma MarksDecide(c: XorCode, seen: set<nat>, lost: seq<int>, x: nat, s: set<nat>, w: nat)
    requires Sized(c) && |c.parityBms| == c.m && Silent(c, seen, s, x) && w in lost && w < c.k + c.m && ValueAt(c, s, w) != 0
    ensures Decides(c, seen, lost, x)
  {
    hide ValueAt, IsXorCodeword;
    var a, b := Word(c, s), Word(c, {});
    WordIsCodeword(c, s);
    WordIsCodeword(c, {});
    forall y: nat | y < c.k + c.m ensures ValueAt(c, {}, y) == 0 { ZeroValue(c, y); }
    assert TellsApart(c, seen, lost, x, a, b, w);
  }

  lemma ZeroValue(c: XorCode, y: nat)
    requires y < c.k + |c.parityBms|
    ensures ValueAt(c, {}, y) == 0
  {
    hide Bit, Sum;
    if y >= c.k { SumNone(c.parityBms[y - c.k], {}, c.k); }
  }

  lemma OneMark(c: XorCode, mp: seq<nat>, l: seq<nat>, x: nat, w: nat)
    requires Plain(c, mp, l) && Sized(c) && DataList(c, l) && ParityList(c, mp) && |c.parityBms| == c.m
    requires x !in Needs(c, mp, l) && x !in l && x < c.k && c.k <= w < c.k + c.m && Bit(c.parityBms[w - c.k], x)
    ensures Silent(c, Needs(c, mp, l) + (Inputs(c, mp) - Members(l)), {x}, x) && ValueAt(c, {x}, w) != 0
  {
    hide *;
    InputsBelow(c, mp);
    forall y: nat | y in Needs(c, mp, l) + (Inputs(c, mp) - Members(l)) && y != x && y < c.k + c.m ensures ValueAt(c, {x}, y) == 0 {
      ValueIs(c, {x}, y);
      if y >= c.k {
        if Bit(c.parityBms[y - c.k], x) { NamedIsNeeded(c, mp, l, y - c.k, x); }
        SumNone(c.parityBms[y - c.k], {x}, c.k);
      }
    }
    SilentMeans(c, Needs(c, mp, l) + (Inputs(c, mp) - Members(l)), {x}, x);
    SumNone(c.parityBms[w - c.k], {}, c.k);
    SumAdd(c.parityBms[w - c.k], {}, x, c.k);
    assert {} + {x} == {x};
    ValueIs(c, {x}, w);
  }

  /** Marks of the list and of x show in no other input either. */
  lemma WithInputs(c: XorCode, mp: seq<nat>, l: seq<nat>, s: set<nat>, x: nat)
    requires Sized(c) && DataList(c, l) && ParityList(c, mp) && |c.parityBms| == c.m && Silent(c, Needs(c, mp, l), s, x)
    requires forall i :: i in s ==> i in l || (i == x && x < c.k)
    ensures Silent(c, Needs(c, mp, l) + (Inputs(c, mp) - Members(l)), s, x)
  {
    hide *;
    InputsBelow(c, mp);
    SilentMeans(c, Needs(c, mp, l), s, x);
    forall y: nat | y in Inputs(c, mp) - Members(l) && y != x && y < c.k + c.m ensures ValueAt(c, s, y) == 0 { ValueIs(c, s, y); }
    SilentMeans(c, Needs(c, mp, l) + (Inputs(c, mp) - Members(l)), s, x);
  }

  lemma InputsBelow(c: XorCode, mp: seq<nat>)
    requires Sized(c) && ParityList(c, mp)
    ensures forall i :: i in Inputs(c, mp) ==> i < c.k
  {
  }

  lemma NeededIs(c: XorCode, missingIdxs: seq<int>)
    requires Sized(c) && MissingList(missingIdxs, c.k + c.m)
    ensures DataList(c, LostData(c, missingIdxs)) && ParityList(c, LostParity(c, missingIdxs))
    ensures Needed(c, missingIdxs, true)
      == Needs(c, LostParity(c, missingIdxs), LostData(c, missingIdxs)) + (Inputs(c, LostParity(c, missingIdxs)) - Members(LostData(c, missingIdxs)))
  {
    hide LostData, LostParity, Needs, Inputs;
  }

  lemma LostPlain(c: XorCode, missingIdxs: seq<int>)
    requires ValidCode(c) && MissingList(missingIdxs, c.k + c.m) && |missingIdxs| <= c.hd && !NeedsSum(c, missingIdxs)
    ensures Plain(c, LostParity(c, missingIdxs), LostData(c, missingIdxs)) && Sized(c) && |c.parityBms| == c.m
  {
    hide LostData, LostParity, FirstRepairable, FewLosses;
    FewLost(c, missingIdxs);
  }

  /** Nothing that is needed for undoing the losses can be dropped. */
  lemma NeededMinimal(c: XorCode, missingIdxs: seq<int>, x: nat)
    requires ValidCode(c) && MissingList(missingIdxs, c.k + c.m) && |missingIdxs| <= c.hd && !NeedsSum(c, missingIdxs)
    requires x in Needed(c, missingIdxs, true)
    ensures Decides(c, Needed(c, missingIdxs, true), missingIdxs, x)
  {
    hide *;
    SizedOf(c);
    LostPlain(c, missingIdxs);
    NeededIs(c, missingIdxs);
    var l, mp := LostData(c, missingIdxs), LostParity(c, missingIdxs);
    InputsBelow(c, mp);
    var s, w;
    if x in Needs(c, mp, l) {
      s, w := NeedsMinimal(c, mp, l, x);
      WithInputs(c, mp, l, s, x);
      ValueIs(c, s, w);
    } else {
      w := InputOf(c, mp, x);
      s := {x};
      OneMark(c, mp, l, x, w);
    }
    LostMembers(c, missingIdxs, w);
    MarksDecide(c, Needed(c, missingIdxs, true), missingIdxs, x, s, w);
  }

  lemma LocalIs(c: XorCode, d: nat, j: nat, y: nat)
    requires d < c.k && j < c.m == |c.parityBms|
    ensures y in LocalNeeds(c, d, j) ==> y < c.k + c.m && y != d && (y == c.k + j || (y < c.k && Bit(c.parityBms[j], y)))
  {
    hide Bit;
  }

  lemma LocalMinimal(c: XorCode, d: nat, j: nat, lost: seq<int>, x: nat)
    requires Sized(c) && d < c.k && j < c.m == |c.parityBms| && Bit(c.parityBms[j], d) && d in lost && x in LocalNeeds(c, d, j)
    ensures Decides(c, LocalNeeds(c, d, j), lost, x)
  {
    hide *;
    LocalIs(c, d, j, x);
    var s := First(c, d, x);
    FirstMembers(c, d, x, [d]);
    if x < c.k { FirstCancels(c, c.parityBms[j], d, x); }
    forall y: nat | y in LocalNeeds(c, d, j) && y != x && y < c.k + c.m ensures ValueAt(c, s, y) == 0 {
      LocalIs(c, d, j, y);
      ValueIs(c, s, y);
    }
    SilentMeans(c, LocalNeeds(c, d, j), s, x);
    ValueIs(c, s, d);
    MarksDecide(c, LocalNeeds(c, d, j), lost, x, s, d);
  }

  lemma ListNotEmpty(missing: seq<int>, n: nat)
    requires MissingList(missing, n)
    ensures |missing| > 0
  {
  }

  lemma LocalConnects(c: XorCode, toReconstruct: seq<int>, toExclude: seq<int>)
    requires ValidCode(c) && MissingList(toReconstruct, c.k + c.m) && MissingList(toExclude, c.k + c.m)
    requires LocalParity(c, toReconstruct, toExclude) >= 0
    ensures Sized(c) && 0 <= toReconstruct[0] < c.k && toReconstruct[0] in toReconstruct
    ensures LocalParity(c, toReconstruct, toExclude) < c.m == |c.parityBms|
    ensures Bit(c.parityBms[LocalParity(c, toReconstruct, toExclude)], toReconstruct[0])
  {
    hide Bit, Seen, LostData, LostParity, Column;
  }

  lemma AnswerIs(c: XorCode, toReconstruct: seq<int>, toExclude: seq<int>)
    requires Sized(c) && MissingList(toReconstruct, c.k + c.m) && MissingList(toExclude, c.k + c.m)
    requires MissingList(Joined(toReconstruct, toExclude), c.k + c.m)
    ensures var j := LocalParity(c, toReconstruct, toExclude);
      if j >= 0 then 0 <= toReconstruct[0] && j < |c.parityBms| && Answer(c, toReconstruct, toExclude) == LocalNeeds(c, toReconstruct[0], j)
      else Answer(c, toReconstruct, toExclude) == Needed(c, Joined(toReconstruct, toExclude), true)
  {
    hide Needed, LocalNeeds, LostData, LostParity, FirstConnected;
  }

  /** No fragment of the answer can be dropped: without it there are two code words that agree on the rest of the answer and
      differ in a fragment to be rebuilt, or, where the request is served by the decoder, an excluded one. */
  lemma AnswerMinimal(c: XorCode, toReconstruct: seq<int>, toExclude: seq<int>, x: nat)
    requires ValidCode(c) && MissingList(toReconstruct, c.k + c.m) && MissingList(toExclude, c.k + c.m)
    requires MissingList(Joined(toReconstruct, toExclude), c.k + c.m)
    requires LocalParity(c, toReconstruct, toExclude) < 0 ==>
      |Joined(toReconstruct, toExclude)| <= c.hd && !NeedsSum(c, Joined(toReconstruct, toExclude))
    requires x in Answer(c, toReconstruct, toExclude)
    ensures Decides(c, Answer(c, toReconstruct, toExclude),
      if LocalParity(c, toReconstruct, toExclude) >= 0 then toReconstruct else Joined(toReconstruct, toExclude), x)
  {
    hide *;
    SizedOf(c);
    AnswerIs(c, toReconstruct, toExclude);
    var j := LocalParity(c, toReconstruct, toExclude);
    if j >= 0 {
      LocalConnects(c, toReconstruct, toExclude);
      LocalMinimal(c, toReconstruct[0], j, toReconstruct, x);
    } else {
      ListNotEmpty(toReconstruct, c.k + c.m);
      NeededMinimal(c, Joined(toReconstruct, toExclude), x);
    }
  }
}
