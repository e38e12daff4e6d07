/** Which parity repairs which missing data fragment, in which order, and from which fragments.

    A repair reads some parities, adds the data fragments named by a bitmap and so obtains one missing
    fragment. Below hd losses there always is a next repair, and no repair reads a lost fragment.
 */
module XorRepair {
  import opened Bitmaps
  import opened Mds
  import opened XorCode
  import opened XorLists

  datatype Repair = Stuck | Repair(pos: nat, p: nat, q: nat, bm: bv32)

  /** The parities that a repair adds up: one, or two when p and q differ. */
  ghost function Parities(c: XorCode, r: Repair): set<nat>
    requires r.Repair?
  {
    {c.k + r.p, c.k + r.q}
  }

  /** Everything that a repair of data fragment d reads. */
  ghost function Sources(c: XorCode, r: Repair, d: nat): set<nat>
    requires r.Repair?
  {
    Parities(c, r) + (BitsBelow(r.bm, c.k) - {d})
  }

  ghost predicate DataList(c: XorCode, l: seq<nat>) {
    Distinct(l) && forall i :: 0 <= i < |l| ==> l[i] < c.k
  }

  ghost predicate ParityList(c: XorCode, mp: seq<nat>) {
    Distinct(mp) && forall i :: 0 <= i < |mp| ==> c.k <= mp[i] < c.k + c.m
  }

  /** The first listed fragment from position i on that some parity sees alone, or the length of the list. */
  ghost function FirstRepairable(c: XorCode, mp: seq<nat>, l: seq<nat>, i: nat): (r: nat)
    requires Sized(c) && DataList(c, l) && i <= |l|
    ensures i <= r <= |l|
    ensures r < |l| ==> FirstConnected(c, l[r], mp, l, 0) >= 0
    ensures forall x :: i <= x < r ==> FirstConnected(c, l[x], mp, l, 0) < 0
    decreases |l| - i
  {
    if i == |l| then i else if FirstConnected(c, l[i], mp, l, 0) >= 0 then i else FirstRepairable(c, mp, l, i + 1)
  }

  /** The first of n parities, from j on, that sees exactly w of the listed fragments, or -1. */
  ghost function FirstSeeing(c: XorCode, l: seq<nat>, w: nat, j: nat, n: nat): (r: int)
    requires Sized(c) && DataList(c, l) && j <= n <= c.m
    ensures r == -1 || (j <= r < n && Seen(c, l, r) == w)
    ensures r == -1 ==> forall i :: j <= i < n ==> Seen(c, l, i) != w
    decreases n - j
  {
    if j == n then -1 else if Seen(c, l, j) == w then j else FirstSeeing(c, l, w, j + 1, n)
  }

  /** The first position from i on whose fragment the bitmap names, or the length of the list. */
  ghost function FirstNamed(bm: bv32, l: seq<nat>, i: nat): (r: nat)
    requires i <= |l|
    ensures i <= r <= |l|
    ensures r < |l| ==> Bit(bm, l[r])
    ensures forall x :: i <= x < r ==> !Bit(bm, l[x])
    decreases |l| - i
  {
    if i == |l| then i else if Bit(bm, l[i]) then i else FirstNamed(bm, l, i + 1)
  }

  /** A parity that sees one missing fragment, or else the sum of one that sees two and one that sees three. */
  ghost function NextRepair(c: XorCode, mp: seq<nat>, l: seq<nat>): Repair
    requires Sized(c) && DataList(c, l)
  {
    var pos := FirstRepairable(c, mp, l, 0);
    if pos < |l| then
      var j := FirstConnected(c, l[pos], mp, l, 0);
      Repair(pos, j, j, c.parityBms[j])
    else if |l| == 3 then
      var p, q := FirstSeeing(c, l, 2, 0, c.m), FirstSeeing(c, l, 3, 0, c.m);
      if p < 0 || q < 0 then Stuck
      else
        var bm := Xor32(c.parityBms[p], c.parityBms[q]);
        var named := FirstNamed(bm, l, 0);
        if named == |l| then Stuck else Repair(named, p, q, bm)
    else Stuck
  }

  /** The repair reads no lost fragment and obtains exactly one. */
  ghost predicate Usable(c: XorCode, mp: seq<nat>, l: seq<nat>, r: Repair) {
    && r.Repair? && r.pos < |l| && r.p < c.m && r.q < c.m
    && |c.parityBms| == c.m
    && r.bm == (if r.p == r.q then c.parityBms[r.p] else Xor32(c.parityBms[r.p], c.parityBms[r.q]))
    && c.k + r.p !in mp && c.k + r.q !in mp
    && (forall i :: 0 <= i < |l| ==> (Bit(r.bm, l[i]) <==> i == r.pos))
  }

  /** The fragments that repairing the whole list reads, other than those repaired on the way. */
  ghost function Needs(c: XorCode, mp: seq<nat>, l: seq<nat>): (s: set<nat>)
    requires Sized(c) && DataList(c, l)
    decreases |l|
  {
    var r := NextRepair(c, mp, l);
    if l == [] || r.Stuck? || r.pos >= |l| then {}
    else
      WithoutList(c, l, r.pos);
      Sources(c, r, l[r.pos]) + (Needs(c, mp, Without(l, r.pos)) - {l[r.pos]})
  }

  lemma WithoutList(c: XorCode, l: seq<nat>, i: nat)
    requires DataList(c, l) && i < |l|
    ensures DataList(c, Without(l, i))
    ensures forall x :: x in Without(l, i) <==> x in l && x != l[i]
  {
    var w := Without(l, i);
    forall x | x in l && x != l[i] ensures x in w {
      var p :| 0 <= p < |l| && l[p] == x;
      assert w[if p < i then p else p - 1] == x;
    }
  }

  // ----- counting what a parity sees

  lemma {:induction false} SeenOnce(c: XorCode, l: seq<nat>, j: nat, a: nat)
    requires Sized(c) && DataList(c, l) && a < |l| && Bit(c.dataBms[l[a]], j)
    ensures Seen(c, l, j) >= 1
  {
    hide Bit;
    var n := |l| - 1;
    if a < n { assert l[..n][a] == l[a]; SeenOnce(c, l[..n], j, a); }
  }

  lemma {:induction false} SeenTwice(c: XorCode, l: seq<nat>, j: nat, a: nat, b: nat)
    requires Sized(c) && DataList(c, l) && a < b < |l| && Bit(c.dataBms[l[a]], j) && Bit(c.dataBms[l[b]], j)
    ensures Seen(c, l, j) >= 2
  {
    hide Bit;
    var n := |l| - 1;
    assert l[..n][a] == l[a];
    if b < n { assert l[..n][b] == l[b]; SeenTwice(c, l[..n], j, a, b); } else { SeenOnce(c, l[..n], j, a); }
  }

  /** With a transposed code, a connected parity names one missing fragment only. */
  lemma ConnectedNamesOne(c: XorCode, mp: seq<nat>, l: seq<nat>, pos: nat, j: nat)
    requires Sized(c) && Transposed(c) && DataList(c, l) && pos < |l| && j < c.m && Connects(c, l[pos], mp, l, j)
    ensures forall i :: 0 <= i < |l| ==> (Bit(c.parityBms[j], l[i]) <==> i == pos)
  {
    hide Bit, Seen;
    forall i | 0 <= i < |l| && i != pos ensures !Bit(c.parityBms[j], l[i]) {
      if Bit(c.dataBms[l[i]], j) {
        if i < pos { SeenTwice(c, l, j, i, pos); } else { SeenTwice(c, l, j, pos, i); }
      }
    }
  }

  lemma SeenOfOne(c: XorCode, l: seq<nat>, j: nat)
    requires Sized(c) && DataList(c, l) && |l| == 1 && j < c.m
    ensures Seen(c, l, j) <= 1
  {
  }

  lemma SeenOfTwo(c: XorCode, l: seq<nat>, j: nat)
    requires Sized(c) && DataList(c, l) && |l| == 2 && j < c.m
    ensures Seen(c, l, j) == (if j in Column(c, l[0]) then 1 else 0) + (if j in Column(c, l[1]) then 1 else 0)
  {
    hide Bit;
    var l1 := l[..1];
    assert l1[..0] == [] && l1[0] == l[0] && l[..1] == l1;
  }

  lemma SeenOfThree(c: XorCode, l: seq<nat>, j: nat)
    requires Sized(c) && DataList(c, l) && |l| == 3 && j < c.m
    ensures Seen(c, l, j) == (if j in Column(c, l[0]) then 1 else 0) + (if j in Column(c, l[1]) then 1 else 0) + (if j in Column(c, l[2]) then 1 else 0)
  {
    hide Bit;
    SeenOfTwo(c, l[..2], j);
    assert l[..2][0] == l[0] && l[..2][1] == l[1];
  }

  // ----- there is a next repair

  /** The missing parities, counted from 0. */
  ghost function Offsets(c: XorCode, mp: seq<nat>): (s: set<nat>)
    requires forall i :: 0 <= i < |mp| ==> c.k <= mp[i]
    ensures |s| <= |mp| && forall i :: 0 <= i < |mp| ==> mp[i] - c.k in s
  {
    if mp == [] then {} else Offsets(c, mp[..|mp| - 1]) + {mp[|mp| - 1] - c.k}
  }

  /** A parity of this column that is present and sees nothing else makes the fragment repairable. */
  lemma RepairableBy(c: XorCode, mp: seq<nat>, l: seq<nat>, pos: nat, j: nat)
    requires ValidCode(c) && DataList(c, l) && pos < |l|
    requires j in Column(c, l[pos]) && c.k + j !in mp && Seen(c, l, j) <= 1
    ensures FirstRepairable(c, mp, l, 0) < |l|
  {
    hide Bit, Seen;
    assert Connects(c, l[pos], mp, l, j);
  }

  lemma OneRepairable(c: XorCode, mp: seq<nat>, l: seq<nat>)
    requires ValidCode(c) && DataList(c, l) && ParityList(c, mp) && |l| == 1 && |mp| <= c.hd - 2
    ensures FirstRepairable(c, mp, l, 0) < |l|
  {
    hide Bit, Seen;
    var col, gone := Column(c, l[0]), Offsets(c, mp);
    if col <= gone { SubsetCard(col, gone); }
    var j :| j in col && j !in gone;
    SeenOfOne(c, l, j);
    RepairableBy(c, mp, l, 0, j);
  }

  lemma Differs(a: set<nat>, b: set<nat>)
    requires |a| == |b| && a != b
    ensures exists x :: x in a && x !in b
  {
    SubsetOfSameSize(a, b);
  }

  lemma SubsetOfSameSize(a: set<nat>, b: set<nat>)
    ensures a <= b && |a| == |b| ==> a == b
  {
    if a <= b { assert b == a + (b - a); }
  }

  lemma PairCard(s: set<nat>, a: nat, b: nat)
    ensures a != b && a in s && b in s ==> |s| >= 2
  {
    if a != b && a in s && b in s { SubsetCard({a, b}, s); }
  }

  lemma DifferentColumns(c: XorCode, a: nat, b: nat)
    requires ValidCode(c) && a < c.k && b < c.k && a != b
    ensures Column(c, a) != Column(c, b) && |Column(c, a)| == |Column(c, b)| == c.hd - 1
  {
    hide Bit;
    if a < b { assert Column(c, a) != Column(c, b); } else { assert Column(c, b) != Column(c, a); }
  }

  lemma TwoRepairable(c: XorCode, mp: seq<nat>, l: seq<nat>)
    requires ValidCode(c) && DataList(c, l) && ParityList(c, mp) && |l| == 2 && |mp| <= c.hd - 3
    ensures FirstRepairable(c, mp, l, 0) < |l|
  {
    hide Bit, Seen, Column;
    var x, y, gone := Column(c, l[0]), Column(c, l[1]), Offsets(c, mp);
    DifferentColumns(c, l[0], l[1]);
    Differs(x, y);
    Differs(y, x);
    var a :| a in x && a !in y;
    var b :| b in y && b !in x;
    SeenOfTwo(c, l, a);
    SeenOfTwo(c, l, b);
    if a !in gone {
      RepairableBy(c, mp, l, 0, a);
    } else {
      PairCard(gone, a, b);
      RepairableBy(c, mp, l, 1, b);
    }
  }

  /** If every element is in exactly two of the sets, their sizes add up to an even number. */
  lemma PairwiseSum(x: set<nat>, y: set<nat>, z: set<nat>)
    requires x <= y + z && y <= x + z && z <= x + y && forall e :: e in x && e in y ==> e !in z
    ensures |x| + |y| + |z| == 2 * (|x * y| + |x * z| + |y * z|)
  {
    TwoPieces(x, x * y, x * z);
    TwoPieces(y, x * y, y * z);
    TwoPieces(z, x * z, y * z);
  }

  lemma TwoPieces(x: set<nat>, a: set<nat>, b: set<nat>)
    requires (forall e :: e in x <==> e in a || e in b) && a !! b
    ensures |x| == |a| + |b|
  {
    assert x == a + b;
  }

  /** Three sets of three, no element in exactly one of them: some element is in all three, and some in two. */
  lemma ThreeSets(x: set<nat>, y: set<nat>, z: set<nat>)
    requires |x| == |y| == |z| == 3 && x != y
    requires x <= y + z && y <= x + z && z <= x + y
    ensures exists e :: e in x && e in y && e in z
    ensures exists e :: e in x && e !in y && e in z
  {
    if forall e :: e in x && e in y ==> e !in z { PairwiseSum(x, y, z); }
    var t :| t in x && t in y && t in z;
    Differs(x, y);
    var e :| e in x && e !in y;
    assert e in z;
  }

  lemma ThreeSeen(c: XorCode, l: seq<nat>)
    requires ValidCode(c) && DataList(c, l) && |l| == 3 && c.hd == 4
    requires FirstRepairable(c, [], l, 0) == 3
    ensures FirstSeeing(c, l, 2, 0, c.m) >= 0 && FirstSeeing(c, l, 3, 0, c.m) >= 0
  {
    hide Bit, Seen, Column, FirstRepairable, FirstSeeing;
    var x, y, z := Column(c, l[0]), Column(c, l[1]), Column(c, l[2]);
    DifferentColumns(c, l[0], l[1]);
    DifferentColumns(c, l[0], l[2]);
    forall j | j in x + y + z ensures j < c.m && Seen(c, l, j) >= 2 {
      SeenOfThree(c, l, j);
      if Seen(c, l, j) <= 1 {
        RepairableBy(c, [], l, if j in x then 0 else if j in y then 1 else 2, j);
      }
    }
    forall j | j in x + y + z ensures (j in x && j in y) || (j in x && j in z) || (j in y && j in z) { SeenOfThree(c, l, j); }
    ThreeSets(x, y, z);
    var all :| all in x && all in y && all in z;
    var two :| two in x && two !in y && two in z;
    SeenOfThree(c, l, all);
    SeenOfThree(c, l, two);
  }

  /** With q in its column, fragment i is named by the sum exactly when p is not. */
  lemma SumBit(c: XorCode, p: nat, q: nat, i: nat)
    requires ValidCode(c) && p < c.m && q < c.m && i < c.k && q in Column(c, i)
    ensures Bit(Xor32(c.parityBms[p], c.parityBms[q]), i) <==> p !in Column(c, i)
  {
    hide Bit, Xor32;
    BitXor(c.parityBms[p], c.parityBms[q], i);
  }

  /** The sum of a parity that sees two and one that sees three of the missing fragments names just one. */
  lemma SumNamesOne(c: XorCode, l: seq<nat>, p: nat, q: nat)
    requires ValidCode(c) && DataList(c, l) && |l| == 3 && p < c.m && q < c.m
    requires Seen(c, l, p) == 2 && Seen(c, l, q) == 3
    ensures FirstNamed(Xor32(c.parityBms[p], c.parityBms[q]), l, 0) < 3
    ensures forall i :: 0 <= i < 3 ==>
      (Bit(Xor32(c.parityBms[p], c.parityBms[q]), l[i]) <==> i == FirstNamed(Xor32(c.parityBms[p], c.parityBms[q]), l, 0))
  {
    hide Bit, Seen, Xor32, FirstNamed, Column, ValidCode;
    assert Sized(c) by { SizedOf(c); }
    SeenOfThree(c, l, p);
    SeenOfThree(c, l, q);
    SumBit(c, p, q, l[0]);
    SumBit(c, p, q, l[1]);
    SumBit(c, p, q, l[2]);
  }

  lemma SizedOf(c: XorCode)
    requires ValidCode(c)
    ensures Sized(c)
  {
  }

  ghost predicate FewLosses(c: XorCode, mp: seq<nat>, l: seq<nat>) {
    DataList(c, l) && ParityList(c, mp) && |l| + |mp| < c.hd
  }

  /** Below hd losses the next repair exists and reads nothing that is lost. */
  lemma NextRepairUsable(c: XorCode, mp: seq<nat>, l: seq<nat>)
    requires ValidCode(c) && FewLosses(c, mp, l) && l != []
    ensures Usable(c, mp, l, NextRepair(c, mp, l))
  {
    hide Bit, Seen, Xor32, FirstNamed, FirstRepairable, FirstSeeing, FirstConnected;
    if |l| == 1 { OneRepairable(c, mp, l); } else if |l| == 2 { TwoRepairable(c, mp, l); }
    var pos := FirstRepairable(c, mp, l, 0);
    if pos < |l| {
      ConnectedNamesOne(c, mp, l, pos, FirstConnected(c, l[pos], mp, l, 0));
    } else {
      assert mp == [];
      ThreeSeen(c, l);
      SumNamesOne(c, l, FirstSeeing(c, l, 2, 0, c.m), FirstSeeing(c, l, 3, 0, c.m));
    }
  }

  /** The next repair of a single lost data fragment. */
  lemma NextOfOne(c: XorCode, mp: seq<nat>, l: seq<nat>)
    requires ValidCode(c) && FewLosses(c, mp, l) && |l| == 1
    ensures var j := FirstConnected(c, l[0], mp, l, 0); j >= 0 && NextRepair(c, mp, l) == Repair(0, j, j, c.parityBms[j])
  {
    hide Bit, Column, Transposed, FirstConnected;
    OneRepairable(c, mp, l);
  }

  lemma LossesListed(c: XorCode, mp: seq<nat>, l: seq<nat>)
    requires FewLosses(c, mp, l)
    ensures DataList(c, l) && ParityList(c, mp) && forall i :: 0 <= i < |l| ==> l[i] < c.k
  {
  }

  lemma NotNamed(l: seq<nat>, pos: nat, bm: bv32, x: nat)
    requires pos < |l| && forall i :: 0 <= i < |l| ==> (Bit(bm, l[i]) <==> i == pos)
    ensures x in l && x != l[pos] ==> !Bit(bm, x)
  {
  }

  /** Repairing the whole list reads no lost fragment. */
  lemma {:induction false} NeedsPresent(c: XorCode, mp: seq<nat>, l: seq<nat>)
    requires ValidCode(c) && FewLosses(c, mp, l)
    ensures forall x :: x in Needs(c, mp, l) ==> x < c.k + c.m && x !in l && x !in mp
    decreases |l|
  {
    hide Bit, NextRepair;
    if l != [] {
      var r := NextRepair(c, mp, l);
      NextRepairUsable(c, mp, l);
      WithoutList(c, l, r.pos);
      NeedsPresent(c, mp, Without(l, r.pos));
      forall x | x in Sources(c, r, l[r.pos]) ensures x < c.k + c.m && x !in l && x !in mp {
        NotNamed(l, r.pos, r.bm, x);
      }
    }
  }
}
