/** Which LRC matrices keep the promise that any r + 1 losses can be undone. */
module LrcTolerance {
  import opened Fields
  import opened Vectors
  import opened Mds
  import opened Erasures
  import opened IsaL
  import opened LrcMatrix
  import opened LrcSelection
  import opened LrcDecodeMatrix
  import opened Lrc

  /** The promise: every set of at most r + 1 losses is solvable. */
  ghost predicate Tolerates(f: Field<bv8>, gen: Matrix<bv8>, k: nat, m: nat, l: nat) {
    l <= m && forall miss: set<nat> :: miss <= UpTo(k + m) && |miss| <= m - l + 1 ==> Solvable(f, gen, k, m, l, miss)
  }

  lemma {:induction false} SomeSubset(s: set<nat>, n: nat) returns (t: set<nat>)
    requires n <= |s|
    ensures t <= s && |t| == n
    decreases |s|
  {
    t := s;
    if n < |s| {
      var x :| x in s;
      t := SomeSubset(s - {x}, n);
    }
  }

  lemma SplitOff(s: set<nat>, u: set<nat>, n: nat)
    requires s <= u + {n} && n !in u
    ensures (u - s) * u == u - s && |u - s| == |u| - (if n in s then |s| - 1 else |s|)
  {
    var kept := s * u;
    assert u == (u - s) + kept;
    assert s == if n in s then kept + {n} else kept;
  }

  /** What is lost if of the first n + 1 rows just those of s are to be left. */
  ghost function Others(n: nat, s: set<nat>): (miss: set<nat>)
    ensures miss <= UpTo(n) && forall i: nat :: i in miss <==> i < n && i !in s
  {
    UpTo(n) - s
  }

  lemma CountOthers(s: set<nat>, n: nat)
    requires s <= UpTo(n + 1)
    ensures |Others(n, s) * UpTo(n)| == |Others(n, s)| == n - (if n in s then |s| - 1 else |s|)
  {
    hide UpTo;
    UpToSnoc(n);
    SplitOff(s, UpTo(n), n);
  }

  lemma NoneAbove(k: nat, m: nat, l: nat, s: set<nat>)
    requires l <= m
    ensures NoLocalMissing(k, m, l, Others(k + m - l, s))
  {
    hide Others;
  }

  /** With these losses the rows picked are all that is left, and the sum of the local parities if s asks for it. */
  lemma SelectionAfter(k: nat, m: nat, l: nat, s: set<nat>)
    requires 0 < l <= k && l <= m && s <= UpTo(k + m - l + 1) && |s| == k
    ensures var miss := Others(k + m - l, s);
      && |miss| <= m - l + 1 && |Selection(k, m, l, miss)| == k
      && Selection(k, m, l, miss) == Available(miss, k + m - l) + if k + m - l in s then [k + m] else []
  {
    hide *;
    var n, miss := k + m - l, Others(k + m - l, s);
    CountOthers(s, n);
    AvailableCount(miss, n);
    NoneAbove(k, m, l, s);
    var a := Available(miss, n);
    SelectionIs(k, m, l, miss, |a|);
    assert a[..|a|] == a;
  }

  /** Index x of the selection stands for a row of s. */
  ghost predicate Stands(k: nat, m: nat, l: nat, s: set<nat>, x: nat)
    requires l <= m
  {
    if x == k + m then k + m - l in s else x < k + m - l && x in s
  }

  /** Losing all of the family but the rows of s makes the decoder pick just the rows of s. */
  lemma LosingOthers(k: nat, m: nat, l: nat, s: set<nat>)
    requires 0 < l <= k && l <= m && s <= UpTo(k + m - l + 1) && |s| == k
    ensures var miss := Others(k + m - l, s);
      && miss <= UpTo(k + m) && |miss| <= m - l + 1 && |Selection(k, m, l, miss)| == k
      && forall i :: 0 <= i < k ==> Stands(k, m, l, s, Selection(k, m, l, miss)[i])
  {
    hide *;
    var n, miss := k + m - l, Others(k + m - l, s);
    SelectionAfter(k, m, l, s);
    var a, sel := Available(miss, n), Selection(k, m, l, miss);
    forall i | 0 <= i < k ensures Stands(k, m, l, s, sel[i]) {
      if i < |a| { LeftStands(k, m, l, s, a[i]); } else { SumStands(k, m, l, s); }
    }
  }

  lemma LeftStands(k: nat, m: nat, l: nat, s: set<nat>, x: nat)
    requires l <= m && x < k + m - l && x !in Others(k + m - l, s)
    ensures Stands(k, m, l, s, x)
  {
  }

  lemma SumStands(k: nat, m: nat, l: nat, s: set<nat>)
    requires l <= m && k + m - l in s
    ensures Stands(k, m, l, s, k + m)
  {
  }

  /** A vector orthogonal to k rows of the family is orthogonal to all the rows that are picked then. */
  lemma PickedOrthogonal(f: Field<bv8>, gen: Matrix<bv8>, k: nat, m: nat, l: nat, v: seq<bv8>, sel: seq<nat>)
    requires 0 < l <= k && l <= m && Shape(gen, k + m, k) && |v| == k && Indices(sel, k + m + 1)
    requires forall i :: 0 <= i < |sel| ==> Stands(k, m, l, ZeroRows(f, Family(gen, k, m, l), v), sel[i])
    ensures Orthogonal(f, Select(WithCombined(gen, k, m, l), sel), v)
  {
    hide Dot, CombinedRow;
    var fam, rows := Family(gen, k, m, l), Select(WithCombined(gen, k, m, l), sel);
    forall i | 0 <= i < |sel| ensures Dot(f, rows[i], v, k) == f.zero {
      var x := sel[i];
      assert rows[i] == if x == k + m then fam[k + m - l] else fam[x];
    }
  }

  /** Rows of the family that share an orthogonal vector, left alone, are not enough. */
  lemma DependentUnsolvable(f: Field<bv8>, gen: Matrix<bv8>, k: nat, m: nat, l: nat, v: seq<bv8>, s: set<nat>)
    requires 0 < l <= k && l <= m && Shape(gen, k + m, k) && |v| == k && !IsZero(f, v)
    requires s <= ZeroRows(f, Family(gen, k, m, l), v) && |s| == k
    ensures var miss := Others(k + m - l, s);
      miss <= UpTo(k + m) && |miss| <= m - l + 1 && |Selection(k, m, l, miss)| == k && !Solvable(f, gen, k, m, l, miss)
  {
    hide Dot, Selection, CombinedRow, Orthogonal, IsZero, Family, WithCombined;
    LosingOthers(k, m, l, s);
    PickedOrthogonal(f, gen, k, m, l, v, Selection(k, m, l, Others(k + m - l, s)));
  }

  /** A matrix with identity on top and local rows inside their groups keeps the promise exactly if its family of data,
      global parities and the sum of the local ones is independent. */
  lemma TolerantIffGenerator(f: Field<bv8>, gen: Matrix<bv8>, k: nat, m: nat, l: nat)
    requires IsLrcMatrix(f, gen, k, m, l)
    ensures Tolerates(f, gen, k, m, l) <==> IsLrcGenerator(f, gen, k, m, l)
  {
    hide Solvable, Family, LocalOnly, ZeroRows, Others;
    if IsLrcGenerator(f, gen, k, m, l) {
      forall miss: set<nat> | miss <= UpTo(k + m) && |miss| <= m - l + 1 ensures Solvable(f, gen, k, m, l, miss) {
        FewLossesSolvable(f, gen, k, m, l, miss);
      }
    } else {
      var fam := Family(gen, k, m, l);
      var v: seq<bv8> :| |v| == k && !IsZero(f, v) && |ZeroRows(f, fam, v)| >= k;
      var s := SomeSubset(ZeroRows(f, fam, v), k);
      DependentUnsolvable(f, gen, k, m, l, v, s);
    }
  }

  /** The code that is built keeps the promise exactly if the field has room for its k + r + 1 points. */
  lemma BuiltTolerance(f: Field<bv8>, matrix: Matrix<bv8>, k: nat, m: nat, l: nat)
    requires IsByteField(f) && IsBuilt(f, matrix, k, m, l)
    ensures Tolerates(f, matrix, k, m, l) <==> k + (m - l) + 1 <= 255
  {
    hide *;
    BuiltGenerator(f, matrix, k, m, l);
    TolerantIffGenerator(f, matrix, k, m, l);
  }

  /** Of the shapes that start-up accepts, the promise fails exactly for 256 fragments with a single local parity. */
  lemma AcceptedTolerance(f: Field<bv8>, matrix: Matrix<bv8>, k: nat, m: nat, l: nat)
    requires IsByteField(f) && IsBuilt(f, matrix, k, m, l) && k + m <= 256
    ensures Tolerates(f, matrix, k, m, l) <==> !(k + m == 256 && l == 1)
  {
    BuiltTolerance(f, matrix, k, m, l);
    hide Tolerates;
  }

  /** Without that room: the losses after which row 255, which repeats row 0, and the data but for fragment 1 are left. */
  ghost function RepeatedLosses(k: nat, m: nat, l: nat): set<nat>
    requires l <= m
  {
    Others(k + m - l, RowsLeft(k))
  }

  lemma RepeatedLossesAre(k: nat, m: nat, l: nat)
    requires 2 <= k <= 255 && l <= m && k + (m - l) >= 255
    ensures forall i: nat :: i in RepeatedLosses(k, m, l) <==> i < k + m - l && i != 255 && (i == 1 || i >= k)
    ensures |RepeatedLosses(k, m, l)| == if k + m - l == 255 then m - l + 1 else m - l
  {
    hide UpTo, Others, RowsLeft;
    RepeatedCount(k);
    CountOthers(RowsLeft(k), k + m - l);
  }

  lemma RepeatedUnsolvable(f: Field<bv8>, matrix: Matrix<bv8>, k: nat, m: nat, l: nat)
    requires IsByteField(f) && IsBuilt(f, matrix, k, m, l) && k + (m - l) >= 255
    ensures var miss := RepeatedLosses(k, m, l);
      miss <= UpTo(k + m) && |miss| <= m - l + 1 && |Selection(k, m, l, miss)| == k && !Solvable(f, matrix, k, m, l, miss)
  {
    BuiltRepeats(f, matrix, k, m, l);
    hide *;
    DependentUnsolvable(f, matrix, k, m, l, Unit(f, k, 1), RowsLeft(k));
    RepeatedLossesAre(k, m, l);
  }

  /** The largest stripe the library allows, 256 fragments, with one local parity: losing data fragment 1 and the 127
      global parities is r + 1 losses that cannot be undone. */
  lemma LargestStripe(f: Field<bv8>, matrix: Matrix<bv8>)
    requires IsByteField(f) && IsBuilt(f, matrix, 128, 128, 1)
    ensures var miss := RepeatedLosses(128, 128, 1);
      && (forall i: nat :: i in miss <==> i == 1 || 128 <= i < 255)
      && |miss| == 128 && !Solvable(f, matrix, 128, 128, 1, miss)
  {
    hide *;
    RepeatedUnsolvable(f, matrix, 128, 128, 1);
    RepeatedLossesAre(128, 128, 1);
  }
}
