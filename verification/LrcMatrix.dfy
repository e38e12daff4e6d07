/** The encoding matrix of the LRC code: r global parities and l local ones, whose sum is one further row
    of the same independent family. */
module LrcMatrix {
  import opened Fields
  import opened Vectors
  import opened Mds
  import opened Polynomials
  import opened MatrixOps
  import opened GaussJordan
  import opened Systematic
  import opened LocalGroups
  import opened Bytes
  import opened IsaL

  /** The sum of the local parity rows: in each group, the row of its local parity. */
  ghost function CombinedRow(rows: Matrix<bv8>, k: nat, m: nat, l: nat): (c: seq<bv8>)
    requires 0 < l <= k && l <= m && Shape(rows, k + m, k)
    ensures |c| == k
    ensures forall j :: 0 <= j < k ==>
      0 <= LocalGroupForData(k, l, j) < l && c[j] == rows[k + m - l + LocalGroupForData(k, l, j)][j]
  {
    AllGrouped(k, l);
    seq(k, j requires 0 <= j < k => rows[k + m - l + LocalGroupForData(k, l, j)][j])
  }

  lemma AllGrouped(k: nat, l: nat)
    requires 0 < l <= k
    ensures forall j :: 0 <= j < k ==> 0 <= LocalGroupForData(k, l, j) < l
  {
    hide LocalGroupForData;
    forall j | 0 <= j < k ensures 0 <= LocalGroupForData(k, l, j) < l { GroupsTile(k, l, j, 0); }
  }

  /** Data, global parities and the sum of the local parities. */
  ghost function Family(rows: Matrix<bv8>, k: nat, m: nat, l: nat): (fam: Matrix<bv8>)
    requires 0 < l <= k && l <= m && Shape(rows, k + m, k)
    ensures Shape(fam, k + m - l + 1, k)
  {
    rows[..k + m - l] + [CombinedRow(rows, k, m, l)]
  }

  /** Local parity v has no coefficient outside its group. */
  ghost predicate LocalOnly(f: Field<bv8>, rows: Matrix<bv8>, k: nat, m: nat, l: nat)
    requires 0 < l <= k && l <= m && Shape(rows, k + m, k)
  {
    forall v: nat, j: nat :: v < l && j < k && !InGroup(k, l, v, j) ==> rows[k + m - l + v][j] == f.zero
  }

  /** Identity on top, and local rows inside their groups. */
  ghost predicate IsLrcMatrix(f: Field<bv8>, rows: Matrix<bv8>, k: nat, m: nat, l: nat) {
    && 0 < l <= k && l <= m && Shape(rows, k + m, k)
    && IdentityOnTop(f, rows, k, k)
    && LocalOnly(f, rows, k, m, l)
  }

  /** Such a matrix with an independent family. */
  ghost predicate IsLrcGenerator(f: Field<bv8>, rows: Matrix<bv8>, k: nat, m: nat, l: nat) {
    IsLrcMatrix(f, rows, k, m, l) && AnyRowsIndependent(f, Family(rows, k, m, l), k)
  }

  // ----- dividing by the first rows

  /** Each row of rows is the same row of vand times the inverse of vand's first k rows. */
  ghost predicate IsQuotient(f: Field<bv8>, vand: Matrix<bv8>, inv: Matrix<bv8>, rows: Matrix<bv8>, k: nat) {
    && Shape(vand, |rows|, k) && Shape(rows, |rows|, k) && Shape(inv, k, k) && k <= |rows|
    && (forall i :: 0 <= i < k ==> rows[i] == Unit(f, k, i))
    && (forall i :: k <= i < |rows| ==> rows[i] == RowTimes(f, vand[i], inv, k, k))
  }

  lemma QuotientForm(f: Field<bv8>, vand: Matrix<bv8>, inv: Matrix<bv8>, rows: Matrix<bv8>, k: nat, i: nat, w: seq<bv8>)
    requires IsField(f) && IsQuotient(f, vand, inv, rows, k) && i < |rows| && |w| == k
    requires Inverts(f, vand[..k], inv, k)
    ensures Dot(f, rows[i], w, k) == Dot(f, vand[i], Apply(f, inv, w), k)
  {
    if i < k {
      DotUnit(f, rows[i], w, k, i);
      assert Apply(f, vand[..k], Apply(f, inv, w))[i] == w[i];
    } else {
      RowTimesApply(f, vand[i], inv, k, k, w);
    }
  }

  /** Dividing by the first k rows keeps any k rows independent. */
  lemma QuotientIndependent(f: Field<bv8>, vand: Matrix<bv8>, inv: Matrix<bv8>, rows: Matrix<bv8>, k: nat)
    requires IsField(f) && IsQuotient(f, vand, inv, rows, k) && AnyRowsIndependent(f, vand, k)
    requires Inverts(f, vand[..k], inv, k) && Inverts(f, inv, vand[..k], k)
    ensures AnyRowsIndependent(f, rows, k)
  {
    forall w: seq<bv8> | |w| == k && !IsZero(f, w) ensures |ZeroRows(f, rows, w)| < k {
      var v := Apply(f, inv, w);
      if IsZero(f, v) {
        assert Apply(f, vand[..k], v) == w;
        forall i | 0 <= i < k ensures w[i] == f.zero { DotZeroLeft(f, vand[i], v, k); }
      }
      forall i | 0 <= i < |rows| ensures Dot(f, rows[i], w, k) == Dot(f, vand[i], v, k) {
        QuotientForm(f, vand, inv, rows, k, i, w);
      }
      assert ZeroRows(f, rows, w) == ZeroRows(f, vand, v);
    }
  }

  // ----- building it

  /** The exponent of 2 that is the point of row i; all local rows share the last one. */
  function PointExponent(i: nat, last: nat): nat { if i < last then i + 1 else last + 1 }

  ghost function VandermondeRows(f: Field<bv8>, k: nat, n: nat, last: nat): (rows: Matrix<bv8>)
    ensures Shape(rows, n, k) && forall i :: 0 <= i < n ==> rows[i] == Powers(f, Pow(f, 2, PointExponent(i, last)), k)
  {
    seq(n, i requires 0 <= i < n => Powers(f, Pow(f, 2, PointExponent(i, last)), k))
  }

  method BuildVandermonde(f: Field<bv8>, k: nat, n: nat, last: nat) returns (tmp: array2<bv8>)
    requires IsByteField(f) && 1 <= k
    ensures fresh(tmp) && tmp.Length0 == n && tmp.Length1 == k
    ensures Rows(tmp) == VandermondeRows(f, k, n, last)
  {
    FieldOf(f);
    FirstPower(f);
    hide Powers, IsByteField, IsField, PointExponent, VandermondeRows;
    ghost var vand := VandermondeRows(f, k, n, last);
    tmp := new bv8[n, k];
    var gen: bv8 := 2;
    NextExponent(0, last);
    for i := 0 to n
      invariant gen == Pow(f, 2, PointExponent(i, last))
      invariant Rows(tmp)[..i] == vand[..i]
    {
      ghost var before := Rows(tmp);
      FillPowers(f, tmp, gen, i);
      NextExponent(i, last);
      assert vand[i] == Powers(f, gen, k);
      RowsStep(before, vand, i);
      if i < last {
        gen := f.Mul(gen, 2);
      }
    }
    assert Rows(tmp) == vand;
  }

  lemma NextExponent(i: nat, last: nat)
    ensures PointExponent(0, last) == 1
    ensures PointExponent(i + 1, last) == if i < last then PointExponent(i, last) + 1 else PointExponent(i, last)
  {
  }

  lemma RowsStep(before: Matrix<bv8>, vand: Matrix<bv8>, i: nat)
    requires i < |before| == |vand| && before[..i] == vand[..i]
    ensures before[i := vand[i]][..i + 1] == vand[..i + 1]
  {
    assert before[i := vand[i]][..i + 1] == before[..i] + [vand[i]];
  }

  lemma FirstPower(f: Field<bv8>)
    requires IsByteField(f)
    ensures Pow(f, 2, 1) == 2
  {
    MulOne(f, 2);
    assert Pow(f, 2, 0) == f.one;
  }

  /** Writes row i: the row of tmp times the inverse. */
  method MultiplyRow(f: Field<bv8>, tmp: array2<bv8>, inv: Matrix<bv8>, matrix: array2<bv8>, i: nat, k: nat)
    requires IsByteField(f) && tmp != matrix && i < tmp.Length0 == matrix.Length0 && tmp.Length1 == matrix.Length1 == k && Shape(inv, k, k)
    modifies matrix
    ensures Rows(matrix) == old(Rows(matrix))[i := RowTimes(f, Row(tmp, i), inv, k, k)]
  {
    hide IsByteField;
    ghost var rows, row := Rows(matrix), RowTimes(f, Row(tmp, i), inv, k, k);
    ghost var vand := Rows(tmp);
    for j := 0 to k
      invariant Rows(tmp) == vand
      invariant forall c :: 0 <= c < j ==> matrix[i, c] == row[c]
      invariant forall r, c :: 0 <= r < matrix.Length0 && 0 <= c < k && r != i ==> matrix[r, c] == rows[r][c]
    {
      var p := RowByColumn(f, tmp, inv, i, j, k);
      matrix[i, j] := p;
    }
    SameRows(matrix, rows[i := row]);
  }

  /** The identity in the first k rows, zeros below. */
  method IdentityRows(matrix: array2<bv8>, k: nat, f: Field<bv8>)
    requires IsByteField(f) && k <= matrix.Length0 && matrix.Length1 == k
    modifies matrix
    ensures forall i :: 0 <= i < k ==> Rows(matrix)[i] == Unit(f, k, i)
  {
    var n := matrix.Length0;
    forall i, j | 0 <= i < n && 0 <= j < k { matrix[i, j] := 0; }
    for i := 0 to k
      invariant forall r, c :: 0 <= r < k && 0 <= c < k ==> matrix[r, c] == if r == c && r < i then 1 else 0
    {
      matrix[i, i] := 1;
    }
    forall i | 0 <= i < k ensures Rows(matrix)[i] == Unit(f, k, i) { SameRow(matrix, i, Unit(f, k, i)); }
  }

  /** Identity rows, then each row of tmp times the inverse. */
  method MultiplyRows(f: Field<bv8>, tmp: array2<bv8>, inv: Matrix<bv8>, matrix: array2<bv8>, k: nat, n: nat)
    requires IsByteField(f) && tmp != matrix && tmp.Length0 == matrix.Length0 == n && tmp.Length1 == matrix.Length1 == k <= n && Shape(inv, k, k)
    modifies matrix
    ensures IsQuotient(f, Rows(tmp), inv, Rows(matrix), k)
  {
    hide IsByteField, RowTimes, Unit;
    IdentityRows(matrix, k, f);
    ghost var vand := Rows(tmp);
    for i := k to n
      invariant Rows(tmp) == vand
      invariant forall r :: 0 <= r < k ==> Rows(matrix)[r] == Unit(f, k, r)
      invariant forall r :: k <= r < i ==> Rows(matrix)[r] == RowTimes(f, vand[r], inv, k, k)
    {
      MultiplyRow(f, tmp, inv, matrix, i, k);
    }
  }

  method RowByColumn(f: Field<bv8>, tmp: array2<bv8>, inv: Matrix<bv8>, i: nat, j: nat, k: nat) returns (p: bv8)
    requires IsByteField(f) && i < tmp.Length0 && tmp.Length1 == k && Shape(inv, k, k) && j < k
    ensures p == Dot(f, Rows(tmp)[i], Column(inv, j), k)
  {
    p := 0;
    for u := 0 to k
      invariant p == Dot(f, Rows(tmp)[i], Column(inv, j), u)
    {
      assert f.Add(p, f.Mul(tmp[i, u], inv[u][j])) == XorByte(p, f.Mul(tmp[i, u], inv[u][j]));
      p := XorByte(p, f.Mul(tmp[i, u], inv[u][j]));
    }
  }

  /** The rows with the coefficients of local rows outside their groups cleared. */
  ghost function Localized(rows: Matrix<bv8>, k: nat, m: nat, l: nat): (r: Matrix<bv8>)
    requires 0 < l <= m && Shape(rows, k + m, k)
    ensures Shape(r, k + m, k)
    ensures forall i, j :: 0 <= i < k + m && 0 <= j < k ==>
      r[i][j] == if i >= k + m - l && !InGroup(k, l, i - (k + m - l), j) then 0 else rows[i][j]
  {
    seq(k + m, i requires 0 <= i < k + m => seq(k, j requires 0 <= j < k =>
      if i >= k + m - l && !InGroup(k, l, i - (k + m - l), j) then 0 else rows[i][j]))
  }

  method ClearOutside(matrix: array2<bv8>, k: nat, m: nat, l: nat)
    requires 0 < l <= m && matrix.Length0 == k + m && matrix.Length1 == k
    modifies matrix
    ensures Rows(matrix) == Localized(old(Rows(matrix)), k, m, l)
  {
    hide LocalGroupDataLower, LocalGroupSize;
    ghost var rows := Rows(matrix);
    var groupOffset := 0;
    GroupEnds(k, l);
    for i := 0 to l
      invariant groupOffset == LocalGroupDataLower(k, l, i)
      invariant forall r, c :: 0 <= r < k + m && 0 <= c < k ==>
        matrix[r, c] == if k + m - l <= r < k + m - l + i && !InGroup(k, l, r - (k + m - l), c) then 0 else rows[r][c]
    {
      var fragNum := k + m - l + i;
      var groupSize := LocalGroupSize(k, l, i);
      GroupStep(k, l, i);
      for j := 0 to k
        invariant forall r, c :: 0 <= r < k + m && 0 <= c < k ==>
          matrix[r, c] == if (k + m - l <= r < fragNum || (r == fragNum && c < j)) && !InGroup(k, l, r - (k + m - l), c) then 0 else rows[r][c]
      {
        if j < groupOffset || j >= groupOffset + groupSize {
          matrix[fragNum, j] := 0;
        }
      }
      groupOffset := groupOffset + groupSize;
    }
    SameRows(matrix, Localized(rows, k, m, l));
  }

  lemma DistinctPoints(f: Field<bv8>, points: seq<bv8>)
    requires IsByteField(f) && |points| <= 255
    requires forall i :: 0 <= i < |points| ==> points[i] == Pow(f, 2, i + 1)
    ensures Distinct(points)
  {
    forall i, j | 0 <= i < j < |points| ensures points[i] != points[j] {
      assert Pow(f, 2, i + 1) != Pow(f, 2, j + 1);
    }
  }

  /** As long as there are points left, the first rows are independent. */
  lemma PointsIndependent(f: Field<bv8>, k: nat, n: nat, last: nat, count: nat)
    requires IsByteField(f) && count <= last + 1 && count <= n && count <= 255
    ensures AnyRowsIndependent(f, VandermondeRows(f, k, n, last)[..count], k)
  {
    hide Powers, Pow;
    var points := seq(count, i requires 0 <= i < count => Pow(f, 2, i + 1));
    DistinctPoints(f, points);
    VandermondeIndependent(f, VandermondeRows(f, k, n, last)[..count], points, k);
  }

  lemma FirstRowsInvertible(f: Field<bv8>, rows: Matrix<bv8>, k: nat, count: nat)
    requires k <= count <= |rows| && Shape(rows, |rows|, k) && AnyRowsIndependent(f, rows[..count], k)
    ensures TrivialKernel(f, rows[..k], k)
  {
    var idx: seq<nat> := seq(k, i => i);
    SelectionIndependent(f, rows[..count], k, idx);
    assert Select(rows[..count], idx) == rows[..k];
  }

  /** The localized rows have as family the rows before they were localized. */
  lemma LocalizedFamily(f: Field<bv8>, vand: Matrix<bv8>, inv: Matrix<bv8>, rows: Matrix<bv8>, k: nat, m: nat, l: nat)
    requires 0 < l <= k && l <= m && IsQuotient(f, vand, inv, rows, k) && |rows| == k + m
    requires forall i :: k + m - l <= i < k + m ==> vand[i] == vand[k + m - l]
    ensures Family(Localized(rows, k, m, l), k, m, l) == rows[..k + m - l + 1]
  {
    var fam, loc := Family(Localized(rows, k, m, l), k, m, l), Localized(rows, k, m, l);
    forall i | 0 <= i < k + m - l ensures fam[i] == rows[i] {
      assert fam[i] == loc[i];
    }
    var c := CombinedRow(loc, k, m, l);
    forall j | 0 <= j < k ensures c[j] == rows[k + m - l][j] {
      GroupsTile(k, l, j, LocalGroupForData(k, l, j));
    }
    assert fam[k + m - l] == c == rows[k + m - l];
  }

  /** With one point more, the last is the first again. */
  lemma RepeatedPoint(f: Field<bv8>, k: nat, n: nat, last: nat)
    requires IsByteField(f) && 255 <= last < n
    ensures VandermondeRows(f, k, n, last)[255] == VandermondeRows(f, k, n, last)[0]
  {
    hide Powers;
    assert Pow(f, 2, 256) == f.Mul(Pow(f, 2, 255), 2);
    assert Pow(f, 2, 1) == f.Mul(Pow(f, 2, 0), 2);
  }

  /** More than 255 rows with the first repeated have no inverse. */
  lemma RepeatedSingular(f: Field<bv8>, rows: Matrix<bv8>, inv: Matrix<bv8>, k: nat)
    requires IsField(f) && k > 255 && Shape(rows, k, k) && rows[255] == rows[0]
    ensures !Inverts(f, rows, inv, k)
  {
    hide Dot;
    if Shape(inv, k, k) {
      var e := Unit(f, k, 0);
      var w := Apply(f, rows, Apply(f, inv, e));
      assert w[255] == w[0] && e[255] != e[0];
    }
  }

  lemma SameValueTwice(f: Field<bv8>, vand: Matrix<bv8>, inv: Matrix<bv8>, rows: Matrix<bv8>, k: nat, w: seq<bv8>)
    requires IsField(f) && IsQuotient(f, vand, inv, rows, k) && Inverts(f, vand[..k], inv, k)
    requires |rows| > 255 && vand[255] == vand[0] && |w| == k
    ensures Dot(f, rows[255], w, k) == Dot(f, rows[0], w, k)
  {
    hide Inverts, Dot;
    QuotientForm(f, vand, inv, rows, k, 0, w);
    QuotientForm(f, vand, inv, rows, k, 255, w);
  }

  /** All unit rows but the second, and the row that repeats the first. */
  ghost function RowsLeft(k: nat): (s: set<nat>)
    ensures forall i: nat :: i in s <==> (i < k && i != 1) || i == 255
  {
    UpTo(k) - {1} + {255}
  }

  /** Then the second basis vector is orthogonal to all of these. */
  lemma RepeatedZeros(f: Field<bv8>, vand: Matrix<bv8>, inv: Matrix<bv8>, rows: Matrix<bv8>, k: nat, count: nat)
    requires IsField(f) && IsQuotient(f, vand, inv, rows, k) && Inverts(f, vand[..k], inv, k)
    requires 2 <= k <= 255 < count <= |rows| && vand[255] == vand[0]
    ensures RowsLeft(k) <= ZeroRows(f, rows[..count], Unit(f, k, 1))
  {
    var w := Unit(f, k, 1);
    SameValueTwice(f, vand, inv, rows, k, w);
    hide IsQuotient, Inverts, Dot;
    var z := ZeroRows(f, rows[..count], w);
    forall i | i in RowsLeft(k) && i != 255 ensures i in z {
      UnitRow(f, vand, inv, rows, k, i);
      DotUnit(f, w, rows[i], k, 1);
    }
    assert rows[0] == Unit(f, k, 0) by { UnitRow(f, vand, inv, rows, k, 0); }
    DotUnit(f, w, rows[0], k, 1);
  }

  lemma RepeatedCount(k: nat)
    requires 2 <= k <= 255
    ensures |RowsLeft(k)| == k
  {
  }

  lemma RepeatedDependent(f: Field<bv8>, rows: Matrix<bv8>, k: nat, count: nat)
    requires IsField(f) && 2 <= k <= 255 && count <= |rows| && Shape(rows, |rows|, k)
    requires RowsLeft(k) <= ZeroRows(f, rows[..count], Unit(f, k, 1))
    ensures !AnyRowsIndependent(f, rows[..count], k)
  {
    hide Dot;
    var w := Unit(f, k, 1);
    assert w[1] != f.zero;
    RepeatedCount(k);
    SubsetCard(RowsLeft(k), ZeroRows(f, rows[..count], w));
  }

  lemma UnitRow(f: Field<bv8>, vand: Matrix<bv8>, inv: Matrix<bv8>, rows: Matrix<bv8>, k: nat, i: nat)
    requires IsQuotient(f, vand, inv, rows, k) && i < k
    ensures k <= |rows| && rows[i] == Unit(f, k, i) && |rows[i]| == k
  {
  }

  // ----- what is built

  /** The quotient of the points' powers by their first k rows, and that its inverse is one. */
  ghost predicate DividesOut(f: Field<bv8>, inv: Matrix<bv8>, rows: Matrix<bv8>, k: nat, m: nat, l: nat)
    requires l <= m
  {
    var vand := VandermondeRows(f, k, k + m, k + m - l);
    && |rows| == k + m && IsQuotient(f, vand, inv, rows, k)
    && Inverts(f, vand[..k], inv, k) && Inverts(f, inv, vand[..k], k)
  }

  /** That quotient with the local rows confined to their groups. */
  ghost predicate IsBuilt(f: Field<bv8>, matrix: Matrix<bv8>, k: nat, m: nat, l: nat) {
    && 0 < l <= m && 2 * l <= k
    && exists inv: Matrix<bv8>, rows: Matrix<bv8> :: DividesOut(f, inv, rows, k, m, l) && matrix == Localized(rows, k, m, l)
  }

  /** Local rows are made from one and the same point. */
  lemma LocalPoint(f: Field<bv8>, k: nat, m: nat, l: nat)
    requires 0 < l <= m
    ensures var vand := VandermondeRows(f, k, k + m, k + m - l);
      forall i :: k + m - l <= i < k + m ==> vand[i] == vand[k + m - l]
  {
    hide Powers, Pow;
  }

  lemma LocalizedMatrix(f: Field<bv8>, inv: Matrix<bv8>, rows: Matrix<bv8>, k: nat, m: nat, l: nat)
    requires IsByteField(f) && 0 < l <= m && l <= k && DividesOut(f, inv, rows, k, m, l)
    ensures IsLrcMatrix(f, Localized(rows, k, m, l), k, m, l)
    ensures Family(Localized(rows, k, m, l), k, m, l) == rows[..k + m - l + 1]
  {
    hide InGroup, LocalGroupForData, Inverts, Family, VandermondeRows;
    LocalPoint(f, k, m, l);
    LocalizedFamily(f, VandermondeRows(f, k, k + m, k + m - l), inv, rows, k, m, l);
    var loc := Localized(rows, k, m, l);
    forall i | 0 <= i < k ensures loc[i] == Unit(f, k, i) {
      assert loc[i] == rows[i];
    }
  }

  /** There are at most 255 data fragments. */
  lemma BuiltSize(f: Field<bv8>, inv: Matrix<bv8>, rows: Matrix<bv8>, k: nat, m: nat, l: nat)
    requires IsByteField(f) && 0 < l <= m && DividesOut(f, inv, rows, k, m, l)
    ensures k <= 255
  {
    hide Inverts, VandermondeRows, IsQuotient, IsByteField;
    FieldOf(f);
    if k > 255 {
      var vand := VandermondeRows(f, k, k + m, k + m - l);
      RepeatedPoint(f, k, k + m, k + m - l);
      RepeatedSingular(f, vand[..k], inv, k);
    }
  }

  /** Without room for all the points, the rows of the family that are orthogonal to the second basis vector. */
  lemma RepeatedRows(f: Field<bv8>, inv: Matrix<bv8>, rows: Matrix<bv8>, k: nat, m: nat, l: nat)
    requires IsByteField(f) && 0 < l <= m && 2 * l <= k && DividesOut(f, inv, rows, k, m, l) && k + (m - l) >= 255
    ensures k <= 255 && RowsLeft(k) <= ZeroRows(f, rows[..k + m - l + 1], Unit(f, k, 1))
  {
    hide Inverts, VandermondeRows, IsByteField, ZeroRows;
    FieldOf(f);
    BuiltSize(f, inv, rows, k, m, l);
    RepeatedPoint(f, k, k + m, k + m - l);
    RepeatedZeros(f, VandermondeRows(f, k, k + m, k + m - l), inv, rows, k, k + m - l + 1);
  }

  lemma FamilyIndependent(f: Field<bv8>, inv: Matrix<bv8>, rows: Matrix<bv8>, k: nat, m: nat, l: nat)
    requires IsByteField(f) && 0 < l <= m && 2 * l <= k && DividesOut(f, inv, rows, k, m, l)
    ensures AnyRowsIndependent(f, rows[..k + m - l + 1], k) <==> k + (m - l) + 1 <= 255
  {
    hide AnyRowsIndependent, Inverts, VandermondeRows, IsByteField;
    FieldOf(f);
    BuiltSize(f, inv, rows, k, m, l);
    var vand, c := VandermondeRows(f, k, k + m, k + m - l), k + m - l + 1;
    if c <= 255 {
      PointsIndependent(f, k, k + m, k + m - l, c);
      assert vand[..c][..k] == vand[..k];
      assert IsQuotient(f, vand[..c], inv, rows[..c], k);
      QuotientIndependent(f, vand[..c], inv, rows[..c], k);
    } else {
      RepeatedRows(f, inv, rows, k, m, l);
      RepeatedDependent(f, rows, k, c);
    }
  }

  /** What is built is always a systematic matrix with confined local rows. It is a generator exactly if the field has
      room for its k + r + 1 points. */
  lemma BuiltGenerator(f: Field<bv8>, matrix: Matrix<bv8>, k: nat, m: nat, l: nat)
    requires IsByteField(f) && IsBuilt(f, matrix, k, m, l)
    ensures IsLrcMatrix(f, matrix, k, m, l)
    ensures IsLrcGenerator(f, matrix, k, m, l) <==> k + (m - l) + 1 <= 255
  {
    hide IsLrcMatrix, AnyRowsIndependent, Localized, Family, IsByteField, VandermondeRows, Inverts;
    var inv, rows :| DividesOut(f, inv, rows, k, m, l) && matrix == Localized(rows, k, m, l);
    LocalizedMatrix(f, inv, rows, k, m, l);
    FamilyIndependent(f, inv, rows, k, m, l);
  }

  /** The first k points are always different, as long as there are that many. */
  lemma TopInvertible(isa: IsaL, k: nat, m: nat, l: nat)
    requires Contract(isa) && 1 <= l <= m && k >= 1
    ensures var top := VandermondeRows(isa.f, k, k + m, k + m - l)[..k];
      && Shape(top, k, k) && (k <= 255 ==> isa.invert(top, k).Inverse?)
      && (isa.invert(top, k).Inverse? ==> var inv := isa.invert(top, k).rows; Inverts(isa.f, top, inv, k) && Inverts(isa.f, inv, top, k))
  {
    hide VandermondeRows, Inverts, IsByteField, AnyRowsIndependent, TrivialKernel;
    var vand := VandermondeRows(isa.f, k, k + m, k + m - l);
    ContractField(isa);
    hide Contract;
    Invertible(isa, vand[..k], k);
    if k <= 255 {
      PointsIndependent(isa.f, k, k + m, k + m - l, k);
      FirstRowsInvertible(isa.f, vand, k, k);
    }
  }

  lemma BuiltFrom(f: Field<bv8>, inv: Matrix<bv8>, rows: Matrix<bv8>, k: nat, m: nat, l: nat)
    requires IsByteField(f) && 0 < l <= m && 2 * l <= k && |rows| == k + m
    requires var vand := VandermondeRows(f, k, k + m, k + m - l);
      IsQuotient(f, vand, inv, rows, k) && Inverts(f, vand[..k], inv, k) && Inverts(f, inv, vand[..k], k)
    ensures k <= 255 && IsBuilt(f, Localized(rows, k, m, l), k, m, l)
  {
    hide VandermondeRows, Inverts, IsByteField;
    assert DividesOut(f, inv, rows, k, m, l);
    BuiltSize(f, inv, rows, k, m, l);
  }

  lemma BuiltRepeats(f: Field<bv8>, matrix: Matrix<bv8>, k: nat, m: nat, l: nat)
    requires IsByteField(f) && IsBuilt(f, matrix, k, m, l) && k + (m - l) >= 255
    ensures 0 < l <= m && 2 <= k <= 255 && l <= k && Shape(matrix, k + m, k)
    ensures RowsLeft(k) <= ZeroRows(f, Family(matrix, k, m, l), Unit(f, k, 1))
    ensures !IsZero(f, Unit(f, k, 1)) && |RowsLeft(k)| == k
  {
    hide IsLrcMatrix, Localized, Family, IsByteField, VandermondeRows, Inverts, ZeroRows;
    var inv, rows :| DividesOut(f, inv, rows, k, m, l) && matrix == Localized(rows, k, m, l);
    FieldOf(f);
    LocalizedMatrix(f, inv, rows, k, m, l);
    RepeatedRows(f, inv, rows, k, m, l);
    RepeatedCount(k);
    assert Unit(f, k, 1)[1] != f.zero;
  }

  /** Builds the matrix; fails exactly with more than 255 data fragments. */
  method GenEncodingMatrix(isa: IsaL, k: nat, m: nat, l: nat) returns (ret: int, matrix: array2<bv8>)
    requires Contract(isa) && 1 <= l <= m && 2 * l <= k
    ensures fresh(matrix) && matrix.Length0 == k + m && matrix.Length1 == k
    ensures ret == if k <= 255 then 0 else 1
    ensures ret == 0 ==> IsBuilt(isa.f, Rows(matrix), k, m, l) && IsLrcMatrix(isa.f, Rows(matrix), k, m, l)
    ensures ret == 0 && IsLrcGenerator(isa.f, Rows(matrix), k, m, l) <==> k + (m - l) + 1 <= 255
  {
    hide *;
    ContractField(isa);
    var n, r := m + k, m - l;
    matrix := new bv8[n, k];
    ret := 1;
    var tmp := BuildVandermonde(isa.f, k, n, k + r);
    TopInvertible(isa, k, m, l);
    var inverse := isa.invert(Rows(tmp)[..k], k);
    if inverse.Singular? {
      return;
    }
    InvertsShape(isa.f, Rows(tmp)[..k], inverse.rows, k);
    MultiplyRows(isa.f, tmp, inverse.rows, matrix, k, n);
    ghost var rows := Rows(matrix);
    ClearOutside(matrix, k, m, l);
    ret := 0;
    BuiltFrom(isa.f, inverse.rows, rows, k, m, l);
    BuiltGenerator(isa.f, Rows(matrix), k, m, l);
  }
}
