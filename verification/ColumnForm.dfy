/** Column operations as a change of basis: every column of a matrix as a combination of the columns it started from. */
module ColumnForm {
  import opened Fields
  import opened Vectors
  import opened Mds
  import opened Polynomials
  import opened MatrixOps
  import opened GaussJordan

  /** Column j of cur is the combination of the original columns that t[j] spells out. */
  ghost predicate Combines<F(!new)>(f: Field<F>, orig: Matrix<F>, cur: Matrix<F>, t: Matrix<F>, k: nat) {
    && Shape(orig, |cur|, k) && Shape(cur, |cur|, k) && Shape(t, k, k)
    && forall r, j :: 0 <= r < |cur| && 0 <= j < k ==> cur[r][j] == Dot(f, orig[r], t[j], k)
  }

  /** The first i combinations use the first i columns only; the others add just their own column to these. */
  ghost predicate Triangular<F>(f: Field<F>, t: Matrix<F>, k: nat, i: nat) {
    && Shape(t, k, k)
    && forall j, c :: 0 <= j < k && i <= c < k ==> t[j][c] == if j == c then f.one else f.zero
  }

  lemma CombinesStart<F(!new)>(f: Field<F>, rows: Matrix<F>, k: nat)
    requires IsField(f) && Shape(rows, |rows|, k)
    ensures Combines(f, rows, rows, Identity(f, k), k) && Triangular(f, Identity(f, k), k, 0)
  {
    var t := Identity(f, k);
    forall r, j | 0 <= r < |rows| && 0 <= j < k ensures rows[r][j] == Dot(f, rows[r], t[j], k) {
      DotUnit(f, t[j], rows[r], k, j);
    }
  }

  lemma CombinesScale<F(!new)>(f: Field<F>, orig: Matrix<F>, cur: Matrix<F>, t: Matrix<F>, k: nat, i: nat, e: F)
    requires IsField(f) && Combines(f, orig, cur, t, k) && i < k
    ensures Combines(f, orig, ScaleColAll(f, cur, e, i, 0, |cur|), t[i := Scaled(f, t[i], e)], k)
  {
    hide IsField, Dot;
    var cur', t' := ScaleColAll(f, cur, e, i, 0, |cur|), t[i := Scaled(f, t[i], e)];
    forall r, j | 0 <= r < |cur| && 0 <= j < k ensures cur'[r][j] == Dot(f, orig[r], t'[j], k) {
      DotComm(f, orig[r], t'[j], k);
      DotComm(f, orig[r], t[j], k);
      if j == i {
        DotScaled(f, t[i], e, orig[r]);
        MulComm(f, cur[r][i], e);
      }
    }
  }

  lemma CombinesAdd<F(!new)>(f: Field<F>, orig: Matrix<F>, cur: Matrix<F>, t: Matrix<F>, k: nat, i: nat, to: nat, e: F)
    requires IsField(f) && Combines(f, orig, cur, t, k) && i < k && to < k
    ensures Combines(f, orig, AddColAll(f, cur, e, i, to), t[to := AddScaled(f, t[to], e, t[i])], k)
  {
    hide IsField, Dot;
    var cur', t' := AddColAll(f, cur, e, i, to), t[to := AddScaled(f, t[to], e, t[i])];
    forall r, j | 0 <= r < |cur| && 0 <= j < k ensures cur'[r][j] == Dot(f, orig[r], t'[j], k) {
      DotComm(f, orig[r], t'[j], k);
      DotComm(f, orig[r], t[j], k);
      if j == to {
        DotComm(f, orig[r], t[i], k);
        DotAddScaled(f, t[to], e, t[i], orig[r]);
        MulComm(f, cur[r][i], e);
      }
    }
  }

  lemma TriangularNext<F>(f: Field<F>, t: Matrix<F>, k: nat, i: nat)
    requires Triangular(f, t, k, i)
    ensures Triangular(f, t, k, i + 1)
  {
  }

  /** Scaling combination i does not touch what comes after column i. */
  lemma TriangularScale<F(!new)>(f: Field<F>, t: Matrix<F>, k: nat, i: nat, e: F)
    requires IsField(f) && Triangular(f, t, k, i + 1) && i < k
    ensures Triangular(f, t[i := Scaled(f, t[i], e)], k, i + 1)
  {
    MulZero(f, e);
  }

  lemma TriangularAdd<F(!new)>(f: Field<F>, t: Matrix<F>, k: nat, i: nat, to: nat, e: F)
    requires IsField(f) && Triangular(f, t, k, i + 1) && i < k && to < k && to != i
    ensures Triangular(f, t[to := AddScaled(f, t[to], e, t[i])], k, i + 1)
  {
    hide IsField;
    var t' := t[to := AddScaled(f, t[to], e, t[i])];
    MulZero(f, e);
    forall c | i + 1 <= c < k ensures t'[to][c] == t[to][c] { AddZero(f, t[to][c]); }
  }

  /** A combination of the first n columns, with a one on top, is a polynomial with fewer than n roots. */
  lemma FirstCoefficients<F(!new)>(f: Field<F>, rows: Matrix<F>, points: seq<F>, k: nat, v: seq<F>, n: nat)
    requires IsField(f) && IsVandermonde(f, rows, points, k) && Distinct(points)
    requires 1 <= n <= k && n <= |points| && |v| == k && v[n - 1] == f.one && forall c :: n <= c < k ==> v[c] == f.zero
    ensures exists r :: 0 <= r < n && Dot(f, rows[r], v, k) != f.zero
  {
    hide Pow;
    var low, w := seq(|points|, r requires 0 <= r < |points| => Powers(f, points[r], n)), v[..n];
    VandermondeIndependent(f, low, points, n);
    assert !IsZero(f, w) by { assert w[n - 1] == f.one; }
    hide Dot, IsField;
    if forall r :: 0 <= r < n ==> Dot(f, rows[r], v, k) == f.zero {
      forall r | r in UpTo(n) ensures r in ZeroRows(f, low, w) { ShortDot(f, rows[r], low[r], v, w, k, n); }
      SubsetCard(UpTo(n), ZeroRows(f, low, w));
    }
  }

  lemma ShortDot<F(!new)>(f: Field<F>, a: seq<F>, a': seq<F>, v: seq<F>, w: seq<F>, k: nat, n: nat)
    requires IsField(f) && n <= k == |a| == |v| && |a'| == |w| == n
    requires (forall c :: 0 <= c < n ==> a[c] == a'[c] && v[c] == w[c]) && forall c :: n <= c < k ==> v[c] == f.zero
    ensures Dot(f, a, v, k) == Dot(f, a', w, n)
  {
    DotTail(f, a, v, n, k);
    DotCong(f, a, v, a', w, n);
  }

  /** With i rows done the next diagonal entry is not zero, so that no other row is ever looked for. */
  lemma PivotInPlace<F(!new)>(f: Field<F>, rows: Matrix<F>, points: seq<F>, cur: Matrix<F>, t: Matrix<F>, k: nat, i: nat)
    requires IsField(f) && IsVandermonde(f, rows, points, k) && Distinct(points) && |points| == |cur|
    requires Combines(f, rows, cur, t, k) && Triangular(f, t, k, i) && i < k <= |cur|
    requires forall r :: 0 <= r < i ==> cur[r] == Unit(f, k, r)
    ensures cur[i][i] != f.zero
  {
    hide IsVandermonde, Distinct, IsField, Dot;
    FirstCoefficients(f, rows, points, k, t[i], i + 1);
    var r :| 0 <= r < i + 1 && Dot(f, rows[r], t[i], k) != f.zero;
    assert cur[r][i] == Dot(f, rows[r], t[i], k);
  }

  // ----- the quotient by the first rows

  /** The columns as rows. */
  ghost function Transpose<F>(t: Matrix<F>, k: nat): (r: Matrix<F>)
    requires Shape(t, k, k)
    ensures Shape(r, k, k) && forall j :: 0 <= j < k ==> Column(r, j) == t[j]
  {
    var r := seq(k, i requires 0 <= i < k => seq(k, j requires 0 <= j < k => t[j][i]));
    assert forall j :: 0 <= j < k ==> Column(r, j) == t[j];
    r
  }

  /** Once the first k rows are the identity, the combinations are the inverse of the original first k rows. */
  lemma CombinesInverse<F(!new)>(f: Field<F>, orig: Matrix<F>, cur: Matrix<F>, t: Matrix<F>, k: nat)
    requires IsField(f) && Combines(f, orig, cur, t, k) && k <= |cur| && forall r :: 0 <= r < k ==> cur[r] == Unit(f, k, r)
    ensures Inverts(f, orig[..k], Transpose(t, k), k)
  {
    hide IsField, Dot;
    var top, inv := orig[..k], Transpose(t, k);
    var p, id := Product(f, top, inv, k), Identity(f, k);
    forall r | 0 <= r < k ensures p[r] == id[r] {
      forall j | 0 <= j < k ensures p[r][j] == id[r][j] { assert cur[r][j] == Dot(f, orig[r], t[j], k); }
    }
    InvertsProduct(f, top, inv, k);
  }

  /** Below the identity: each row is its original one, divided by the first k, and each column scaled by a nonzero factor. */
  ghost predicate ScaledQuotient<F(!new)>(f: Field<F>, orig: Matrix<F>, rows: Matrix<F>, inv: Matrix<F>, scale: seq<F>, k: nat) {
    && k <= |rows| && Shape(orig, |rows|, k) && Shape(rows, |rows|, k) && |scale| == k
    && Inverts(f, orig[..k], inv, k)
    && (forall j :: 0 <= j < k ==> scale[j] != f.zero)
    && forall r, j :: k <= r < |rows| && 0 <= j < k ==> rows[r][j] == f.Mul(Dot(f, orig[r], Column(inv, j), k), scale[j])
  }

  /** There is only one inverse. */
  lemma SameInverse<F(!new)>(f: Field<F>, top: Matrix<F>, inv: Matrix<F>, inv': Matrix<F>, k: nat, j: nat)
    requires IsField(f) && TrivialKernel(f, top, k) && Inverts(f, top, inv, k) && Inverts(f, top, inv', k) && j < k
    ensures Column(inv, j) == Column(inv', j)
  {
    hide IsField, Dot;
    InvertsProduct(f, top, inv, k);
    InvertsProduct(f, top, inv', k);
    var a, b := Column(inv, j), Column(inv', j);
    var d := AddScaled(f, a, f.one, b);
    forall r | 0 <= r < k ensures Dot(f, top[r], d, k) == f.zero {
      SumOfEqual(f, top[r], a, b, k);
      assert Product(f, top, inv, k)[r][j] == Product(f, top, inv', k)[r][j];
    }
    assert Orthogonal(f, top, d);
    forall c | 0 <= c < k ensures a[c] == b[c] {
      MulOne(f, b[c]);
      SumZero(f, a[c], b[c]);
    }
  }

  lemma SumOfEqual<F(!new)>(f: Field<F>, row: seq<F>, a: seq<F>, b: seq<F>, k: nat)
    requires IsField(f) && |row| == |a| == |b| == k
    ensures Dot(f, row, a, k) == Dot(f, row, b, k) ==> Dot(f, row, AddScaled(f, a, f.one, b), k) == f.zero
  {
    hide IsField, Dot;
    var d := AddScaled(f, a, f.one, b);
    DotComm(f, row, d, k);
    DotComm(f, row, a, k);
    DotComm(f, row, b, k);
    DotAddScaled(f, a, f.one, b, row);
    MulOne(f, Dot(f, b, row, k));
    AddSelf(f, Dot(f, b, row, k));
  }

  /** The factors are fixed by any row of ones below. */
  lemma SameFactor<F(!new)>(f: Field<F>, q: F, c: F, c': F)
    requires IsField(f) && f.Mul(q, c) == f.one == f.Mul(q, c')
    ensures c == c'
  {
    hide IsField;
    MulOne(f, c);
    MulOne(f, c');
    MulAssoc(f, c, q, c');
    MulComm(f, c, q);
  }

  /** Such a quotient with a row of ones is determined by the original rows. */
  lemma QuotientUnique<F(!new)>(f: Field<F>, orig: Matrix<F>, rows: Matrix<F>, rows': Matrix<F>,
      inv: Matrix<F>, inv': Matrix<F>, scale: seq<F>, scale': seq<F>, k: nat, r: nat, j: nat)
    requires IsField(f) && ScaledQuotient(f, orig, rows, inv, scale, k) && ScaledQuotient(f, orig, rows', inv', scale', k)
    requires TrivialKernel(f, orig[..k], k) && k < |rows| == |rows'| && k <= r < |rows| && j < k
    requires rows[k][j] == f.one == rows'[k][j]
    ensures rows[r][j] == rows'[r][j]
  {
    hide IsField, Dot, TrivialKernel;
    SameInverse(f, orig[..k], inv, inv', k, j);
    SameFactor(f, Dot(f, orig[k], Column(inv, j), k), scale[j], scale'[j]);
  }
}
