/** Gauss-Jordan inversion in place, over any field of characteristic 2. */
module GaussJordan {
  import opened Fields
  import opened Vectors
  import opened Mds
  import opened MatrixOps

  /** Each row of cur is the combination of the original rows that the same row of inv spells out:
      inv * orig = cur, stated on every vector. */
  ghost predicate Tracks<F(!new)>(f: Field<F>, orig: Matrix<F>, cur: Matrix<F>, inv: Matrix<F>, n: nat) {
    && Shape(orig, n, n) && Shape(cur, n, n) && Shape(inv, n, n)
    && forall v: seq<F>, r: nat {:trigger At(v, r)} :: At(v, r) && |v| == n && r < n ==>
         Dot(f, cur[r], v, n) == Dot(f, inv[r], Apply(f, orig, v), n)
  }

  /** Always true: names the vector and row at which Tracks is used. */
  ghost predicate At<F>(v: seq<F>, r: nat) { true }

  /** The first i columns are those of the identity. */
  ghost predicate Reduced<F>(f: Field<F>, rows: Matrix<F>, n: nat, i: nat) {
    && Shape(rows, n, n) && i <= n
    && forall r, c :: 0 <= r < n && 0 <= c < i ==> rows[r][c] == if r == c then f.one else f.zero
  }

  function Identity<F>(f: Field<F>, n: nat): (rows: Matrix<F>)
    ensures |rows| == n && forall i :: 0 <= i < n ==> rows[i] == Unit(f, n, i)
  {
    seq(n, i requires 0 <= i < n => Unit(f, n, i))
  }

  function Column<F>(rows: Matrix<F>, j: nat): (c: seq<F>)
    requires forall i :: 0 <= i < |rows| ==> j < |rows[i]|
    ensures |c| == |rows| && forall i :: 0 <= i < |rows| ==> c[i] == rows[i][j]
  {
    seq(|rows|, i requires 0 <= i < |rows| => rows[i][j])
  }

  function Product<F>(f: Field<F>, a: Matrix<F>, b: Matrix<F>, n: nat): (p: Matrix<F>)
    requires Shape(a, n, n) && Shape(b, n, n)
    ensures Shape(p, n, n)
    ensures forall i, j :: 0 <= i < n && 0 <= j < n ==> p[i][j] == Dot(f, a[i], Column(b, j), n)
  {
    seq(n, i requires 0 <= i < n => seq(n, j requires 0 <= j < n => Dot(f, a[i], Column(b, j), n)))
  }

  /** What an inverse is for: it gives back v from the values of the rows on v. */
  ghost predicate Inverts<F(!new)>(f: Field<F>, inv: Matrix<F>, rows: Matrix<F>, n: nat) {
    && Shape(rows, n, n) && Shape(inv, n, n)
    && forall v: seq<F> {:trigger Apply(f, rows, v)} :: |v| == n ==> Apply(f, inv, Apply(f, rows, v)) == v
  }

  lemma InvertsShape<F(!new)>(f: Field<F>, inv: Matrix<F>, rows: Matrix<F>, n: nat)
    requires Inverts(f, inv, rows, n)
    ensures Shape(inv, n, n) && Shape(rows, n, n) && |inv| == n == |rows|
  {
  }

  lemma TracksAt<F(!new)>(f: Field<F>, orig: Matrix<F>, cur: Matrix<F>, inv: Matrix<F>, n: nat, v: seq<F>, r: nat)
    requires Tracks(f, orig, cur, inv, n) && |v| == n && r < n
    ensures Dot(f, cur[r], v, n) == Dot(f, inv[r], Apply(f, orig, v), n)
  {
    assert At(v, r);
  }

  lemma TracksStart<F(!new)>(f: Field<F>, orig: Matrix<F>, n: nat)
    requires IsField(f) && Shape(orig, n, n)
    ensures Tracks(f, orig, orig, Identity(f, n), n)
  {
    forall v: seq<F>, r: nat | At(v, r) && |v| == n && r < n
      ensures Dot(f, orig[r], v, n) == Dot(f, Identity(f, n)[r], Apply(f, orig, v), n)
    {
      DotUnit(f, Unit(f, n, r), Apply(f, orig, v), n, r);
    }
  }

  lemma TracksSwap<F(!new)>(f: Field<F>, orig: Matrix<F>, cur: Matrix<F>, inv: Matrix<F>, n: nat, i: nat, j: nat)
    requires Tracks(f, orig, cur, inv, n) && i < n && j < n
    ensures Tracks(f, orig, SwapAt(cur, i, j), SwapAt(inv, i, j), n)
  {
    forall v: seq<F>, r: nat | At(v, r) && |v| == n && r < n
      ensures Dot(f, SwapAt(cur, i, j)[r], v, n) == Dot(f, SwapAt(inv, i, j)[r], Apply(f, orig, v), n)
    {
      TracksAt(f, orig, cur, inv, n, v, i);
      TracksAt(f, orig, cur, inv, n, v, j);
    }
  }

  lemma TracksScale<F(!new)>(f: Field<F>, orig: Matrix<F>, cur: Matrix<F>, inv: Matrix<F>, n: nat, i: nat, c: F)
    requires IsField(f) && Tracks(f, orig, cur, inv, n) && i < n
    ensures Tracks(f, orig, cur[i := Scaled(f, cur[i], c)], inv[i := Scaled(f, inv[i], c)], n)
  {
    forall v: seq<F>, r: nat | At(v, r) && |v| == n && r < n
      ensures Dot(f, cur[i := Scaled(f, cur[i], c)][r], v, n)
           == Dot(f, inv[i := Scaled(f, inv[i], c)][r], Apply(f, orig, v), n)
    {
      TracksAt(f, orig, cur, inv, n, v, i);
      DotScaled(f, cur[i], c, v);
      DotScaled(f, inv[i], c, Apply(f, orig, v));
    }
  }

  lemma TracksAdd<F(!new)>(f: Field<F>, orig: Matrix<F>, cur: Matrix<F>, inv: Matrix<F>, n: nat, i: nat, j: nat, c: F)
    requires IsField(f) && Tracks(f, orig, cur, inv, n) && i < n && j < n
    ensures Tracks(f, orig, cur[j := AddScaled(f, cur[j], c, cur[i])], inv[j := AddScaled(f, inv[j], c, inv[i])], n)
  {
    forall v: seq<F>, r: nat | At(v, r) && |v| == n && r < n
      ensures Dot(f, cur[j := AddScaled(f, cur[j], c, cur[i])][r], v, n)
           == Dot(f, inv[j := AddScaled(f, inv[j], c, inv[i])][r], Apply(f, orig, v), n)
    {
      TracksAt(f, orig, cur, inv, n, v, i);
      TracksAt(f, orig, cur, inv, n, v, j);
      DotAddScaled(f, cur[j], c, cur[i], v);
      DotAddScaled(f, inv[j], c, inv[i], Apply(f, orig, v));
    }
  }

  /** Rows with the same zeros have the same kernel. */
  lemma SameKernel<F(!new)>(f: Field<F>, rows: Matrix<F>, rows': Matrix<F>, n: nat)
    requires Shape(rows, |rows|, n) && Shape(rows', |rows'|, n)
    requires forall v: seq<F> {:trigger Orthogonal(f, rows, v)} {:trigger Orthogonal(f, rows', v)} ::
      |v| == n ==> (Orthogonal(f, rows, v) <==> Orthogonal(f, rows', v))
    ensures TrivialKernel(f, rows, n) <==> TrivialKernel(f, rows', n)
  {
    hide Orthogonal;
  }

  lemma KernelSwap<F(!new)>(f: Field<F>, rows: Matrix<F>, n: nat, i: nat, j: nat)
    requires Shape(rows, |rows|, n) && i < |rows| && j < |rows|
    ensures TrivialKernel(f, SwapAt(rows, i, j), n) <==> TrivialKernel(f, rows, n)
  {
    var rows' := SwapAt(rows, i, j);
    forall v: seq<F> | |v| == n ensures Orthogonal(f, rows, v) <==> Orthogonal(f, rows', v) {
      if Orthogonal(f, rows', v) {
        forall r | 0 <= r < |rows| ensures Dot(f, rows[r], v, n) == f.zero {
          assert rows[r] == rows'[if r == i then j else if r == j then i else r];
        }
      }
    }
    hide Orthogonal;
    SameKernel(f, rows, rows', n);
  }

  lemma KernelScale<F(!new)>(f: Field<F>, rows: Matrix<F>, n: nat, i: nat, c: F)
    requires IsField(f) && Shape(rows, |rows|, n) && i < |rows| && c != f.zero
    ensures TrivialKernel(f, rows[i := Scaled(f, rows[i], c)], n) <==> TrivialKernel(f, rows, n)
  {
    var rows' := rows[i := Scaled(f, rows[i], c)];
    forall v: seq<F> | |v| == n ensures Orthogonal(f, rows, v) <==> Orthogonal(f, rows', v) {
      ScaledZero(f, rows[i], c, v);
      ZerosAgree(f, rows, rows', i, v);
    }
    hide Orthogonal;
    SameKernel(f, rows, rows', n);
  }

  lemma ScaledZero<F(!new)>(f: Field<F>, row: seq<F>, c: F, v: seq<F>)
    requires IsField(f) && |row| == |v| && c != f.zero
    ensures Dot(f, Scaled(f, row, c), v, |v|) == f.zero <==> Dot(f, row, v, |v|) == f.zero
  {
    DotScaled(f, row, c, v);
    hide Dot;
    MulZero(f, c);
    if Dot(f, Scaled(f, row, c), v, |v|) == f.zero { NoZeroDivisors(f, c, Dot(f, row, v, |v|)); }
  }

  /** Changing row i to one that has the same zeros, given those of the other rows. */
  lemma ZerosAgree<F>(f: Field<F>, rows: Matrix<F>, rows': Matrix<F>, i: nat, v: seq<F>)
    requires Shape(rows, |rows|, |v|) && Shape(rows', |rows'|, |v|) && i < |rows| == |rows'|
    requires forall r :: 0 <= r < |rows| && r != i ==> rows[r] == rows'[r]
    requires (forall r :: 0 <= r < |rows| && r != i ==> Dot(f, rows[r], v, |v|) == f.zero) ==>
      (Dot(f, rows'[i], v, |v|) == f.zero <==> Dot(f, rows[i], v, |v|) == f.zero)
    ensures Orthogonal(f, rows, v) <==> Orthogonal(f, rows', v)
  {
    hide Dot;
    if Orthogonal(f, rows', v) {
      forall r | 0 <= r < |rows| && r != i ensures Dot(f, rows[r], v, |v|) == f.zero { assert rows[r] == rows'[r]; }
    }
  }

  lemma KernelAdd<F(!new)>(f: Field<F>, rows: Matrix<F>, n: nat, i: nat, j: nat, c: F)
    requires IsField(f) && Shape(rows, |rows|, n) && i < |rows| && j < |rows| && i != j
    ensures TrivialKernel(f, rows[j := AddScaled(f, rows[j], c, rows[i])], n) <==> TrivialKernel(f, rows, n)
  {
    var rows' := rows[j := AddScaled(f, rows[j], c, rows[i])];
    forall v: seq<F> | |v| == n ensures Orthogonal(f, rows, v) <==> Orthogonal(f, rows', v) {
      DotAddScaled(f, rows[j], c, rows[i], v);
      hide Dot;
      MulZero(f, c);
      AddZero(f, Dot(f, rows[j], v, n));
      ZerosAgree(f, rows, rows', j, v);
    }
    hide Orthogonal;
    SameKernel(f, rows, rows', n);
  }

  /** With the first i columns reduced and only zeros in column i from row i on, that column itself, extended by a one,
      is orthogonal to every row. */
  lemma NoPivotSingular<F(!new)>(f: Field<F>, rows: Matrix<F>, n: nat, i: nat)
    requires IsField(f) && i < n && Reduced(f, rows, n, i) && forall r :: i <= r < n ==> rows[r][i] == f.zero
    ensures !TrivialKernel(f, rows, n)
  {
    var v := seq(n, c requires 0 <= c < n => if c < i then rows[c][i] else if c == i then f.one else f.zero);
    assert !IsZero(f, v) by { assert v[i] == f.one; }
    forall r | 0 <= r < n ensures Dot(f, rows[r], v, n) == f.zero {
      DotTail(f, rows[r], v, i + 1, n);
      if r < i {
        DotOnly(f, rows[r], v, i, r);
        MulOne(f, v[r]);
        MulOne(f, rows[r][i]);
        AddSelf(f, rows[r][i]);
      } else {
        DotZeroLeft(f, rows[r], v, i + 1);
      }
    }
    assert Orthogonal(f, rows, v);
  }

  lemma {:induction false} DotTail<F(!new)>(f: Field<F>, a: seq<F>, b: seq<F>, m: nat, n: nat)
    requires IsField(f) && m <= n <= |a| && n <= |b|
    requires forall j :: m <= j < n ==> b[j] == f.zero
    ensures Dot(f, a, b, n) == Dot(f, a, b, m)
  {
    if m < n {
      DotTail(f, a, b, m, n - 1);
      MulZero(f, a[n - 1]);
      AddZero(f, Dot(f, a, b, n - 1));
    }
  }

  lemma ReducedIdentity<F>(f: Field<F>, rows: Matrix<F>, n: nat)
    requires Reduced(f, rows, n, n)
    ensures rows == Identity(f, n)
  {
    forall r | 0 <= r < n ensures rows[r] == Unit(f, n, r) {}
  }

  lemma IdentityInvertible<F(!new)>(f: Field<F>, n: nat)
    requires IsField(f)
    ensures TrivialKernel(f, Identity(f, n), n)
  {
    var rows := Identity(f, n);
    forall v: seq<F> | |v| == n && Orthogonal(f, rows, v) ensures IsZero(f, v) {
      forall i | 0 <= i < n ensures v[i] == f.zero {
        DotUnit(f, rows[i], v, n, i);
      }
    }
  }

  lemma TracksInverts<F(!new)>(f: Field<F>, orig: Matrix<F>, inv: Matrix<F>, n: nat)
    requires IsField(f) && Tracks(f, orig, Identity(f, n), inv, n)
    ensures Inverts(f, inv, orig, n)
  {
    forall v: seq<F> | |v| == n ensures Apply(f, inv, Apply(f, orig, v)) == v {
      forall r | 0 <= r < n ensures Apply(f, inv, Apply(f, orig, v))[r] == v[r] {
        TracksAt(f, orig, Identity(f, n), inv, n, v, r);
        DotUnit(f, Unit(f, n, r), v, n, r);
      }
    }
  }

  lemma InvertsTrivialKernel<F(!new)>(f: Field<F>, inv: Matrix<F>, rows: Matrix<F>, n: nat)
    requires IsField(f) && Inverts(f, inv, rows, n)
    ensures TrivialKernel(f, rows, n)
  {
    hide IsField, Dot;
    forall v: seq<F> | |v| == n && Orthogonal(f, rows, v) ensures IsZero(f, v) {
      var w := Apply(f, rows, v);
      assert Apply(f, inv, w) == v;
      forall i | 0 <= i < n ensures v[i] == f.zero { DotZeroLeft(f, inv[i], w, n); }
    }
  }

  /** The rows' values on a basis vector are a column. */
  lemma ApplyUnit<F(!new)>(f: Field<F>, rows: Matrix<F>, n: nat, j: nat)
    requires IsField(f) && Shape(rows, n, n) && j < n
    ensures Apply(f, rows, Unit(f, n, j)) == Column(rows, j)
  {
    forall r | 0 <= r < n ensures Apply(f, rows, Unit(f, n, j))[r] == Column(rows, j)[r] {
      DotUnit(f, Unit(f, n, j), rows[r], n, j);
    }
  }

  lemma ProductEntry<F(!new)>(f: Field<F>, inv: Matrix<F>, rows: Matrix<F>, n: nat, i: nat, j: nat)
    requires IsField(f) && Inverts(f, inv, rows, n) && i < n && j < n
    ensures Dot(f, inv[i], Column(rows, j), n) == Unit(f, n, j)[i]
  {
    var e := Unit(f, n, j);
    ApplyUnit(f, rows, n, j);
    assert Apply(f, inv, Apply(f, rows, e))[i] == e[i];
  }

  /** A row times a matrix. */
  ghost function RowTimes<F>(f: Field<F>, row: seq<F>, b: Matrix<F>, k: nat, n: nat): (r: seq<F>)
    requires Shape(b, |b|, k) && n <= |b| && n <= |row|
    ensures |r| == k && forall j :: 0 <= j < k ==> r[j] == Dot(f, row, Column(b, j), n)
  {
    seq(k, j requires 0 <= j < k => Dot(f, row, Column(b, j), n))
  }

  /** (row * b) * w == row * (b * w) */
  lemma {:induction false} RowTimesApply<F(!new)>(f: Field<F>, row: seq<F>, b: Matrix<F>, k: nat, n: nat, w: seq<F>)
    requires IsField(f) && Shape(b, |b|, k) && n <= |b| && n <= |row| && |w| == k
    ensures Dot(f, RowTimes(f, row, b, k, n), w, k) == Dot(f, row, Apply(f, b, w), n)
  {
    hide *;
    if n == 0 {
      RowTimesNone(f, row, b, k, w);
    } else {
      RowTimesApply(f, row, b, k, n - 1, w);
      RowTimesMore(f, row, b, k, n - 1, n, w);
    }
  }

  lemma RowTimesNone<F(!new)>(f: Field<F>, row: seq<F>, b: Matrix<F>, k: nat, w: seq<F>)
    requires IsField(f) && Shape(b, |b|, k) && |w| == k
    ensures Dot(f, RowTimes(f, row, b, k, 0), w, k) == Dot(f, row, Apply(f, b, w), 0)
  {
    DotZeroLeft(f, RowTimes(f, row, b, k, 0), w, k);
  }

  lemma RowTimesMore<F(!new)>(f: Field<F>, row: seq<F>, b: Matrix<F>, k: nat, n: nat, next: nat, w: seq<F>)
    requires IsField(f) && Shape(b, |b|, k) && next == n + 1 && next <= |b| && next <= |row| && |w| == k
    requires Dot(f, RowTimes(f, row, b, k, n), w, k) == Dot(f, row, Apply(f, b, w), n)
    ensures Dot(f, RowTimes(f, row, b, k, next), w, k) == Dot(f, row, Apply(f, b, w), next)
  {
    hide *;
    BlockShape(b, k, n);
    RowTimesStep(f, row, b, k, n);
    DotAddScaled(f, RowTimes(f, row, b, k, n), row[n], b[n], w);
    DotUnfold(f, row, Apply(f, b, w), n);
  }

  lemma BlockShape<F>(b: Matrix<F>, k: nat, i: nat)
    requires Shape(b, |b|, k) && i < |b|
    ensures |b[i]| == k
  {
  }

  lemma RowTimesStep<F(!new)>(f: Field<F>, row: seq<F>, b: Matrix<F>, k: nat, n: nat)
    requires IsField(f) && Shape(b, |b|, k) && n < |b| && n < |row|
    ensures RowTimes(f, row, b, k, n + 1) == AddScaled(f, RowTimes(f, row, b, k, n), row[n], b[n])
  {
    var r, r' := RowTimes(f, row, b, k, n), RowTimes(f, row, b, k, n + 1);
    forall j | 0 <= j < k ensures r'[j] == AddScaled(f, r, row[n], b[n])[j] {
      DotUnfold(f, row, Column(b, j), n);
      hide Dot;
      MulComm(f, row[n], b[n][j]);
    }
  }

  /** Undoing the matrix on every vector is the same as having the identity as product. */
  lemma InvertsProduct<F(!new)>(f: Field<F>, inv: Matrix<F>, rows: Matrix<F>, n: nat)
    requires IsField(f) && Shape(inv, n, n) && Shape(rows, n, n)
    ensures Inverts(f, inv, rows, n) <==> Product(f, inv, rows, n) == Identity(f, n)
  {
    hide IsField, Dot;
    var p, id := Product(f, inv, rows, n), Identity(f, n);
    if Inverts(f, inv, rows, n) {
      forall i | 0 <= i < n ensures p[i] == id[i] {
        forall j | 0 <= j < n ensures p[i][j] == id[i][j] { ProductEntry(f, inv, rows, n, i, j); }
      }
    }
    if p == id {
      forall v: seq<F> | |v| == n ensures Apply(f, inv, Apply(f, rows, v)) == v {
        var w := Apply(f, inv, Apply(f, rows, v));
        forall i | 0 <= i < n ensures w[i] == v[i] {
          RowTimesApply(f, inv[i], rows, n, n, v);
          assert RowTimes(f, inv[i], rows, n, n) == p[i];
          DotUnit(f, id[i], v, n, i);
        }
      }
    }
  }

  /** Clearing column i of row j. */
  lemma ClearEntry<F(!new)>(f: Field<F>, row: seq<F>, pivot: seq<F>, i: nat)
    requires IsField(f) && i < |row| == |pivot|
    requires pivot[i] == f.one && forall c :: 0 <= c < i ==> pivot[c] == f.zero
    ensures AddScaled(f, row, row[i], pivot)[i] == f.zero
    ensures forall c :: 0 <= c < i ==> AddScaled(f, row, row[i], pivot)[c] == row[c]
  {
    MulOne(f, row[i]);
    AddSelf(f, row[i]);
    forall c | 0 <= c < i ensures AddScaled(f, row, row[i], pivot)[c] == row[c] {
      MulZero(f, row[i]);
      AddZero(f, row[c]);
    }
  }

  lemma ScaleKeepsZero<F(!new)>(f: Field<F>, row: seq<F>, c: F)
    requires IsField(f)
    ensures forall j :: 0 <= j < |row| && row[j] == f.zero ==> Scaled(f, row, c)[j] == f.zero
  {
    MulZero(f, c);
  }

  /** Rows 0..j of column i are cleared, the pivot row i is one there, columns before i are reduced. */
  ghost predicate Clearing<F>(f: Field<F>, rows: Matrix<F>, n: nat, i: nat, j: nat) {
    && i < n && Reduced(f, rows, n, i)
    && rows[i][i] == f.one
    && forall r :: 0 <= r < j && r < n && r != i ==> rows[r][i] == f.zero
  }

  /** The inverse so far tracks the matrix, whose kernel is still trivial or still not. */
  ghost predicate Good<F(!new)>(f: Field<F>, orig: Matrix<F>, cur: Matrix<F>, inv: Matrix<F>, n: nat) {
    Tracks(f, orig, cur, inv, n) && (TrivialKernel(f, cur, n) <==> TrivialKernel(f, orig, n))
  }

  /** Brings a nonzero pivot to row i and scales it to one, if there is one. */
  method NormalizePivot<F(==, !new)>(f: Field<F>, matrix: array2<F>, inverse: array2<F>, n: nat, i: nat, ghost orig: Matrix<F>) returns (found: bool)
    requires IsField(f) && i < n && matrix != inverse
    requires matrix.Length0 == matrix.Length1 == inverse.Length0 == inverse.Length1 == n
    requires Good(f, orig, Rows(matrix), Rows(inverse), n)
    requires Reduced(f, Rows(matrix), n, i)
    modifies matrix, inverse
    ensures !found ==> !TrivialKernel(f, orig, n)
    ensures found ==> Good(f, orig, Rows(matrix), Rows(inverse), n) && Clearing(f, Rows(matrix), n, i, 0)
  {
    hide IsField, TrivialKernel, Dot;
    ghost var start, startInv := Rows(matrix), Rows(inverse);
    var nextRow := GetNonZeroDiagonal(f, matrix, i);
    found := nextRow != -1;
    if !found {
      forall r | i <= r < n ensures start[r][i] == f.zero { assert start[r][i] == matrix[r, i]; }
      NoPivotSingular(f, start, n, i);
      return;
    }
    if nextRow != i {
      SwapMatrixRows(matrix, nextRow, i);
      SwapMatrixRows(inverse, nextRow, i);
      TracksSwap(f, orig, start, startInv, n, nextRow, i);
      KernelSwap(f, start, n, nextRow, i);
    }
    ghost var mid, midInv := Rows(matrix), Rows(inverse);
    assert Good(f, orig, mid, midInv, n) && Reduced(f, mid, n, i) && mid[i][i] != f.zero;
    assert mid[i][i] == matrix[i, i];
    if matrix[i, i] != f.one {
      var leadingValInv := f.Inv(matrix[i, i]);
      MulInv(f, matrix[i, i]);
      ScaleKeepsZero(f, mid[i], leadingValInv);
      TracksScale(f, orig, mid, midInv, n, i, leadingValInv);
      KernelScale(f, mid, n, i, leadingValInv);
      RowMult(f, matrix, leadingValInv, i);
      RowMult(f, inverse, leadingValInv, i);
      assert Rows(matrix)[i] == Scaled(f, mid[i], leadingValInv);
    }
  }

  /** Zeroes every other entry of column i. */
  method ClearColumn<F(==, !new)>(f: Field<F>, matrix: array2<F>, inverse: array2<F>, n: nat, i: nat, ghost orig: Matrix<F>)
    requires IsField(f) && i < n && matrix != inverse
    requires matrix.Length0 == matrix.Length1 == inverse.Length0 == inverse.Length1 == n
    requires Good(f, orig, Rows(matrix), Rows(inverse), n)
    requires Clearing(f, Rows(matrix), n, i, 0)
    modifies matrix, inverse
    ensures Good(f, orig, Rows(matrix), Rows(inverse), n)
    ensures Reduced(f, Rows(matrix), n, i + 1)
  {
    for j := 0 to n
      invariant Good(f, orig, Rows(matrix), Rows(inverse), n)
      invariant Clearing(f, Rows(matrix), n, i, j)
    {
      if i != j {
        ghost var cur, inv := Rows(matrix), Rows(inverse);
        var val := matrix[j, i];
        assert cur[j][i] == val;
        RowMultAndAdd(f, matrix, val, i, j);
        RowMultAndAdd(f, inverse, val, i, j);
        ClearEntry(f, cur[j], cur[i], i);
        TracksAdd(f, orig, cur, inv, n, i, j, val);
        KernelAdd(f, cur, n, i, j, val);
      }
    }
  }

  /** Inverts the matrix in place. The search for a pivot fails exactly for a singular matrix; where the original
      goes on to swap with row -1, this one stops. */
  method GaussjInversion<F(==, !new)>(f: Field<F>, matrix: array2<F>, inverse: array2<F>, n: nat) returns (found: bool)
    requires IsField(f) && matrix != inverse
    requires matrix.Length0 == matrix.Length1 == inverse.Length0 == inverse.Length1 == n
    modifies matrix, inverse
    ensures found <==> TrivialKernel(f, old(Rows(matrix)), n)
    ensures found ==> Rows(matrix) == Identity(f, n)
    ensures found ==> Inverts(f, Rows(inverse), old(Rows(matrix)), n)
    ensures found ==> Product(f, Rows(inverse), old(Rows(matrix)), n) == Identity(f, n)
  {
    ghost var orig := Rows(matrix);
    forall i, j | 0 <= i < n && 0 <= j < n { inverse[i, j] := f.zero; }
    for i := 0 to n
      invariant Rows(matrix) == orig
      invariant forall r, c :: 0 <= r < n && 0 <= c < n ==> inverse[r, c] == if r == c && r < i then f.one else f.zero
    {
      inverse[i, i] := f.one;
    }
    SameRows(inverse, Identity(f, n));
    TracksStart(f, orig, n);
    for i := 0 to n
      invariant Good(f, orig, Rows(matrix), Rows(inverse), n)
      invariant Reduced(f, Rows(matrix), n, i)
    {
      found := NormalizePivot(f, matrix, inverse, n, i, orig);
      if !found {
        return;
      }
      ClearColumn(f, matrix, inverse, n, i, orig);
    }
    found := true;
    ReducedIdentity(f, Rows(matrix), n);
    IdentityInvertible(f, n);
    TracksInverts(f, orig, Rows(inverse), n);
    InvertsProduct(f, Rows(inverse), orig, n);
  }
}
