/** Row and column operations on a matrix that is changed in place. */
module MatrixOps {
  import opened Fields
  import opened Vectors
  import opened Mds

  function Row<F>(a: array2<F>, i: nat): (r: seq<F>)
    requires i < a.Length0
    reads a
    ensures |r| == a.Length1
    ensures forall j :: 0 <= j < a.Length1 ==> r[j] == a[i, j]
  {
    seq(a.Length1, j requires 0 <= j < a.Length1 reads a => a[i, j])
  }

  /** The matrix as a sequence of rows. */
  function Rows<F>(a: array2<F>): (rows: Matrix<F>)
    reads a
    ensures |rows| == a.Length0
    ensures forall i :: 0 <= i < a.Length0 ==> rows[i] == Row(a, i)
  {
    seq(a.Length0, i requires 0 <= i < a.Length0 reads a => Row(a, i))
  }

  lemma SameRow<F>(a: array2<F>, i: nat, r: seq<F>)
    requires i < a.Length0 && |r| == a.Length1
    requires forall j :: 0 <= j < a.Length1 ==> a[i, j] == r[j]
    ensures Row(a, i) == r
  {
  }

  lemma SameRows<F>(a: array2<F>, rows: Matrix<F>)
    requires Shape(rows, a.Length0, a.Length1)
    requires forall i, j :: 0 <= i < a.Length0 && 0 <= j < a.Length1 ==> a[i, j] == rows[i][j]
    ensures Rows(a) == rows
  {
    forall i | 0 <= i < a.Length0 ensures Row(a, i) == rows[i] { SameRow(a, i, rows[i]); }
  }

  function ScaleCol<F>(f: Field<F>, row: seq<F>, elem: F, col: nat): (r: seq<F>)
    requires col < |row|
    ensures |r| == |row|
  {
    row[col := f.Mul(row[col], elem)]
  }

  function AddCol<F>(f: Field<F>, row: seq<F>, elem: F, from: nat, to: nat): (r: seq<F>)
    requires from < |row| && to < |row|
    ensures |r| == |row|
  {
    row[to := f.Add(row[to], f.Mul(row[from], elem))]
  }

  function SwapAt<T>(s: seq<T>, i: nat, j: nat): (r: seq<T>)
    requires i < |s| && j < |s|
    ensures |r| == |s|
  {
    s[i := s[j]][j := s[i]]
  }

  /** Apply a row transformation to rows lo..hi. */
  function MapRows<F>(g: seq<F> --> seq<F>, rows: Matrix<F>, lo: nat, hi: nat): (r: Matrix<F>)
    requires forall i :: 0 <= i < |rows| ==> g.requires(rows[i])
    ensures |r| == |rows|
    ensures forall i :: 0 <= i < |rows| ==> r[i] == if lo <= i < hi then g(rows[i]) else rows[i]
  {
    seq(|rows|, i requires 0 <= i < |rows| => if lo <= i < hi then g(rows[i]) else rows[i])
  }

  function ScaleColAll<F>(f: Field<F>, rows: Matrix<F>, elem: F, col: nat, lo: nat, hi: nat): (r: Matrix<F>)
    requires forall i :: 0 <= i < |rows| ==> col < |rows[i]|
    ensures |r| == |rows|
    ensures forall i :: 0 <= i < |rows| ==> r[i] == if lo <= i < hi then ScaleCol(f, rows[i], elem, col) else rows[i]
  {
    MapRows((row: seq<F>) requires col < |row| => ScaleCol(f, row, elem, col), rows, lo, hi)
  }

  function AddColAll<F>(f: Field<F>, rows: Matrix<F>, elem: F, from: nat, to: nat): (r: Matrix<F>)
    requires forall i :: 0 <= i < |rows| ==> from < |rows[i]| && to < |rows[i]|
    ensures |r| == |rows|
    ensures forall i :: 0 <= i < |rows| ==> r[i] == AddCol(f, rows[i], elem, from, to)
  {
    MapRows((row: seq<F>) requires from < |row| && to < |row| => AddCol(f, row, elem, from, to), rows, 0, |rows|)
  }

  method SwapMatrixRows<F>(a: array2<F>, r1: nat, r2: nat)
    requires r1 < a.Length0 && r2 < a.Length0
    modifies a
    ensures Rows(a) == SwapAt(old(Rows(a)), r1, r2)
  {
    for i := 0 to a.Length1
      invariant forall j :: 0 <= j < i ==> a[r1, j] == old(a[r2, j]) && a[r2, j] == old(a[r1, j])
      invariant forall r, j :: 0 <= r < a.Length0 && 0 <= j < a.Length1 && ((r != r1 && r != r2) || i <= j) ==> a[r, j] == old(a[r, j])
    {
      var tmp := a[r1, i];
      a[r1, i] := a[r2, i];
      a[r2, i] := tmp;
    }
    SameRows(a, SwapAt(old(Rows(a)), r1, r2));
  }

  /** Multiplies column col by elem in the rows from lo up to, but not including, hi. */
  method ColMult<F>(f: Field<F>, a: array2<F>, elem: F, col: nat, lo: nat, hi: nat)
    requires col < a.Length1 && lo <= hi <= a.Length0
    modifies a
    ensures Rows(a) == ScaleColAll(f, old(Rows(a)), elem, col, lo, hi)
  {
    for i := lo to hi
      invariant forall r :: lo <= r < i ==> a[r, col] == f.Mul(old(a[r, col]), elem)
      invariant forall r, j :: 0 <= r < a.Length0 && 0 <= j < a.Length1 && (j != col || r < lo || i <= r) ==> a[r, j] == old(a[r, j])
    {
      a[i, col] := f.Mul(a[i, col], elem);
    }
    SameRows(a, ScaleColAll(f, old(Rows(a)), elem, col, lo, hi));
  }

  method RowMult<F>(f: Field<F>, a: array2<F>, elem: F, row: nat)
    requires row < a.Length0
    modifies a
    ensures Rows(a) == old(Rows(a))[row := Scaled(f, old(Row(a, row)), elem)]
  {
    for i := 0 to a.Length1
      invariant forall j :: 0 <= j < i ==> a[row, j] == f.Mul(old(a[row, j]), elem)
      invariant forall r, j :: 0 <= r < a.Length0 && 0 <= j < a.Length1 && (r != row || i <= j) ==> a[r, j] == old(a[r, j])
    {
      a[row, i] := f.Mul(a[row, i], elem);
    }
    SameRows(a, old(Rows(a))[row := Scaled(f, old(Row(a, row)), elem)]);
  }

  method ColMultAndAdd<F>(f: Field<F>, a: array2<F>, elem: F, from: nat, to: nat)
    requires from < a.Length1 && to < a.Length1 && from != to
    modifies a
    ensures Rows(a) == AddColAll(f, old(Rows(a)), elem, from, to)
  {
    for i := 0 to a.Length0
      invariant forall r :: 0 <= r < i ==> a[r, to] == f.Add(old(a[r, to]), f.Mul(old(a[r, from]), elem))
      invariant forall r, j :: 0 <= r < a.Length0 && 0 <= j < a.Length1 && (j != to || i <= r) ==> a[r, j] == old(a[r, j])
    {
      a[i, to] := f.Add(a[i, to], f.Mul(a[i, from], elem));
    }
    SameRows(a, AddColAll(f, old(Rows(a)), elem, from, to));
  }

  method RowMultAndAdd<F>(f: Field<F>, a: array2<F>, elem: F, from: nat, to: nat)
    requires from < a.Length0 && to < a.Length0 && from != to
    modifies a
    ensures Rows(a) == old(Rows(a))[to := AddScaled(f, old(Row(a, to)), elem, old(Row(a, from)))]
  {
    for i := 0 to a.Length1
      invariant forall j :: 0 <= j < i ==> a[to, j] == f.Add(old(a[to, j]), f.Mul(old(a[from, j]), elem))
      invariant forall r, j :: 0 <= r < a.Length0 && 0 <= j < a.Length1 && (r != to || i <= j) ==> a[r, j] == old(a[r, j])
    {
      a[to, i] := f.Add(a[to, i], f.Mul(a[from, i], elem));
    }
    SameRows(a, old(Rows(a))[to := AddScaled(f, old(Row(a, to)), elem, old(Row(a, from)))]);
  }

  /** The first row from `row` on whose entry in column `row` is not zero, or -1. */
  method GetNonZeroDiagonal<F(==)>(f: Field<F>, a: array2<F>, row: nat) returns (r: int)
    requires row < a.Length0 && row < a.Length1
    ensures r == -1 || row <= r < a.Length0
    ensures r != -1 ==> a[r, row] != f.zero && forall i :: row <= i < r ==> a[i, row] == f.zero
    ensures r == -1 ==> forall i :: row <= i < a.Length0 ==> a[i, row] == f.zero
  {
    for i := row to a.Length0
      invariant forall j :: row <= j < i ==> a[j, row] == f.zero
    {
      if a[i, row] != f.zero {
        return i;
      }
    }
    return -1;
  }
}
