/** The systematic generator matrix: a Vandermonde matrix brought to the form
    "identity on top, all ones in the first parity row" by column operations. */
module Systematic {
  import opened Fields
  import opened Vectors
  import opened Mds
  import opened Polynomials
  import opened MatrixOps
  import opened GaussJordan
  import opened ColumnForm

  /** What the encoder and the decoder rely on. */
  ghost predicate IsGenerator<F(!new)>(f: Field<F>, rows: Matrix<F>, k: nat, m: nat) {
    && Shape(rows, k + m, k)
    && IdentityOnTop(f, rows, k, k)
    && AnyRowsIndependent(f, rows, k)
  }

  ghost predicate IdentityOnTop<F>(f: Field<F>, rows: Matrix<F>, k: nat, i: nat) {
    && i <= k && i <= |rows|
    && forall r :: 0 <= r < i ==> rows[r] == Unit(f, k, r)
  }

  /** Changing one coefficient by d changes the form by d times that coordinate. */
  lemma {:induction false} DotBump<F(!new)>(f: Field<F>, a: seq<F>, i: nat, d: F, b: seq<F>, n: nat)
    requires IsField(f) && i < n <= |a| && n <= |b|
    ensures Dot(f, a[i := f.Add(a[i], d)], b, n) == f.Add(Dot(f, a, b, n), f.Mul(d, b[i]))
  {
    var a' := a[i := f.Add(a[i], d)];
    var last := f.Mul(a[n - 1], b[n - 1]);
    if i == n - 1 {
      DotCong(f, a', b, a, b, n - 1);
      Distrib(f, b[i], a[i], d);
      AddAssoc(f, Dot(f, a, b, n - 1), last, f.Mul(d, b[i]));
    } else {
      DotBump(f, a, i, d, b, n - 1);
      AddAssoc(f, Dot(f, a, b, n - 1), f.Mul(d, b[i]), last);
      AddComm(f, f.Mul(d, b[i]), last);
      AddAssoc(f, Dot(f, a, b, n - 1), last, f.Mul(d, b[i]));
    }
  }

  /** Adding a multiple of column `from` to column `to` moves to the vector as the transposed operation. */
  lemma DotAddCol<F(!new)>(f: Field<F>, row: seq<F>, elem: F, from: nat, to: nat, v: seq<F>, w: seq<F>)
    requires IsField(f) && from < |row| == |v| && to < |v|
    requires w == v[from := f.Add(v[from], f.Mul(elem, v[to]))]
    ensures Dot(f, AddCol(f, row, elem, from, to), v, |v|) == Dot(f, row, w, |v|)
  {
    var n := |v|;
    DotBump(f, row, to, f.Mul(row[from], elem), v, n);
    DotComm(f, row, w, n);
    DotComm(f, row, v, n);
    DotBump(f, v, from, f.Mul(elem, v[to]), row, n);
    MulComm(f, f.Mul(elem, v[to]), row[from]);
    MulAssoc(f, row[from], elem, v[to]);
  }

  lemma {:induction false} DotScaleCol<F(!new)>(f: Field<F>, row: seq<F>, elem: F, col: nat, v: seq<F>, w: seq<F>, n: nat)
    requires IsField(f) && col < |row| == |v| && n <= |v|
    requires w == v[col := f.Mul(elem, v[col])]
    ensures Dot(f, ScaleCol(f, row, elem, col), v, n) == Dot(f, row, w, n)
  {
    if n > 0 {
      DotScaleCol(f, row, elem, col, v, w, n - 1);
      if col == n - 1 { MulAssoc(f, row[col], elem, v[col]); }
    }
  }

  lemma AddColIndependent<F(!new)>(f: Field<F>, rows: Matrix<F>, k: nat, elem: F, from: nat, to: nat)
    requires IsField(f) && AnyRowsIndependent(f, rows, k) && from < k && to < k && from != to
    ensures AnyRowsIndependent(f, AddColAll(f, rows, elem, from, to), k)
  {
    var rows' := AddColAll(f, rows, elem, from, to);
    forall v: seq<F> | |v| == k && !IsZero(f, v) ensures |ZeroRows(f, rows', v)| < k {
      var w := v[from := f.Add(v[from], f.Mul(elem, v[to]))];
      if IsZero(f, w) {
        assert w[to] == v[to];
        MulZero(f, elem);
        AddZero(f, v[from]);
        forall i | 0 <= i < k ensures v[i] == f.zero { assert w[i] == f.zero; }
      }
      forall i | 0 <= i < |rows| ensures Dot(f, rows'[i], v, k) == Dot(f, rows[i], w, k) {
        DotAddCol(f, rows[i], elem, from, to, v, w);
      }
      assert ZeroRows(f, rows', v) == ZeroRows(f, rows, w);
    }
  }

  /** Scaling column col of every row but those of an identity on top. With lo == 0 this is a plain
      column scaling; with lo == k it is the parity-only scaling of the last step. */
  lemma ScaleColIndependent<F(!new)>(f: Field<F>, rows: Matrix<F>, k: nat, elem: F, col: nat, lo: nat)
    requires IsField(f) && AnyRowsIndependent(f, rows, k) && col < k && elem != f.zero
    requires IdentityOnTop(f, rows, k, lo)
    ensures AnyRowsIndependent(f, ScaleColAll(f, rows, elem, col, lo, |rows|), k)
  {
    var rows' := ScaleColAll(f, rows, elem, col, lo, |rows|);
    forall v: seq<F> | |v| == k && !IsZero(f, v) ensures |ZeroRows(f, rows', v)| < k {
      var w := v[col := f.Mul(elem, v[col])];
      if v[col] != f.zero && w[col] == f.zero { NoZeroDivisors(f, elem, v[col]); }
      MulZero(f, elem);
      assert forall i :: 0 <= i < k ==> (v[i] == f.zero <==> w[i] == f.zero);
      forall i | 0 <= i < |rows| ensures Dot(f, rows'[i], v, k) == f.zero <==> Dot(f, rows[i], w, k) == f.zero {
        if i < lo {
          DotUnit(f, rows[i], v, k, i);
          DotUnit(f, rows[i], w, k, i);
        } else {
          DotScaleCol(f, rows[i], elem, col, v, w, k);
        }
      }
      assert ZeroRows(f, rows', v) == ZeroRows(f, rows, w);
    }
  }

  lemma SwapMember<F>(f: Field<F>, rows: Matrix<F>, v: seq<F>, i: nat, j: nat, r: nat)
    requires Shape(rows, |rows|, |v|) && i < |rows| && j < |rows|
    ensures r in ZeroRows(f, SwapAt(rows, i, j), v) <==> (if r == i then j else if r == j then i else r) in ZeroRows(f, rows, v)
  {
  }

  lemma SwapIndependent<F(!new)>(f: Field<F>, rows: Matrix<F>, k: nat, i: nat, j: nat)
    requires AnyRowsIndependent(f, rows, k) && i < |rows| && j < |rows|
    ensures AnyRowsIndependent(f, SwapAt(rows, i, j), k)
  {
    var rows' := SwapAt(rows, i, j);
    forall v: seq<F> | |v| == k && !IsZero(f, v) ensures |ZeroRows(f, rows', v)| < k {
      var z, z' := ZeroRows(f, rows, v), ZeroRows(f, rows', v);
      forall r: nat ensures r in z' <==> (if r == i then j else if r == j then i else r) in z {
        SwapMember(f, rows, v, i, j, r);
      }
      SwappedCard(z, z', i, j);
    }
  }

  lemma SwappedCard(z: set<nat>, z': set<nat>, i: nat, j: nat)
    requires forall r: nat :: r in z' <==> (if r == i then j else if r == j then i else r) in z
    ensures |z'| == |z|
  {
    assert j in z' <==> i in z;
    assert i in z' <==> j in z;
    var w := if i in z && j !in z then z - {i} + {j} else if j in z && i !in z then z - {j} + {i} else z;
    forall r: nat ensures r in z' <==> r in w {
      if r != i && r != j { assert r in z' <==> r in z; }
    }
    assert z' == w;
  }

  /** The pivot search succeeds: rows 0..k cannot all vanish in column i. */
  lemma SystematicPivotExists<F(!new)>(f: Field<F>, rows: Matrix<F>, k: nat, i: nat)
    requires IsField(f) && AnyRowsIndependent(f, rows, k) && i < k <= |rows|
    requires IdentityOnTop(f, rows, k, i)
    ensures exists r :: i <= r < k && rows[r][i] != f.zero
  {
    if forall r :: i <= r < k ==> rows[r][i] == f.zero {
      var e := Unit(f, k, i);
      assert !IsZero(f, e) by { assert e[i] == f.one; }
      var top := UpTo(k);
      forall r | r in top ensures r in ZeroRows(f, rows, e) { DotUnit(f, e, rows[r], k, i); }
      SubsetCard(top, ZeroRows(f, rows, e));
    }
  }

  /** In a systematic matrix any k of whose rows are independent, no parity entry is zero. */
  lemma ParityEntriesNonzero<F(!new)>(f: Field<F>, rows: Matrix<F>, k: nat, r: nat, c: nat)
    requires IsField(f) && AnyRowsIndependent(f, rows, k) && c < k <= r < |rows|
    requires IdentityOnTop(f, rows, k, k)
    ensures rows[r][c] != f.zero
  {
    if rows[r][c] == f.zero {
      var e := Unit(f, k, c);
      assert !IsZero(f, e) by { assert e[c] == f.one; }
      var top := UpTo(k);
      var zeros := top - {c} + {r};
      forall i | i in zeros ensures i in ZeroRows(f, rows, e) { DotUnit(f, e, rows[i], k, c); }
      SubsetCard(zeros, ZeroRows(f, rows, e));
    }
  }

  lemma {:induction false} PowZero<F(!new)>(f: Field<F>, j: nat)
    requires IsField(f)
    ensures Pow(f, f.zero, j) == if j == 0 then f.one else f.zero
  {
    if j > 0 { MulZero(f, Pow(f, f.zero, j - 1)); }
  }

  method FillPowers<F(!new)>(f: Field<F>, matrix: array2<F>, x: F, i: nat)
    requires i < matrix.Length0
    modifies matrix
    ensures Rows(matrix) == old(Rows(matrix))[i := Powers(f, x, matrix.Length1)]
  {
    ghost var powers := Powers(f, x, matrix.Length1);
    var acc := f.one;
    for j := 0 to matrix.Length1
      invariant acc == Pow(f, x, j)
      invariant forall c :: 0 <= c < j ==> matrix[i, c] == powers[c]
      invariant forall r, c :: 0 <= r < matrix.Length0 && 0 <= c < matrix.Length1 && r != i ==> matrix[r, c] == old(matrix[r, c])
    {
      matrix[i, j] := acc;
      acc := f.Mul(acc, x);
    }
    SameRows(matrix, old(Rows(matrix))[i := powers]);
  }

  /** Row i holds the powers of elem[i], the field element that the row number i is read as. */
  method CreateNonSystematicVandMatrix<F(0, !new)>(f: Field<F>, elem: seq<F>, k: nat, m: nat) returns (matrix: array2<F>)
    requires IsField(f) && k >= 1
    requires |elem| == k + m && elem[0] == f.zero
    ensures fresh(matrix) && matrix.Length0 == k + m && matrix.Length1 == k
    ensures IsVandermonde(f, Rows(matrix), elem, k)
  {
    matrix := new F[k + m, k];
    matrix[0, 0] := f.one;
    for i := 1 to k
      invariant forall j :: 0 <= j < i ==> matrix[0, j] == if j == 0 then f.one else f.zero
    {
      matrix[0, i] := f.zero;
    }
    assert Rows(matrix)[0] == Powers(f, f.zero, k) by {
      forall c | 0 <= c < k ensures matrix[0, c] == Pow(f, f.zero, c) { PowZero(f, c); }
    }
    for i := 1 to k + m
      invariant forall r :: 0 <= r < i ==> Rows(matrix)[r] == Powers(f, elem[r], k)
    {
      FillPowers(f, matrix, elem[i], i);
    }
  }

  /** Loop invariant of MakeSystematicMatrix: i rows are done. */
  ghost predicate Reducing<F(!new)>(f: Field<F>, rows: Matrix<F>, k: nat, i: nat) {
    && AnyRowsIndependent(f, rows, k)
    && IdentityOnTop(f, rows, k, i)
  }

  lemma UnitTimesZero<F(!new)>(f: Field<F>, x: F, c: F)
    requires IsField(f)
    ensures f.Mul(f.zero, c) == f.zero && f.Add(x, f.Mul(f.zero, c)) == x
  {
    MulZero(f, c);
    AddZero(f, x);
  }

  // ----- which matrix it is

  /** The powers of each element. */
  ghost function PowerRows<F>(f: Field<F>, elem: seq<F>, k: nat): (rows: Matrix<F>)
    ensures Shape(rows, |elem|, k) && forall i :: 0 <= i < |elem| ==> rows[i] == Powers(f, elem[i], k)
  {
    seq(|elem|, i requires 0 <= i < |elem| => Powers(f, elem[i], k))
  }

  /** The matrix of the storage format: the powers of the elements divided by their first k rows, with the columns of the
      parity rows scaled so that the first of them is all ones. */
  ghost predicate IsStandard<F(!new)>(f: Field<F>, elem: seq<F>, rows: Matrix<F>, k: nat, m: nat) {
    && m >= 1 && |elem| == k + m && Shape(rows, k + m, k)
    && IdentityOnTop(f, rows, k, k)
    && (forall c :: 0 <= c < k ==> rows[k][c] == f.one)
    && exists inv: Matrix<F>, scale: seq<F> :: ScaledQuotient(f, PowerRows(f, elem, k), rows, inv, scale, k)
  }

  /** There is only one such matrix. */
  lemma StandardUnique<F(!new)>(f: Field<F>, elem: seq<F>, rows: Matrix<F>, rows': Matrix<F>, k: nat, m: nat)
    requires IsField(f) && Distinct(elem) && IsStandard(f, elem, rows, k, m) && IsStandard(f, elem, rows', k, m)
    ensures rows == rows'
  {
    hide IsField, ScaledQuotient, TrivialKernel, AnyRowsIndependent;
    var orig := PowerRows(f, elem, k);
    var inv, scale :| ScaledQuotient(f, orig, rows, inv, scale, k);
    var inv', scale' :| ScaledQuotient(f, orig, rows', inv', scale', k);
    TopTrivial(f, elem, k, m);
    forall r | 0 <= r < k + m ensures rows[r] == rows'[r] {
      if r >= k {
        forall j | 0 <= j < k ensures rows[r][j] == rows'[r][j] { QuotientUnique(f, orig, rows, rows', inv, inv', scale, scale', k, r, j); }
      }
    }
  }

  lemma TopTrivial<F(!new)>(f: Field<F>, elem: seq<F>, k: nat, m: nat)
    requires IsField(f) && Distinct(elem) && |elem| == k + m
    ensures TrivialKernel(f, PowerRows(f, elem, k)[..k], k)
  {
    hide IsField, Pow, TrivialKernel, AnyRowsIndependent;
    var orig := PowerRows(f, elem, k);
    var idx: seq<nat> := seq(k, i => i);
    VandermondeIndependent(f, orig, elem, k);
    SelectionIndependent(f, orig, k, idx);
    assert Select(orig, idx) == orig[..k];
  }

  /** The elements of the data rows other than row j. */
  function OtherElements<F>(elem: seq<F>, k: nat, j: nat): (s: seq<F>)
    requires j < k <= |elem|
  {
    elem[..j] + elem[j + 1..k]
  }

  lemma OthersAre<F>(elem: seq<F>, k: nat, j: nat)
    requires j < k <= |elem| && Distinct(elem)
    ensures |OtherElements(elem, k, j)| == k - 1 && Distinct(OtherElements(elem, k, j))
    ensures forall i :: 0 <= i < k - 1 ==> OtherElements(elem, k, j)[i] == elem[if i < j then i else i + 1]
  {
  }

  /** Column j of the quotient as a polynomial: it is one at the j-th element and zero at those of the other data rows. */
  lemma ColumnValues<F(!new)>(f: Field<F>, elem: seq<F>, rows: Matrix<F>, inv: Matrix<F>, scale: seq<F>, k: nat, m: nat, j: nat)
    requires IsField(f) && |elem| == k + m && ScaledQuotient(f, PowerRows(f, elem, k), rows, inv, scale, k) && |rows| == k + m && j < k
    ensures forall l :: 0 <= l < k ==> Eval(f, Column(inv, j), elem[l]) == if l == j then f.one else f.zero
    ensures forall r :: k <= r < k + m ==> rows[r][j] == f.Mul(Eval(f, Column(inv, j), elem[r]), scale[j])
  {
    hide IsField, Dot, Pow, Eval;
    var orig, p := PowerRows(f, elem, k), Column(inv, j);
    InvertsProduct(f, orig[..k], inv, k);
    forall l | 0 <= l < k ensures Eval(f, p, elem[l]) == if l == j then f.one else f.zero {
      PowersEval(f, elem[l], p);
      assert Product(f, orig[..k], inv, k)[l][j] == Identity(f, k)[l][j];
    }
    forall r | k <= r < k + m ensures rows[r][j] == f.Mul(Eval(f, p, elem[r]), scale[j]) { PowersEval(f, elem[r], p); }
  }

  /** Every entry of the format in closed form: times the product of e[k] - e[l] over the other data rows l, it is the
      product of e[r] - e[l]. */
  lemma StandardEntry<F(!new)>(f: Field<F>, elem: seq<F>, rows: Matrix<F>, k: nat, m: nat, r: nat, j: nat)
    requires IsField(f) && Distinct(elem) && IsStandard(f, elem, rows, k, m) && k <= r < k + m && j < k
    ensures f.Mul(rows[r][j], RootProduct(f, OtherElements(elem, k, j), elem[k])) == RootProduct(f, OtherElements(elem, k, j), elem[r])
  {
    hide IsField, ScaledQuotient, RootProduct, Eval, OtherElements, Distinct;
    var inv, scale :| ScaledQuotient(f, PowerRows(f, elem, k), rows, inv, scale, k);
    QuotientSizes(f, PowerRows(f, elem, k), rows, inv, scale, k);
    ColumnValues(f, elem, rows, inv, scale, k, m, j);
    OthersAre(elem, k, j);
    var others := OtherElements(elem, k, j);
    var c := Factored(f, Column(inv, j), others);
    Cancel(f, c, scale[j], RootProduct(f, others, elem[r]), RootProduct(f, others, elem[k]));
  }

  lemma QuotientSizes<F(!new)>(f: Field<F>, orig: Matrix<F>, rows: Matrix<F>, inv: Matrix<F>, scale: seq<F>, k: nat)
    requires ScaledQuotient(f, orig, rows, inv, scale, k)
    ensures Shape(inv, k, k) && |scale| == k
  {
  }

  lemma Cancel<F(!new)>(f: Field<F>, c: F, s: F, a: F, b: F)
    requires IsField(f) && f.Mul(f.Mul(c, b), s) == f.one
    ensures f.Mul(f.Mul(f.Mul(c, a), s), b) == a
  {
    hide IsField;
    // (c*a)*s*b == a*((c*b)*s)
    MulComm(f, c, a);
    MulAssoc(f, a, c, s);
    MulAssoc(f, a, f.Mul(c, s), b);
    MulAssoc(f, c, s, b);
    MulComm(f, s, b);
    MulAssoc(f, c, b, s);
    MulOne(f, a);
  }

  lemma VandermondeRowsAre<F(!new)>(f: Field<F>, rows: Matrix<F>, elem: seq<F>, k: nat)
    requires IsVandermonde(f, rows, elem, k)
    ensures rows == PowerRows(f, elem, k)
  {
    hide Powers;
  }

  /** Scaling the parity rows of a matrix of combinations with the identity on top. */
  lemma ScaledStandard<F(!new)>(f: Field<F>, elem: seq<F>, cur: Matrix<F>, rows: Matrix<F>, t: Matrix<F>, scale: seq<F>, k: nat, m: nat)
    requires IsField(f) && m >= 1 && |elem| == k + m && Combines(f, PowerRows(f, elem, k), cur, t, k)
    requires Reducing(f, cur, k, k) && Reducing(f, rows, k, k) && |cur| == |rows| == k + m && |scale| == k
    requires forall j :: 0 <= j < k ==> scale[j] != f.zero && rows[k][j] == f.one
    requires forall r, j :: k <= r < k + m && 0 <= j < k ==> rows[r][j] == f.Mul(cur[r][j], scale[j])
    ensures IsStandard(f, elem, rows, k, m)
  {
    hide IsField, Dot, PowerRows;
    var orig := PowerRows(f, elem, k);
    CombinesInverse(f, orig, cur, t, k);
    hide Inverts;
    forall r, j | k <= r < k + m && 0 <= j < k ensures rows[r][j] == f.Mul(Dot(f, orig[r], Column(Transpose(t, k), j), k), scale[j]) {
      assert Column(Transpose(t, k), j) == t[j];
    }
    assert ScaledQuotient(f, orig, rows, Transpose(t, k), scale, k);
  }

  // ----- building it

  /** Brings a nonzero entry to (i, i) and scales its column so that it is one. */
  method NormalizeDiagonal<F(==, !new)>(f: Field<F>, matrix: array2<F>, k: nat, i: nat, ghost orig: Matrix<F>, ghost t: Matrix<F>)
    returns (ghost t': Matrix<F>)
    requires IsField(f) && 1 <= i < k <= matrix.Length0 && matrix.Length1 == k
    requires Reducing(f, Rows(matrix), k, i) && Combines(f, orig, Rows(matrix), t, k) && Triangular(f, t, k, i + 1)
    modifies matrix
    ensures Reducing(f, Rows(matrix), k, i) && Row(matrix, i)[i] == f.one
    ensures old(Row(matrix, i)[i]) != f.zero ==> Combines(f, orig, Rows(matrix), t', k) && Triangular(f, t', k, i + 1)
  {
    t' := t;
    ghost var start := Rows(matrix);
    var nextRow := GetNonZeroDiagonal(f, matrix, i);
    SystematicPivotExists(f, start, k, i);
    assert nextRow != -1 by {
      var r :| i <= r < k && start[r][i] != f.zero;
      assert start[r][i] == matrix[r, i];
    }
    if nextRow != i {
      SwapMatrixRows(matrix, nextRow, i);
      SwapIndependent(f, start, k, nextRow, i);
    }
    ghost var mid := Rows(matrix);
    assert mid[i][i] == matrix[i, i] != f.zero;
    if matrix[i, i] != f.one {
      var elem := f.Inv(matrix[i, i]);
      MulInv(f, matrix[i, i]);
      ScaleColIndependent(f, mid, k, elem, i, 0);
      ColMult(f, matrix, elem, i, 0, matrix.Length0);
      if nextRow == i {
        CombinesScale(f, orig, mid, t, k, i, elem);
        TriangularScale(f, t, k, i, elem);
        t' := t[i := Scaled(f, t[i], elem)];
      }
      forall r | 0 <= r < i ensures Rows(matrix)[r] == Unit(f, k, r) { UnitTimesZero(f, f.zero, elem); }
    }
  }

  /** Zeroes row i outside the diagonal by adding multiples of column i to the other columns. */
  method ClearRow<F(==, !new)>(f: Field<F>, matrix: array2<F>, k: nat, i: nat, ghost orig: Matrix<F>, ghost t: Matrix<F>)
    returns (ghost t': Matrix<F>)
    requires IsField(f) && 1 <= i < k <= matrix.Length0 && matrix.Length1 == k
    requires Reducing(f, Rows(matrix), k, i) && Row(matrix, i)[i] == f.one
    requires Combines(f, orig, Rows(matrix), t, k) && Triangular(f, t, k, i + 1)
    modifies matrix
    ensures Reducing(f, Rows(matrix), k, i + 1)
    ensures Combines(f, orig, Rows(matrix), t', k) && Triangular(f, t', k, i + 1)
  {
    t' := t;
    for j := 0 to k
      invariant Reducing(f, Rows(matrix), k, i)
      invariant Combines(f, orig, Rows(matrix), t', k) && Triangular(f, t', k, i + 1)
      invariant Row(matrix, i)[i] == f.one
      invariant forall c :: 0 <= c < j && c != i ==> Row(matrix, i)[c] == f.zero
    {
      var rowVal := matrix[i, j];
      if i != j && rowVal != f.zero {
        ghost var cur := Rows(matrix);
        AddColIndependent(f, cur, k, rowVal, i, j);
        CombinesAdd(f, orig, cur, t', k, i, j, rowVal);
        TriangularAdd(f, t', k, i, j, rowVal);
        t' := t'[j := AddScaled(f, t'[j], rowVal, t'[i])];
        ColMultAndAdd(f, matrix, rowVal, i, j);
        MulOne(f, rowVal);
        AddSelf(f, rowVal);
        forall r | 0 <= r < i ensures Rows(matrix)[r] == Unit(f, k, r) { UnitTimesZero(f, cur[r][j], rowVal); }
        assert Row(matrix, i) == Rows(matrix)[i] == AddCol(f, cur[i], rowVal, i, j);
      }
    }
    assert Row(matrix, i) == Unit(f, k, i);
  }

  /** The first n columns of the parity rows are scaled by their factors, everything else is as before. */
  ghost predicate ParityScaled<F>(f: Field<F>, rows: Matrix<F>, before: Matrix<F>, scale: seq<F>, k: nat, n: nat) {
    && n <= k && n <= |scale| && Shape(rows, |before|, k) && Shape(before, |before|, k)
    && (forall r, c :: k <= r < |before| && 0 <= c < n ==> rows[r][c] == f.Mul(before[r][c], scale[c]))
    && (forall r, c :: k <= r < |before| && n <= c < k ==> rows[r][c] == before[r][c])
  }

  lemma ParityKept<F(!new)>(f: Field<F>, rows: Matrix<F>, before: Matrix<F>, scale: seq<F>, k: nat, n: nat)
    requires IsField(f) && n < k && ParityScaled(f, rows, before, scale, k, n) && |scale| == n
    ensures ParityScaled(f, rows, before, scale + [f.one], k, n + 1)
  {
    hide IsField;
    var scale' := scale + [f.one];
    forall r, c | k <= r < |before| && 0 <= c < n + 1 ensures rows[r][c] == f.Mul(before[r][c], scale'[c]) {
      MulOne(f, before[r][c]);
    }
  }

  lemma ParityStep<F(!new)>(f: Field<F>, rows: Matrix<F>, before: Matrix<F>, scale: seq<F>, k: nat, n: nat, e: F)
    requires IsField(f) && n < k <= |before| && |scale| == n + 1 && scale[n] == f.one && ParityScaled(f, rows, before, scale, k, n + 1)
    ensures ParityScaled(f, ScaleColAll(f, rows, e, n, k, |rows|), before, scale[n := e], k, n + 1)
  {
    hide IsField;
    var rows', scale' := ScaleColAll(f, rows, e, n, k, |rows|), scale[n := e];
    forall r, c | k <= r < |before| && 0 <= c < n + 1 ensures rows'[r][c] == f.Mul(before[r][c], scale'[c]) {
      MulOne(f, before[r][c]);
    }
  }

  /** Makes the first parity row all ones by scaling the columns of the parity rows. */
  method MakeXorParity<F(==, !new)>(f: Field<F>, matrix: array2<F>, k: nat) returns (ghost scale: seq<F>)
    requires IsField(f) && k < matrix.Length0 && matrix.Length1 == k
    requires Reducing(f, Rows(matrix), k, k)
    modifies matrix
    ensures Reducing(f, Rows(matrix), k, k)
    ensures forall c :: 0 <= c < k ==> Row(matrix, k)[c] == f.one
    ensures |scale| == k && forall c :: 0 <= c < k ==> scale[c] != f.zero
    ensures ParityScaled(f, Rows(matrix), old(Rows(matrix)), scale, k, k)
  {
    scale := [];
    for i := 0 to k
      invariant Reducing(f, Rows(matrix), k, k)
      invariant |scale| == i && forall c :: 0 <= c < i ==> scale[c] != f.zero
      invariant ParityScaled(f, Rows(matrix), old(Rows(matrix)), scale, k, i)
      invariant forall c :: 0 <= c < i ==> Row(matrix, k)[c] == f.one
    {
      var rowVal := matrix[k, i];
      ParityKept(f, Rows(matrix), old(Rows(matrix)), scale, k, i);
      scale := scale + [f.one];
      if rowVal != f.one {
        ghost var cur := Rows(matrix);
        assert cur[k][i] == rowVal;
        ParityStep(f, cur, old(Rows(matrix)), scale, k, i, f.Inv(rowVal));
        scale := scale[i := f.Inv(rowVal)];
        ParityEntriesNonzero(f, cur, k, k, i);
        MulInv(f, rowVal);
        ScaleColIndependent(f, cur, k, f.Inv(rowVal), i, k);
        ColMult(f, matrix, f.Inv(rowVal), i, k, matrix.Length0);
        assert Row(matrix, k) == Rows(matrix)[k] == ScaleCol(f, cur[k], f.Inv(rowVal), i);
      }
    }
  }

  lemma FirstRowIsUnit<F(!new)>(f: Field<F>, k: nat)
    requires IsField(f) && k >= 1
    ensures Powers(f, f.zero, k) == Unit(f, k, 0)
  {
    forall c | 0 <= c < k ensures Powers(f, f.zero, k)[c] == Unit(f, k, 0)[c] { PowZero(f, c); }
  }

  method MakeSystematicMatrix<F(0, ==, !new)>(f: Field<F>, elem: seq<F>, k: nat, m: nat) returns (matrix: array2<F>)
    requires IsField(f) && k >= 1 && m >= 1
    requires |elem| == k + m && elem[0] == f.zero && Distinct(elem)
    ensures fresh(matrix) && matrix.Length0 == k + m && matrix.Length1 == k
    ensures IsGenerator(f, Rows(matrix), k, m)
    ensures IsStandard(f, elem, Rows(matrix), k, m)
    ensures forall c :: 0 <= c < k ==> Row(matrix, k)[c] == f.one
  {
    hide IsField, AnyRowsIndependent, Combines, Triangular, IsVandermonde, Distinct, PowerRows, IsStandard, ParityScaled;
    matrix := CreateNonSystematicVandMatrix(f, elem, k, m);
    VandermondeIndependent(f, Rows(matrix), elem, k);
    ghost var orig := Rows(matrix);
    FirstPowers(f, orig, elem, k);
    VandermondeRowsAre(f, orig, elem, k);
    CombinesStart(f, orig, k);
    ghost var t := Identity(f, k);
    TriangularNext(f, t, k, 0);
    for i := 1 to k
      invariant Reducing(f, Rows(matrix), k, i) && Combines(f, orig, Rows(matrix), t, k) && Triangular(f, t, k, i)
    {
      PivotInPlace(f, orig, elem, Rows(matrix), t, k, i);
      TriangularNext(f, t, k, i);
      t := NormalizeDiagonal(f, matrix, k, i, orig, t);
      t := ClearRow(f, matrix, k, i, orig, t);
    }
    ghost var cur := Rows(matrix);
    ghost var scale := MakeXorParity(f, matrix, k);
    ScaledParts(f, Rows(matrix), cur, scale, k);
    ScaledStandard(f, elem, cur, Rows(matrix), t, scale, k, m);
  }

  lemma FirstPowers<F(!new)>(f: Field<F>, rows: Matrix<F>, elem: seq<F>, k: nat)
    requires IsField(f) && k >= 1 && |elem| > 0 && elem[0] == f.zero && IsVandermonde(f, rows, elem, k)
    ensures Shape(rows, |elem|, k) && rows[0] == Unit(f, k, 0)
  {
    FirstRowIsUnit(f, k);
  }

  lemma ScaledParts<F>(f: Field<F>, rows: Matrix<F>, before: Matrix<F>, scale: seq<F>, k: nat)
    requires ParityScaled(f, rows, before, scale, k, k)
    ensures Shape(rows, |before|, k) && Shape(before, |before|, k)
    ensures forall r, c :: k <= r < |before| && 0 <= c < k ==> rows[r][c] == f.Mul(before[r][c], scale[c])
  {
  }
}
