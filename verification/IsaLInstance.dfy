/** The contract of the ISA-L functions can be met: the field modulo 0x11d, and inversion of its matrices. */
module IsaLInstance {
  import opened Fields
  import opened Vectors
  import opened Mds
  import opened MatrixOps
  import opened GaussJordan
  import opened Bytes
  import opened Polynomials
  import opened GaloisByte
  import opened IsaL

  // ----- an invertible matrix has an inverse

  /** A state of the elimination: what was done to the matrix, done to the identity, which stays invertible. */
  ghost predicate Eliminating<F(!new)>(f: Field<F>, orig: Matrix<F>, cur: Matrix<F>, inv: Matrix<F>, n: nat) {
    Tracks(f, orig, cur, inv, n) && TrivialKernel(f, cur, n) && TrivialKernel(f, inv, n)
  }

  lemma PivotRow<F(!new)>(f: Field<F>, orig: Matrix<F>, cur: Matrix<F>, inv: Matrix<F>, n: nat, i: nat) returns (cur': Matrix<F>, inv': Matrix<F>)
    requires IsField(f) && Eliminating(f, orig, cur, inv, n) && i < n && Reduced(f, cur, n, i)
    ensures Eliminating(f, orig, cur', inv', n) && Clearing(f, cur', n, i, 0)
  {
    if forall r :: i <= r < n ==> cur[r][i] == f.zero { NoPivotSingular(f, cur, n, i); }
    var r: nat :| i <= r < n && cur[r][i] != f.zero;
    TracksSwap(f, orig, cur, inv, n, r, i);
    KernelSwap(f, cur, n, r, i);
    KernelSwap(f, inv, n, r, i);
    var mid, midInv := SwapAt(cur, r, i), SwapAt(inv, r, i);
    var c := f.Inv(mid[i][i]);
    InverseNonzero(f, mid[i][i]);
    ScaleKeepsZero(f, mid[i], c);
    TracksScale(f, orig, mid, midInv, n, i, c);
    KernelScale(f, mid, n, i, c);
    KernelScale(f, midInv, n, i, c);
    cur', inv' := mid[i := Scaled(f, mid[i], c)], midInv[i := Scaled(f, midInv[i], c)];
  }

  lemma InverseNonzero<F(!new)>(f: Field<F>, x: F)
    requires IsField(f) && x != f.zero
    ensures f.Inv(x) != f.zero && f.Mul(x, f.Inv(x)) == f.one
  {
    MulInv(f, x);
    MulZero(f, x);
  }

  lemma {:induction false} ClearRows<F(!new)>(f: Field<F>, orig: Matrix<F>, cur: Matrix<F>, inv: Matrix<F>, n: nat, i: nat, j: nat)
    returns (cur': Matrix<F>, inv': Matrix<F>)
    requires IsField(f) && Eliminating(f, orig, cur, inv, n) && i < n && j <= n && Clearing(f, cur, n, i, j)
    ensures Eliminating(f, orig, cur', inv', n) && Reduced(f, cur', n, i + 1)
    decreases n - j
  {
    if j == n {
      cur', inv' := cur, inv;
    } else if j == i {
      cur', inv' := ClearRows(f, orig, cur, inv, n, i, j + 1);
    } else {
      var val := cur[j][i];
      ClearEntry(f, cur[j], cur[i], i);
      TracksAdd(f, orig, cur, inv, n, i, j, val);
      KernelAdd(f, cur, n, i, j, val);
      KernelAdd(f, inv, n, i, j, val);
      cur', inv' := ClearRows(f, orig, cur[j := AddScaled(f, cur[j], val, cur[i])], inv[j := AddScaled(f, inv[j], val, inv[i])], n, i, j + 1);
    }
  }

  lemma {:induction false} Eliminate<F(!new)>(f: Field<F>, orig: Matrix<F>, cur: Matrix<F>, inv: Matrix<F>, n: nat, i: nat) returns (inv': Matrix<F>)
    requires IsField(f) && Eliminating(f, orig, cur, inv, n) && i <= n && Reduced(f, cur, n, i)
    ensures Inverts(f, inv', orig, n) && TrivialKernel(f, inv', n)
    decreases n - i
  {
    if i == n {
      ReducedIdentity(f, cur, n);
      TracksInverts(f, orig, inv, n);
      inv' := inv;
    } else {
      var cur1, inv1 := PivotRow(f, orig, cur, inv, n, i);
      var cur2, inv2 := ClearRows(f, orig, cur1, inv1, n, i, 0);
      inv' := Eliminate(f, orig, cur2, inv2, n, i + 1);
    }
  }

  lemma LeftInverse<F(!new)>(f: Field<F>, rows: Matrix<F>, n: nat) returns (inv: Matrix<F>)
    requires IsField(f) && Shape(rows, n, n) && TrivialKernel(f, rows, n)
    ensures Inverts(f, inv, rows, n) && TrivialKernel(f, inv, n)
  {
    TracksStart(f, rows, n);
    IdentityInvertible(f, n);
    inv := Eliminate(f, rows, rows, Identity(f, n), n, 0);
  }

  /** The left inverse is a right inverse: its own left inverse acts like the matrix. */
  lemma TwoSided<F(!new)>(f: Field<F>, rows: Matrix<F>, n: nat) returns (inv: Matrix<F>)
    requires IsField(f) && Shape(rows, n, n) && TrivialKernel(f, rows, n)
    ensures Inverts(f, inv, rows, n) && Inverts(f, rows, inv, n)
  {
    inv := LeftInverse(f, rows, n);
    var back := LeftInverse(f, inv, n);
    forall v: seq<F> | |v| == n ensures Apply(f, rows, Apply(f, inv, v)) == v {
      var u := Apply(f, inv, v);
      assert Apply(f, inv, Apply(f, rows, u)) == u;
      assert Apply(f, back, Apply(f, inv, Apply(f, rows, u))) == Apply(f, rows, u);
      assert Apply(f, back, Apply(f, inv, v)) == v;
    }
  }

  // ----- the instance

  /** Two-sided inverse or failure. */
  ghost function InvertMatrix(f: Field<bv8>, rows: Matrix<bv8>, n: nat): Inverse {
    if exists inv: Matrix<bv8> :: Inverts(f, inv, rows, n) && Inverts(f, rows, inv, n)
    then var inv: Matrix<bv8> :| Inverts(f, inv, rows, n) && Inverts(f, rows, inv, n); Inverse.Inverse(inv)
    else Singular
  }

  ghost function Gf256(): IsaL { IsaL(ByteField(), (rows: Matrix<bv8>, n: nat) => InvertMatrix(ByteField(), rows, n)) }

  lemma InvertMatrixMeets(f: Field<bv8>, rows: Matrix<bv8>, n: nat)
    requires IsField(f) && Shape(rows, n, n)
    ensures InvertsOrFails(f, rows, n, InvertMatrix(f, rows, n))
  {
    hide Inverts, IsField;
    if InvertMatrix(f, rows, n).Singular? && TrivialKernel(f, rows, n) {
      var inv := TwoSided(f, rows, n);
      assert false;
    }
  }

  lemma ByteFieldMeets()
    ensures IsByteField(ByteField())
  {
    hide IsField, Pow, ByteInv, ByteMul, XorByte;
    ByteFieldIsField();
    OrderOfTwo();
    forall i: nat, j: nat | 1 <= i < j <= 255 ensures Pow(ByteField(), 2, i) != Pow(ByteField(), 2, j) { PowersOfTwo(i, j); }
  }

  lemma Gf256MeetsContract()
    ensures Contract(Gf256())
  {
    hide IsByteField, InvertMatrix, ByteField, InvertsOrFails;
    ByteFieldMeets();
    FieldOf(ByteField());
    forall rows: Matrix<bv8>, n: nat | Shape(rows, n, n) ensures InvertsOrFails(ByteField(), rows, n, Gf256().invert(rows, n)) {
      InvertMatrixMeets(ByteField(), rows, n);
    }
  }
}
