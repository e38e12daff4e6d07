/** Matrices any k of whose rows are independent ("maximum distance separable").

    Independence is stated without determinants: a vector that is not zero is
    orthogonal to fewer than k rows.
 */
module Mds {
  import opened Fields
  import opened Vectors

  type Matrix<F> = seq<seq<F>>

  ghost predicate Shape<F>(rows: Matrix<F>, n: nat, k: nat) {
    && |rows| == n
    && forall i :: 0 <= i < n ==> |rows[i]| == k
  }

  /** The rows orthogonal to v. */
  ghost function ZeroRows<F>(f: Field<F>, rows: Matrix<F>, v: seq<F>): (s: set<nat>)
    requires Shape(rows, |rows|, |v|)
  {
    set i: nat | i < |rows| && Dot(f, rows[i], v, |v|) == f.zero
  }

  ghost predicate AnyRowsIndependent<F(!new)>(f: Field<F>, rows: Matrix<F>, k: nat) {
    && Shape(rows, |rows|, k)
    && forall v: seq<F> {:trigger ZeroRows(f, rows, v)} ::
         |v| == k && !IsZero(f, v) ==> |ZeroRows(f, rows, v)| < k
  }

  /** Only the zero vector is orthogonal to every row. */
  ghost predicate TrivialKernel<F(!new)>(f: Field<F>, rows: Matrix<F>, k: nat) {
    && Shape(rows, |rows|, k)
    && forall v: seq<F> {:trigger Orthogonal(f, rows, v)} ::
         |v| == k && Orthogonal(f, rows, v) ==> IsZero(f, v)
  }

  ghost predicate Orthogonal<F>(f: Field<F>, rows: Matrix<F>, v: seq<F>)
    requires Shape(rows, |rows|, |v|)
  {
    forall i :: 0 <= i < |rows| ==> Dot(f, rows[i], v, |v|) == f.zero
  }

  /** The value of every row on v. */
  ghost function Apply<F>(f: Field<F>, rows: Matrix<F>, v: seq<F>): (r: seq<F>)
    requires Shape(rows, |rows|, |v|)
    ensures |r| == |rows|
    ensures forall i :: 0 <= i < |rows| ==> r[i] == Dot(f, rows[i], v, |v|)
  {
    seq(|rows|, i requires 0 <= i < |rows| => Dot(f, rows[i], v, |v|))
  }

  ghost predicate Distinct<T>(s: seq<T>) {
    forall i, j :: 0 <= i < j < |s| ==> s[i] != s[j]
  }

  ghost predicate Indices(s: seq<nat>, n: nat) {
    forall i :: 0 <= i < |s| ==> s[i] < n
  }

  /** The rows at the given indices, in that order. */
  function Select<T>(rows: seq<T>, idx: seq<nat>): (r: seq<T>)
    requires forall i :: 0 <= i < |idx| ==> idx[i] < |rows|
    ensures |r| == |idx| && forall i :: 0 <= i < |idx| ==> r[i] == rows[idx[i]]
  {
    seq(|idx|, i requires 0 <= i < |idx| => rows[idx[i]])
  }

  lemma DistinctLast<T>(s: seq<T>, n: nat)
    requires Distinct(s) && |s| == n + 1
    ensures (set i | 0 <= i < |s| :: s[i]) == (set i | 0 <= i < n :: s[..n][i]) + {s[n]}
    ensures s[n] !in (set i | 0 <= i < n :: s[..n][i]) && Distinct(s[..n])
  {
    var all, front := set i | 0 <= i < |s| :: s[i], set i | 0 <= i < n :: s[..n][i];
    forall x | x in front ensures x in all {
      var i :| 0 <= i < n && s[..n][i] == x;
      assert s[i] == x;
    }
  }

  lemma {:induction false} DistinctCard<T>(s: seq<T>)
    requires Distinct(s)
    ensures |set i | 0 <= i < |s| :: s[i]| == |s|
  {
    if s != [] {
      DistinctLast(s, |s| - 1);
      hide Distinct;
      DistinctCard(s[..|s| - 1]);
    }
  }

  lemma SubsetCard<T>(a: set<T>, b: set<T>)
    requires a <= b
    ensures |a| <= |b|
  {
    assert b == a + (b - a);
  }

  /** {0, ..., n-1} */
  ghost function UpTo(n: nat): (s: set<nat>)
    ensures |s| == n && forall i: nat :: i in s <==> i < n
  {
    if n == 0 then {} else UpTo(n - 1) + {n - 1}
  }

  lemma UpToSnoc(n: nat)
    ensures UpTo(0) == {} && UpTo(n + 1) == UpTo(n) + {n} && n !in UpTo(n)
  {
  }

  lemma SelectNone<T>(rows: seq<T>)
    ensures Select(rows, []) == []
  {
  }

  lemma SelectSnoc<T>(rows: seq<T>, idx: seq<nat>, x: nat)
    requires (forall i :: 0 <= i < |idx| ==> idx[i] < |rows|) && x < |rows|
    ensures Select(rows, idx + [x]) == Select(rows, idx) + [rows[x]]
  {
  }

  /** k distinct rows of such a matrix, in any order, have a trivial kernel. */
  lemma SelectionIndependent<F(!new)>(f: Field<F>, rows: Matrix<F>, k: nat, idx: seq<nat>)
    requires AnyRowsIndependent(f, rows, k)
    requires |idx| == k && Distinct(idx) && Indices(idx, |rows|)
    ensures TrivialKernel(f, Select(rows, idx), k)
  {
    var sel := Select(rows, idx);
    forall v: seq<F> | |v| == k && Orthogonal(f, sel, v) ensures IsZero(f, v) {
      if !IsZero(f, v) {
        var z := ZeroRows(f, rows, v);
        var s := set i | 0 <= i < |idx| :: idx[i];
        DistinctCard(idx);
        forall x | x in s ensures x in z {
          var i :| 0 <= i < |idx| && idx[i] == x;
          assert sel[i] == rows[x];
        }
        SubsetCard(s, z);
        assert false;
      }
    }
  }

  /** Distinct numbers below n are at most n. */
  lemma DistinctBelow(l: seq<nat>, n: nat)
    requires Distinct(l) && forall i :: 0 <= i < |l| ==> l[i] < n
    ensures |l| <= n
  {
    DistinctCard(l);
    SubsetCard(set i | 0 <= i < |l| :: l[i], UpTo(n));
  }
}
