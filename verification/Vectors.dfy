/** Dot products over a field: the linear forms every codec evaluates. */
module Vectors {
  import opened Fields

  /** a[0]*b[0] + ... + a[n-1]*b[n-1], summed in the order the encoding loops use. */
  function Dot<F>(f: Field<F>, a: seq<F>, b: seq<F>, n: nat): F
    requires n <= |a| && n <= |b|
  {
    if n == 0 then f.zero
    else f.Add(Dot(f, a, b, n - 1), f.Mul(a[n - 1], b[n - 1]))
  }

  lemma DotUnfold<F>(f: Field<F>, a: seq<F>, b: seq<F>, n: nat)
    ensures Dot(f, a, b, 0) == f.zero
    ensures n < |a| && n < |b| ==> Dot(f, a, b, n + 1) == f.Add(Dot(f, a, b, n), f.Mul(a[n], b[n]))
  {
  }

  function Zeros<F>(f: Field<F>, n: nat): (v: seq<F>)
    ensures |v| == n && forall i :: 0 <= i < n ==> v[i] == f.zero
  {
    seq(n, i => f.zero)
  }

  /** The i-th standard basis vector of length n. */
  function Unit<F>(f: Field<F>, n: nat, i: nat): (v: seq<F>)
    requires i < n
    ensures |v| == n && forall j :: 0 <= j < n ==> v[j] == if j == i then f.one else f.zero
  {
    seq(n, j => if j == i then f.one else f.zero)
  }

  ghost predicate IsZero<F>(f: Field<F>, v: seq<F>) {
    forall i :: 0 <= i < |v| ==> v[i] == f.zero
  }

  lemma DotCong<F>(f: Field<F>, a: seq<F>, b: seq<F>, a': seq<F>, b': seq<F>, n: nat)
    requires n <= |a| && n <= |b| && n <= |a'| && n <= |b'|
    requires forall i :: 0 <= i < n ==> a[i] == a'[i] && b[i] == b'[i]
    ensures Dot(f, a, b, n) == Dot(f, a', b', n)
  {
  }

  lemma {:induction false} DotComm<F(!new)>(f: Field<F>, a: seq<F>, b: seq<F>, n: nat)
    requires IsField(f)
    requires n <= |a| && n <= |b|
    ensures Dot(f, a, b, n) == Dot(f, b, a, n)
  {
    if n > 0 {
      DotComm(f, a, b, n - 1);
      MulComm(f, a[n - 1], b[n - 1]);
    }
  }

  lemma {:induction false} DotZeroLeft<F(!new)>(f: Field<F>, a: seq<F>, b: seq<F>, n: nat)
    requires IsField(f)
    requires n <= |a| && n <= |b|
    requires forall i :: 0 <= i < n ==> a[i] == f.zero || b[i] == f.zero
    ensures Dot(f, a, b, n) == f.zero
  {
    if n > 0 {
      DotZeroLeft(f, a, b, n - 1);
      MulZero(f, b[n - 1]);
      MulZero(f, a[n - 1]);
      AddZero(f, f.zero);
    }
  }

  /** A row that differs from a in one place i only: the form changes by the difference times b[i]. */
  lemma {:induction false} DotOnly<F(!new)>(f: Field<F>, a: seq<F>, b: seq<F>, n: nat, i: nat)
    requires IsField(f)
    requires i < n <= |a| && n <= |b|
    requires forall j :: 0 <= j < n && j != i ==> a[j] == f.zero || b[j] == f.zero
    ensures Dot(f, a, b, n) == f.Mul(a[i], b[i])
  {
    if i == n - 1 {
      DotZeroLeft(f, a, b, n - 1);
    } else {
      DotOnly(f, a, b, n - 1, i);
      MulZero(f, b[n - 1]);
      MulZero(f, a[n - 1]);
    }
    AddZero(f, f.Mul(a[i], b[i]));
  }

  lemma DotUnit<F(!new)>(f: Field<F>, e: seq<F>, b: seq<F>, n: nat, i: nat)
    requires IsField(f)
    requires i < n <= |b| && e == Unit(f, n, i)
    ensures Dot(f, e, b, n) == b[i]
    ensures Dot(f, b, e, n) == b[i]
  {
    DotOnly(f, e, b, n, i);
    DotOnly(f, b, e, n, i);
    MulOne(f, b[i]);
  }

  lemma {:induction false} DotScale<F(!new)>(f: Field<F>, c: F, a: seq<F>, ca: seq<F>, b: seq<F>, n: nat)
    requires IsField(f)
    requires n <= |a| && n <= |ca| && n <= |b|
    requires forall i :: 0 <= i < n ==> ca[i] == f.Mul(c, a[i])
    ensures Dot(f, ca, b, n) == f.Mul(c, Dot(f, a, b, n))
  {
    if n == 0 {
      MulZero(f, c);
    } else {
      DotScale(f, c, a, ca, b, n - 1);
      MulAssoc(f, c, a[n - 1], b[n - 1]);
      Distrib(f, c, Dot(f, a, b, n - 1), f.Mul(a[n - 1], b[n - 1]));
    }
  }

  lemma {:induction false} DotAdd<F(!new)>(f: Field<F>, a: seq<F>, a': seq<F>, s: seq<F>, b: seq<F>, n: nat)
    requires IsField(f)
    requires n <= |a| && n <= |a'| && n <= |s| && n <= |b|
    requires forall i :: 0 <= i < n ==> s[i] == f.Add(a[i], a'[i])
    ensures Dot(f, s, b, n) == f.Add(Dot(f, a, b, n), Dot(f, a', b, n))
  {
    if n == 0 {
      AddZero(f, f.zero);
    } else {
      DotAdd(f, a, a', s, b, n - 1);
      Distrib(f, b[n - 1], a[n - 1], a'[n - 1]);
      AddSwapInner(f, Dot(f, a, b, n - 1), Dot(f, a', b, n - 1), f.Mul(a[n - 1], b[n - 1]), f.Mul(a'[n - 1], b[n - 1]));
    }
  }

  function AddScaled<F>(f: Field<F>, a: seq<F>, c: F, b: seq<F>): (s: seq<F>)
    requires |a| == |b|
    ensures |s| == |a| && forall i :: 0 <= i < |a| ==> s[i] == f.Add(a[i], f.Mul(b[i], c))
  {
    seq(|a|, i requires 0 <= i < |a| => f.Add(a[i], f.Mul(b[i], c)))
  }

  function Scaled<F>(f: Field<F>, a: seq<F>, c: F): (s: seq<F>)
    ensures |s| == |a| && forall i :: 0 <= i < |a| ==> s[i] == f.Mul(a[i], c)
  {
    seq(|a|, i requires 0 <= i < |a| => f.Mul(a[i], c))
  }

  lemma DotScaled<F(!new)>(f: Field<F>, a: seq<F>, c: F, v: seq<F>)
    requires IsField(f) && |a| <= |v|
    ensures Dot(f, Scaled(f, a, c), v, |a|) == f.Mul(c, Dot(f, a, v, |a|))
  {
    forall i | 0 <= i < |a| ensures Scaled(f, a, c)[i] == f.Mul(c, a[i]) { MulComm(f, a[i], c); }
    DotScale(f, c, a, Scaled(f, a, c), v, |a|);
  }

  /** Adding a multiple of one row to another adds that multiple of its value. */
  lemma DotAddScaled<F(!new)>(f: Field<F>, a: seq<F>, c: F, b: seq<F>, v: seq<F>)
    requires IsField(f) && |a| == |b| <= |v|
    ensures Dot(f, AddScaled(f, a, c, b), v, |a|) == f.Add(Dot(f, a, v, |a|), f.Mul(c, Dot(f, b, v, |a|)))
  {
    DotAdd(f, a, Scaled(f, b, c), AddScaled(f, a, c, b), v, |a|);
    DotScaled(f, b, c, v);
  }
}
