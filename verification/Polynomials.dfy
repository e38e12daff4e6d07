/** Polynomials over a field, and why a Vandermonde matrix has independent rows. */
module Polynomials {
  import opened Fields
  import opened Vectors
  import opened Mds

  function Pow<F>(f: Field<F>, x: F, n: nat): F {
    if n == 0 then f.one else f.Mul(Pow(f, x, n - 1), x)
  }

  /** 1, x, x^2, ..., x^(k-1) */
  function Powers<F>(f: Field<F>, x: F, k: nat): (r: seq<F>)
    ensures |r| == k && forall j :: 0 <= j < k ==> r[j] == Pow(f, x, j)
  {
    seq(k, j requires 0 <= j < k => Pow(f, x, j))
  }

  /** Horner's rule; p[0] is the constant coefficient. */
  ghost function Eval<F>(f: Field<F>, p: seq<F>, x: F): F {
    if p == [] then f.zero else f.Add(p[0], f.Mul(x, Eval(f, p[1..], x)))
  }

  /** The quotient of p by (x - a). */
  ghost function Quotient<F>(f: Field<F>, p: seq<F>, a: F): (q: seq<F>)
    ensures |q| == if p == [] then 0 else |p| - 1
  {
    if |p| <= 1 then [] else [Eval(f, p[1..], a)] + Quotient(f, p[1..], a)
  }

  /** p(x) - p(a) = (x - a) * quotient(x) */
  lemma {:induction false} Division<F(!new)>(f: Field<F>, p: seq<F>, a: F, x: F)
    requires IsField(f)
    ensures f.Add(Eval(f, p, x), Eval(f, p, a)) == f.Mul(f.Add(x, a), Eval(f, Quotient(f, p, a), x))
  {
    if |p| == 0 {
      AddZero(f, f.zero);
      MulZero(f, f.Add(x, a));
    } else {
      var w := p[1..];
      var wx, wa, q := Eval(f, w, x), Eval(f, w, a), Eval(f, Quotient(f, w, a), x);
      var xa := f.Add(x, a);
      Division(f, w, a, x);
      AddSwapInner(f, p[0], f.Mul(x, wx), p[0], f.Mul(a, wa));
      AddSelf(f, p[0]);
      AddZero(f, f.Add(f.Mul(x, wx), f.Mul(a, wa)));
      // x*wx + a*wa == x*(wx + wa) + (x + a)*wa
      Distrib(f, x, wx, wa);
      Distrib(f, wa, x, a);
      AddAssoc(f, f.Mul(x, wx), f.Mul(x, wa), f.Add(f.Mul(x, wa), f.Mul(a, wa)));
      AddAssoc(f, f.Mul(x, wa), f.Mul(x, wa), f.Mul(a, wa));
      AddSelf(f, f.Mul(x, wa));
      AddZero(f, f.Mul(a, wa));
      assert f.Add(f.Mul(x, wx), f.Mul(a, wa)) == f.Add(f.Mul(x, f.Mul(xa, q)), f.Mul(xa, wa));
      // x*(xa*q) == xa*(x*q)
      MulAssoc(f, x, xa, q);
      MulComm(f, x, xa);
      MulAssoc(f, xa, x, q);
      Distrib(f, xa, f.Mul(x, q), wa);
      AddComm(f, wa, f.Mul(x, q));
      if |p| > 1 {
        assert Quotient(f, p, a)[1..] == Quotient(f, w, a);
      } else {
        MulZero(f, x);
        MulZero(f, xa);
        AddZero(f, f.zero);
      }
    }
  }

  lemma {:induction false} QuotientNonzero<F(!new)>(f: Field<F>, p: seq<F>, a: F)
    requires IsField(f)
    requires IsZero(f, Quotient(f, p, a)) && Eval(f, p, a) == f.zero
    ensures IsZero(f, p)
  {
    if |p| > 0 {
      var w := p[1..];
      if |p| == 1 {
        assert w == [];
      } else {
        var q := Quotient(f, p, a);
        assert q[0] == Eval(f, w, a);
        assert q[1..] == Quotient(f, w, a);
        forall i | 0 <= i < |q[1..]| ensures q[1..][i] == f.zero { assert q[1..][i] == q[i + 1]; }
        QuotientNonzero(f, w, a);
        forall i | 1 <= i < |p| ensures p[i] == f.zero { assert p[i] == w[i - 1]; }
      }
      MulZero(f, a);
      AddZero(f, p[0]);
    }
  }

  /** A polynomial with k coefficients, not all zero, has fewer than k roots. */
  lemma {:induction false} FewRoots<F(!new)>(f: Field<F>, p: seq<F>, roots: set<F>)
    requires IsField(f)
    requires !IsZero(f, p)
    requires forall x :: x in roots ==> Eval(f, p, x) == f.zero
    ensures |roots| < |p|
    decreases |p|
  {
    if roots != {} {
      var a :| a in roots;
      var q := Quotient(f, p, a);
      if IsZero(f, q) { QuotientNonzero(f, p, a); }
      forall x | x in roots - {a} ensures Eval(f, q, x) == f.zero {
        Division(f, p, a, x);
        AddZero(f, f.zero);
        NoZeroDivisors(f, f.Add(x, a), Eval(f, q, x));
        if f.Add(x, a) == f.zero { SumZero(f, x, a); }
      }
      FewRoots(f, q, roots - {a});
    }
  }

  /** (x - r) multiplied over all the roots. */
  ghost function RootProduct<F>(f: Field<F>, roots: seq<F>, x: F): F {
    if roots == [] then f.one else f.Mul(RootProduct(f, roots[..|roots| - 1], x), f.Add(x, roots[|roots| - 1]))
  }

  lemma ConstantValue<F(!new)>(f: Field<F>, p: seq<F>, x: F)
    requires IsField(f) && |p| == 1
    ensures Eval(f, p, x) == p[0] == f.Mul(p[0], f.one)
  {
    assert p[1..] == [];
    MulZero(f, x);
    AddZero(f, p[0]);
    MulOne(f, p[0]);
  }

  /** A polynomial is a multiple of the product over its roots, if it has as many as its degree. */
  lemma {:induction false} Factored<F(!new)>(f: Field<F>, p: seq<F>, roots: seq<F>) returns (c: F)
    requires IsField(f) && Distinct(roots) && |p| == |roots| + 1
    requires forall i :: 0 <= i < |roots| ==> Eval(f, p, roots[i]) == f.zero
    ensures forall x {:trigger RootProduct(f, roots, x)} :: Eval(f, p, x) == f.Mul(c, RootProduct(f, roots, x))
    decreases |p|
  {
    hide IsField, Eval, Quotient;
    if roots == [] {
      c := p[0];
      forall x ensures Eval(f, p, x) == f.Mul(c, RootProduct(f, roots, x)) { ConstantValue(f, p, x); }
    } else {
      var n := |roots| - 1;
      var front, a, q := roots[..n], roots[n], Quotient(f, p, roots[n]);
      forall i | 0 <= i < n ensures Eval(f, q, front[i]) == f.zero { RootOfQuotient(f, p, a, roots[i]); }
      c := Factored(f, q, front);
      forall x ensures Eval(f, p, x) == f.Mul(c, RootProduct(f, roots, x)) {
        TimesRoot(f, p, a, x);
        MulComm(f, f.Add(x, a), Eval(f, q, x));
        MulAssoc(f, c, RootProduct(f, front, x), f.Add(x, a));
      }
    }
  }

  /** (x - a) times the quotient is p(x), at a root a. */
  lemma TimesRoot<F(!new)>(f: Field<F>, p: seq<F>, a: F, x: F)
    requires IsField(f) && Eval(f, p, a) == f.zero
    ensures Eval(f, p, x) == f.Mul(f.Add(x, a), Eval(f, Quotient(f, p, a), x))
  {
    hide IsField, Eval, Quotient;
    Division(f, p, a, x);
    AddZero(f, Eval(f, p, x));
  }

  lemma RootOfQuotient<F(!new)>(f: Field<F>, p: seq<F>, a: F, x: F)
    requires IsField(f) && Eval(f, p, a) == f.zero && Eval(f, p, x) == f.zero && x != a
    ensures Eval(f, Quotient(f, p, a), x) == f.zero
  {
    hide IsField, Eval, Quotient;
    TimesRoot(f, p, a, x);
    NoZeroDivisors(f, f.Add(x, a), Eval(f, Quotient(f, p, a), x));
    if f.Add(x, a) == f.zero { SumZero(f, x, a); }
  }

  lemma {:induction false} DotFront<F(!new)>(f: Field<F>, a: seq<F>, b: seq<F>, n: nat)
    requires IsField(f)
    requires 0 < n <= |a| && n <= |b|
    ensures Dot(f, a, b, n) == f.Add(f.Mul(a[0], b[0]), Dot(f, a[1..], b[1..], n - 1))
  {
    if n == 1 {
      AddComm(f, f.zero, f.Mul(a[0], b[0]));
    } else {
      DotFront(f, a, b, n - 1);
      AddAssoc(f, f.Mul(a[0], b[0]), Dot(f, a[1..], b[1..], n - 2), f.Mul(a[n - 1], b[n - 1]));
    }
  }

  /** The product of a row of powers with the coefficients is the polynomial's value. */
  lemma {:induction false} PowersEval<F(!new)>(f: Field<F>, x: F, p: seq<F>)
    requires IsField(f)
    ensures Dot(f, Powers(f, x, |p|), p, |p|) == Eval(f, p, x)
  {
    if |p| > 0 {
      var r, w := Powers(f, x, |p|), p[1..];
      var r' := Powers(f, x, |w|);
      PowersEval(f, x, w);
      DotFront(f, r, p, |p|);
      MulOne(f, p[0]);
      forall j | 0 <= j < |w| ensures r[1..][j] == f.Mul(x, r'[j]) { MulComm(f, x, r'[j]); }
      DotScale(f, x, r', r[1..], w, |w|);
    }
  }

  /** Row i of a Vandermonde matrix holds the powers of the i-th point. */
  ghost predicate IsVandermonde<F(!new)>(f: Field<F>, rows: Matrix<F>, points: seq<F>, k: nat) {
    && Shape(rows, |points|, k)
    && forall i :: 0 <= i < |points| ==> rows[i] == Powers(f, points[i], k)
  }

  lemma VandermondeIndependent<F(!new)>(f: Field<F>, rows: Matrix<F>, points: seq<F>, k: nat)
    requires IsField(f)
    requires IsVandermonde(f, rows, points, k) && Distinct(points)
    ensures AnyRowsIndependent(f, rows, k)
  {
    forall v: seq<F> | |v| == k && !IsZero(f, v) ensures |ZeroRows(f, rows, v)| < k {
      var z := ZeroRows(f, rows, v);
      var roots := set i | i in z :: points[i];
      forall x | x in roots ensures Eval(f, v, x) == f.zero {
        var i :| i in z && points[i] == x;
        PowersEval(f, x, v);
      }
      FewRoots(f, v, roots);
      ImageCard(z, points);
    }
  }

  lemma {:induction false} ImageCard<F>(z: set<nat>, points: seq<F>)
    requires Distinct(points)
    requires forall i :: i in z ==> i < |points|
    ensures |set i | i in z :: points[i]| == |z|
  {
    if z != {} {
      var a :| a in z;
      ImageCard(z - {a}, points);
      var rest := set i | i in z - {a} :: points[i];
      assert points[a] !in rest;
      assert (set i | i in z :: points[i]) == rest + {points[a]};
    }
  }
}
