/** Polynomials whose coefficients are symbols with exclusive or, at a point given by the map "multiply by it". */
module Horner {

  /** Symbols of one width: zero and exclusive or. */
  datatype Symbols<!S> = Symbols(zero: S, add: (S, S) -> S)
  {
    function Add(x: S, y: S): S { add(x, y) }

    ghost predicate LawsAt(x: S, y: S, z: S) {
      && Add(x, y) == Add(y, x)
      && Add(Add(x, y), z) == Add(x, Add(y, z))
      && Add(zero, x) == x
      && Add(x, x) == zero
    }
  }

  ghost predicate IsXor<S(!new)>(g: Symbols<S>) {
    forall x, y, z :: g.LawsAt(x, y, z)
  }

  /** The multiplication is linear over exclusive or. */
  ghost predicate Linear<S(!new)>(g: Symbols<S>, times: S -> S) {
    forall x, y {:trigger g.Add(x, y)} :: times(g.Add(x, y)) == g.Add(times(x), times(y))
  }

  lemma Laws<S(!new)>(g: Symbols<S>, x: S, y: S, z: S)
    requires IsXor(g)
    ensures g.Add(x, y) == g.Add(y, x)
    ensures g.Add(g.Add(x, y), z) == g.Add(x, g.Add(y, z))
    ensures g.Add(g.zero, x) == x == g.Add(x, g.zero)
    ensures g.Add(x, x) == g.zero
  {
    assert g.LawsAt(x, y, z) && g.LawsAt(x, g.zero, z);
  }

  lemma LinearAt<S(!new)>(g: Symbols<S>, times: S -> S, x: S, y: S)
    requires Linear(g, times)
    ensures times(g.Add(x, y)) == g.Add(times(x), times(y))
  {
  }

  /** b[0] + a*(b[1] + a*(b[2] + ...)) */
  ghost function Eval<S>(g: Symbols<S>, times: S -> S, b: seq<S>): S {
    if b == [] then g.zero else g.Add(b[0], times(Eval(g, times, b[1..])))
  }

  /** a^n * x */
  ghost function Shifted<S>(times: S -> S, n: nat, x: S): S {
    if n == 0 then x else times(Shifted(times, n - 1, x))
  }

  /** b[0] + a*b[1] + ... + a^(n-1)*b[n-1] */
  ghost function PowerSum<S>(g: Symbols<S>, times: S -> S, b: seq<S>, n: nat): S
    requires n <= |b|
  {
    if n == 0 then g.zero else g.Add(PowerSum(g, times, b, n - 1), Shifted(times, n - 1, b[n - 1]))
  }

  lemma ZeroTimes<S(!new)>(g: Symbols<S>, times: S -> S)
    requires IsXor(g) && Linear(g, times)
    ensures times(g.zero) == g.zero
  {
    Laws(g, g.zero, g.zero, g.zero);
    LinearAt(g, times, g.zero, g.zero);
    Laws(g, times(g.zero), g.zero, g.zero);
  }

  /** Appending a buffer adds its value, multiplied by the power of the point that is the first one's length. */
  lemma {:induction false} EvalAppend<S(!new)>(g: Symbols<S>, times: S -> S, x: seq<S>, y: seq<S>)
    requires IsXor(g) && Linear(g, times)
    ensures Eval(g, times, x + y) == g.Add(Eval(g, times, x), Shifted(times, |x|, Eval(g, times, y)))
  {
    var v := Eval(g, times, y);
    if x == [] {
      assert x + y == y;
      Laws(g, v, v, v);
    } else {
      var w := x[1..];
      assert (x + y)[1..] == w + y;
      EvalAppend(g, times, w, y);
      LinearAt(g, times, Eval(g, times, w), Shifted(times, |w|, v));
      Laws(g, x[0], times(Eval(g, times, w)), Shifted(times, |x|, v));
    }
  }

  lemma EvalOne<S(!new)>(g: Symbols<S>, times: S -> S, x: S)
    requires IsXor(g) && Linear(g, times)
    ensures Eval(g, times, [x]) == x
  {
    ZeroTimes(g, times);
    Laws(g, x, g.zero, g.zero);
    hide IsXor, Linear;
    assert Eval(g, times, [x][1..]) == g.zero;
  }

  /** Horner's rule computes the sum of the coefficients times the powers of the point. */
  lemma {:induction false} EvalIsSum<S(!new)>(g: Symbols<S>, times: S -> S, b: seq<S>, n: nat)
    requires IsXor(g) && Linear(g, times) && n <= |b|
    ensures Eval(g, times, b[..n]) == PowerSum(g, times, b, n)
  {
    hide IsXor, Linear;
    if n > 0 {
      hide Eval;
      EvalIsSum(g, times, b, n - 1);
      assert b[..n] == b[..n - 1] + [b[n - 1]];
      EvalAppend(g, times, b[..n - 1], [b[n - 1]]);
      EvalOne(g, times, b[n - 1]);
    }
  }

  /** The value of the exclusive or of two buffers is the exclusive or of their values. */
  lemma {:induction false} EvalAdd<S(!new)>(g: Symbols<S>, times: S -> S, x: seq<S>, y: seq<S>, z: seq<S>)
    requires IsXor(g) && Linear(g, times) && |x| == |y| == |z| && forall i :: 0 <= i < |x| ==> z[i] == g.Add(x[i], y[i])
    ensures Eval(g, times, z) == g.Add(Eval(g, times, x), Eval(g, times, y))
    decreases |x|
  {
    if x == [] {
      Laws(g, g.zero, g.zero, g.zero);
    } else {
      var a, b := Eval(g, times, x[1..]), Eval(g, times, y[1..]);
      EvalAdd(g, times, x[1..], y[1..], z[1..]);
      LinearAt(g, times, a, b);
      var p, q, r, s := x[0], y[0], times(a), times(b);
      Laws(g, p, q, g.Add(r, s));
      Laws(g, q, r, s);
      Laws(g, r, q, s);
      Laws(g, p, r, g.Add(q, s));
    }
  }
}
