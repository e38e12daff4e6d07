/** Fields of characteristic 2, given by their operations.

    The codecs in this project only need the field laws; the Reed-Solomon code
    instantiates them with the tables of module Galois16, the LRC code with the
    multiplication function its descriptor carries.
 */
module Fields {

  datatype Field<!F> = Field(zero: F, one: F, add: (F, F) -> F, mul: (F, F) -> F, inv: F -> F)
  {
    function Add(x: F, y: F): F { add(x, y) }
    function Mul(x: F, y: F): F { mul(x, y) }
    function Inv(x: F): F { inv(x) }

    /** Always true: the term that makes the verifier look at the laws for x, y, z. */
    ghost predicate At(x: F, y: F, z: F) { true }

    ghost predicate AddLaws(x: F, y: F, z: F) {
      && Add(x, y) == Add(y, x)
      && Add(Add(x, y), z) == Add(x, Add(y, z))
      && Add(zero, x) == x
      && Add(x, x) == zero
    }

    ghost predicate MulLaws(x: F, y: F, z: F) {
      && Mul(x, y) == Mul(y, x)
      && Mul(Mul(x, y), z) == Mul(x, Mul(y, z))
      && Mul(one, x) == x
      && Mul(zero, x) == zero
      && Mul(x, Add(y, z)) == Add(Mul(x, y), Mul(x, z))
      && (x != zero ==> Mul(x, Inv(x)) == one)
    }
  }

  ghost predicate IsField<F(!new)>(f: Field<F>) {
    && f.zero != f.one
    && (forall x, y, z {:trigger f.At(x, y, z)} :: f.AddLaws(x, y, z) && f.MulLaws(x, y, z))
  }

  lemma Laws<F(!new)>(f: Field<F>, x: F, y: F, z: F)
    requires IsField(f)
    ensures f.AddLaws(x, y, z) && f.MulLaws(x, y, z)
  {
    assert f.At(x, y, z);
  }

  lemma AddComm<F(!new)>(f: Field<F>, x: F, y: F)
    requires IsField(f)
    ensures f.Add(x, y) == f.Add(y, x)
  {
    Laws(f, x, y, x);
  }

  lemma AddAssoc<F(!new)>(f: Field<F>, x: F, y: F, z: F)
    requires IsField(f)
    ensures f.Add(f.Add(x, y), z) == f.Add(x, f.Add(y, z))
  {
    Laws(f, x, y, z);
  }

  lemma AddZero<F(!new)>(f: Field<F>, x: F)
    requires IsField(f)
    ensures f.Add(f.zero, x) == x == f.Add(x, f.zero)
  {
    Laws(f, x, f.zero, x);
  }

  lemma AddSelf<F(!new)>(f: Field<F>, x: F)
    requires IsField(f)
    ensures f.Add(x, x) == f.zero
  {
    Laws(f, x, x, x);
  }

  /** Two elements with sum zero are equal: subtraction is addition. */
  lemma SumZero<F(!new)>(f: Field<F>, x: F, y: F)
    requires IsField(f)
    requires f.Add(x, y) == f.zero
    ensures x == y
  {
    AddAssoc(f, x, y, y);
    AddSelf(f, y);
    AddZero(f, x);
    AddZero(f, y);
  }

  lemma AddSwapInner<F(!new)>(f: Field<F>, a: F, b: F, c: F, d: F)
    requires IsField(f)
    ensures f.Add(f.Add(a, b), f.Add(c, d)) == f.Add(f.Add(a, c), f.Add(b, d))
  {
    AddAssoc(f, a, b, f.Add(c, d));
    AddAssoc(f, b, c, d);
    AddComm(f, b, c);
    AddAssoc(f, c, b, d);
    AddAssoc(f, a, c, f.Add(b, d));
  }

  lemma MulComm<F(!new)>(f: Field<F>, x: F, y: F)
    requires IsField(f)
    ensures f.Mul(x, y) == f.Mul(y, x)
  {
    Laws(f, x, y, x);
  }

  lemma MulAssoc<F(!new)>(f: Field<F>, x: F, y: F, z: F)
    requires IsField(f)
    ensures f.Mul(f.Mul(x, y), z) == f.Mul(x, f.Mul(y, z))
  {
    Laws(f, x, y, z);
  }

  lemma MulZero<F(!new)>(f: Field<F>, x: F)
    requires IsField(f)
    ensures f.Mul(f.zero, x) == f.zero == f.Mul(x, f.zero)
  {
    Laws(f, x, f.zero, x);
  }

  lemma MulOne<F(!new)>(f: Field<F>, x: F)
    requires IsField(f)
    ensures f.Mul(f.one, x) == x == f.Mul(x, f.one)
  {
    Laws(f, x, f.one, x);
  }

  lemma Distrib<F(!new)>(f: Field<F>, x: F, y: F, z: F)
    requires IsField(f)
    ensures f.Mul(x, f.Add(y, z)) == f.Add(f.Mul(x, y), f.Mul(x, z))
    ensures f.Mul(f.Add(y, z), x) == f.Add(f.Mul(y, x), f.Mul(z, x))
  {
    Laws(f, x, y, z);
    MulComm(f, x, z);
    MulComm(f, f.Add(y, z), x);
  }

  lemma MulInv<F(!new)>(f: Field<F>, x: F)
    requires IsField(f)
    requires x != f.zero
    ensures f.Mul(x, f.Inv(x)) == f.one == f.Mul(f.Inv(x), x)
    ensures f.Inv(x) != f.zero
  {
    Laws(f, x, f.Inv(x), x);
    MulZero(f, x);
  }

  /** A field has no zero divisors. */
  lemma NoZeroDivisors<F(!new)>(f: Field<F>, x: F, y: F)
    requires IsField(f)
    requires f.Mul(x, y) == f.zero
    ensures x == f.zero || y == f.zero
  {
    if x != f.zero {
      MulInv(f, x);
      MulAssoc(f, f.Inv(x), x, y);
      MulOne(f, y);
      MulZero(f, f.Inv(x));
    }
  }
}
