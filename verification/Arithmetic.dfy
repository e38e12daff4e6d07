/** Division facts, proved once so that no other proof has to reason about / and %. */
module Arithmetic {

  lemma MulAtLeast(k: nat, d: nat)
    requires d >= 1
    ensures k * d >= k
  {
    assert k * d == k + k * (d - 1);
  }

  lemma MulGap(k: nat, a: nat, b: nat)
    requires a > b
    ensures k * a >= k * b + k
  {
    MulAtLeast(k, a - b);
    assert k * a == k * b + k * (a - b);
  }

  lemma MulMono(a: nat, b: nat, c: nat)
    requires a <= b
    ensures a * c <= b * c
  {
    if a < b { MulGap(c, b, a); }
  }

  lemma DivUnique(x: nat, k: nat, q: nat, r: nat)
    requires k >= 1 && x == k * q + r && r < k
    ensures x / k == q && x % k == r
  {
    var q', r' := x / k, x % k;
    assert x == k * q' + r';
    if q' > q { MulGap(k, q', q); }
    if q' < q { MulGap(k, q, q'); }
  }

  /** Rounding x up to a multiple of a. */
  lemma CeilDiv(x: nat, a: nat, q: nat)
    requires a >= 1 && q == (x + a - 1) / a
    ensures x <= q * a < x + a
  {
    var r := (x + a - 1) % a;
    assert x + a - 1 == q * a + r;
  }
}
