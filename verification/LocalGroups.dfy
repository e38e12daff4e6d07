/** How the k data fragments are divided into l local groups. */
module LocalGroups {
  import opened Arithmetic

  function LocalGroupSize(k: nat, l: nat, n: nat): nat
    requires l > 0
  {
    if n < k % l then k / l + 1 else k / l
  }

  function LocalGroupDataLower(k: nat, l: nat, n: nat): int
    requires l > 0
  {
    var extra := k % l;
    var groupSize := k / l + 1;
    if n < extra then n * groupSize else extra * groupSize + (n - extra) * (groupSize - 1)
  }

  function LocalGroupDataUpper(k: nat, l: nat, n: nat): int
    requires l > 0
  {
    LocalGroupDataLower(k, l, n + 1)
  }

  function LocalGroupForData(k: nat, l: nat, n: nat): int
    requires 0 < l <= k
  {
    var extra := k % l;
    var groupSize := k / l + 1;
    AtLeastOne(k, l);
    if n < extra * groupSize then n / groupSize else extra + (n - extra * groupSize) / (groupSize - 1)
  }

  lemma AtLeastOne(k: nat, l: nat)
    requires 0 < l <= k
    ensures k / l >= 1
  {
  }

  /** Fragment d belongs to group v. */
  predicate InGroup(k: nat, l: nat, v: nat, d: nat)
    requires l > 0
  {
    LocalGroupDataLower(k, l, v) <= d < LocalGroupDataUpper(k, l, v)
  }

  /** Each group starts where the one before ends, and has the size that is stated for it. */
  lemma GroupStep(k: nat, l: nat, v: nat)
    requires l > 0
    ensures LocalGroupDataLower(k, l, v + 1) == LocalGroupDataLower(k, l, v) + LocalGroupSize(k, l, v)
  {
    var extra, q := k % l, k / l;
    if v < extra {
      assert (v + 1) * (q + 1) == v * (q + 1) + (q + 1);
    } else {
      assert (v + 1 - extra) * q == (v - extra) * q + q;
    }
  }

  /** The groups begin at 0 and end at k. */
  lemma GroupEnds(k: nat, l: nat)
    requires l > 0
    ensures LocalGroupDataLower(k, l, 0) == 0 && LocalGroupDataLower(k, l, l) == k
  {
  }

  lemma {:induction false} LowerGrows(k: nat, l: nat, v: nat, w: nat)
    requires l > 0 && v <= w
    ensures LocalGroupDataLower(k, l, v) <= LocalGroupDataLower(k, l, w)
    decreases w - v
  {
    hide LocalGroupDataLower, LocalGroupSize;
    if v < w {
      GroupStep(k, l, v);
      LowerGrows(k, l, v + 1, w);
    }
  }

  /** The groups tile [0, k): every data fragment is in the group that is computed for it and in no other. */
  lemma GroupsTile(k: nat, l: nat, d: nat, v: nat)
    requires 0 < l <= k && d < k && v < l
    ensures 0 <= LocalGroupForData(k, l, d) < l
    ensures InGroup(k, l, v, d) <==> v == LocalGroupForData(k, l, d)
    ensures 0 <= LocalGroupDataLower(k, l, v) < LocalGroupDataUpper(k, l, v) <= k
    ensures LocalGroupDataUpper(k, l, v) - LocalGroupDataLower(k, l, v) == LocalGroupSize(k, l, v)
  {
    var g := LocalGroupForData(k, l, d);
    GroupFound(k, l, d);
    GroupStep(k, l, v);
    GroupEnds(k, l);
    LowerGrows(k, l, 0, v);
    LowerGrows(k, l, v + 1, l);
    AtLeastOne(k, l);
    hide LocalGroupDataLower, LocalGroupForData;
    if v < g { LowerGrows(k, l, v + 1, g); } else if g < v { LowerGrows(k, l, g + 1, v); }
  }

  lemma GroupFound(k: nat, l: nat, d: nat)
    requires 0 < l <= k && d < k
    ensures 0 <= LocalGroupForData(k, l, d) < l && InGroup(k, l, LocalGroupForData(k, l, d), d)
  {
    var extra, q := k % l, k / l;
    AtLeastOne(k, l);
    GroupEnds(k, l);
    if d < extra * (q + 1) {
      Quotient(d, extra, q + 1);
      var g := d / (q + 1);
      assert g + 1 == extra ==> LocalGroupDataLower(k, l, g + 1) == (g + 1) * (q + 1);
    } else {
      var e := d - extra * (q + 1);
      Quotient(e, l - extra, q);
      assert extra + e / q + 1 - extra == e / q + 1;
    }
  }

  lemma Quotient(x: nat, n: nat, y: nat)
    requires y > 0 && x < n * y
    ensures 0 <= x / y < n && x / y * y <= x < (x / y + 1) * y
  {
    var g := x / y;
    assert x == g * y + x % y && (g + 1) * y == g * y + y;
    if g >= n { MulMono(n, g, y); }
  }

  // ----- how large the groups are

  /** Larger groups come first, and no two sizes differ by more than one. */
  lemma GroupSizes(k: nat, l: nat, v: nat, w: nat)
    requires l > 0 && v < w < l
    ensures LocalGroupSize(k, l, w) <= LocalGroupSize(k, l, v) <= LocalGroupSize(k, l, w) + 1
  {
  }

  function Total(sizes: seq<nat>): nat {
    if sizes == [] then 0 else Total(sizes[..|sizes| - 1]) + sizes[|sizes| - 1]
  }

  /** Sizes that never grow and differ by at most one: the first t of them are one more than the last. */
  lemma {:induction false} TotalOf(sizes: seq<nat>, a: nat, t: nat)
    requires t <= |sizes| && forall i :: 0 <= i < |sizes| ==> sizes[i] == if i < t then a + 1 else a
    ensures Total(sizes) == |sizes| * a + t
  {
    if sizes != [] {
      var n := |sizes| - 1;
      TotalOf(sizes[..n], a, if t <= n then t else n);
      assert |sizes| * a == n * a + a;
    }
  }

  lemma {:induction false} FirstSmall(sizes: seq<nat>, a: nat, n: nat) returns (t: nat)
    requires n <= |sizes| && forall i :: 0 <= i < |sizes| ==> a <= sizes[i] <= a + 1
    requires forall i, j :: 0 <= i < j < |sizes| ==> sizes[j] <= sizes[i]
    ensures t <= n && forall i :: 0 <= i < n ==> sizes[i] == if i < t then a + 1 else a
  {
    if n == 0 {
      t := 0;
    } else {
      t := FirstSmall(sizes, a, n - 1);
      if sizes[n - 1] == a + 1 {
        assert forall i :: 0 <= i < n - 1 ==> sizes[n - 1] <= sizes[i];
        t := n;
      }
    }
  }

  /** There is only one way to divide k fragments into l groups like that. */
  lemma GroupSizesUnique(k: nat, l: nat, sizes: seq<nat>)
    requires l > 0 && |sizes| == l && Total(sizes) == k
    requires forall i, j :: 0 <= i < j < l ==> sizes[j] <= sizes[i] <= sizes[j] + 1
    ensures forall v :: 0 <= v < l ==> sizes[v] == LocalGroupSize(k, l, v)
  {
    var a := sizes[l - 1];
    assert forall i :: 0 <= i < l - 1 ==> sizes[l - 1] <= sizes[i] <= sizes[l - 1] + 1;
    var t := FirstSmall(sizes, a, l);
    TotalOf(sizes, a, t);
    assert t < l by { assert sizes[l - 1] == a; }
    DivUnique(k, l, a, t);
  }

  /** The groups in the order of the data, as many fragments each as its size says: where they begin. */
  lemma {:induction false} LowerIsTotal(k: nat, l: nat, v: nat)
    requires l > 0 && v <= l
    ensures LocalGroupDataLower(k, l, v) == Total(seq(v, i requires 0 <= i < v => LocalGroupSize(k, l, i)))
  {
    hide LocalGroupDataLower, LocalGroupSize;
    var s := seq(v, i requires 0 <= i < v => LocalGroupSize(k, l, i));
    if v == 0 {
      GroupEnds(k, l);
    } else {
      LowerIsTotal(k, l, v - 1);
      assert s[..v - 1] == seq(v - 1, i requires 0 <= i < v - 1 => LocalGroupSize(k, l, i));
      GroupStep(k, l, v - 1);
    }
  }
}
