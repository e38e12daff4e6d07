/** The matrix that turns the first k available fragments back into data. */
module Decoding {
  import opened Fields
  import opened Vectors
  import opened Mds
  import opened MatrixOps
  import opened GaussJordan
  import opened Systematic
  import opened Erasures

  method CopyRow<F>(from: array2<F>, to: array2<F>, fromRow: nat, toRow: nat)
    requires from != to && from.Length1 == to.Length1 && fromRow < from.Length0 && toRow < to.Length0
    modifies to
    ensures Rows(to) == old(Rows(to))[toRow := Row(from, fromRow)]
  {
    for j := 0 to to.Length1
      invariant forall c :: 0 <= c < j ==> to[toRow, c] == from[fromRow, c]
      invariant forall r, c :: 0 <= r < to.Length0 && 0 <= c < to.Length1 && r != toRow ==> to[r, c] == old(to[r, c])
    {
      to[toRow, j] := from[fromRow, j];
    }
    SameRows(to, old(Rows(to))[toRow := Row(from, fromRow)]);
  }

  /** Copies the generator rows of the first k available fragments; false if there are fewer. */
  method CreateDecodingMatrix<F>(gen: array2<F>, dec: array2<F>, missing: seq<int>, k: nat, m: nat) returns (r: bool)
    requires gen != dec && gen.Length0 == k + m && gen.Length1 == k == dec.Length0 == dec.Length1
    requires MissingList(missing, k + m)
    modifies dec
    ensures r <==> |Available(Missing(missing), k + m)| >= k
    ensures r ==> Rows(dec) == Select(Rows(gen), Available(Missing(missing), k + m)[..k])
  {
    var n := k + m;
    ghost var miss := Missing(missing);
    var i, j := 0, 0;
    while i < n && j < k
      invariant 0 <= i <= n && j == |Available(miss, i)| <= k
      invariant forall r :: 0 <= r < j ==> Rows(dec)[r] == Row(gen, Available(miss, i)[r])
    {
      var isMissing := IsMissing(missing, i, n);
      if !isMissing {
        CopyRow(gen, dec, i, j);
        j := j + 1;
      }
      i := i + 1;
    }
    AvailablePrefix(miss, i, n);
    if j == k {
      assert Available(miss, n)[..k] == Available(miss, i);
    }
    return j == k;
  }

  lemma GeneratorIndependent<F(!new)>(f: Field<F>, gen: Matrix<F>, k: nat, m: nat)
    requires IsGenerator(f, gen, k, m)
    ensures |gen| == k + m && Shape(gen, k + m, k) && AnyRowsIndependent(f, gen, k)
  {
  }

  /** Inverts the rows of the first k available fragments. */
  method InvertAvailable<F(0, ==, !new)>(f: Field<F>, gen: array2<F>, missing: seq<int>, k: nat, m: nat) returns (inv: array2<F>)
    requires IsField(f) && gen.Length0 == k + m && gen.Length1 == k && IsGenerator(f, Rows(gen), k, m)
    requires MissingList(missing, k + m) && LeavesK(Missing(missing), k + m, k)
    ensures fresh(inv) && inv.Length0 == inv.Length1 == k
    ensures Inverts(f, Rows(inv), Select(Rows(gen), FirstK(Missing(missing), k + m, k)), k)
  {
    hide *;
    ghost var idx := FirstK(Missing(missing), k + m, k);
    ghost var rows := Rows(gen);
    var dec := new F[k, k];
    inv := new F[k, k];
    ScanEnds(Missing(missing), k + m, k);
    FirstKIs(Missing(missing), k + m, k);
    GeneratorIndependent(f, rows, k, m);
    var found := CreateDecodingMatrix(gen, dec, missing, k, m);
    SelectionIndependent(f, rows, k, idx);
    var inverted := GaussjInversion(f, dec, inv, k);
  }

  // ----- a lost parity row as a form over the available fragments

  /** p applied to the selected rows' values is g applied to the data, whatever the data. */
  ghost predicate SameForm<F(!new)>(f: Field<F>, sel: Matrix<F>, p: seq<F>, g: seq<F>, k: nat) {
    && Shape(sel, k, k) && |p| == k && |g| == k
    && forall d: seq<F> {:trigger Apply(f, sel, d)} :: |d| == k ==> Dot(f, p, Apply(f, sel, d), k) == Dot(f, g, d, k)
  }

  /** The coefficients of g at the indices in s. */
  ghost function Masked<F>(f: Field<F>, g: seq<F>, s: set<nat>): (r: seq<F>)
    ensures |r| == |g| && forall i :: 0 <= i < |g| ==> r[i] == if i in s then g[i] else f.zero
  {
    seq(|g|, i requires 0 <= i < |g| => if i in s then g[i] else f.zero)
  }

  lemma MaskedAdd<F(!new)>(f: Field<F>, g: seq<F>, s: set<nat>, i: nat, d: seq<F>)
    requires IsField(f) && i < |g| == |d| && i !in s
    ensures Dot(f, Masked(f, g, s + {i}), d, |g|) == f.Add(Dot(f, Masked(f, g, s), d, |g|), f.Mul(g[i], d[i]))
  {
    var m := Masked(f, g, s);
    AddZero(f, g[i]);
    assert Masked(f, g, s + {i}) == m[i := f.Add(m[i], g[i])];
    DotBump(f, m, i, g[i], d, |g|);
  }

  lemma SameFormStart<F(!new)>(f: Field<F>, sel: Matrix<F>, p: seq<F>, g: seq<F>, k: nat)
    requires IsField(f) && Shape(sel, k, k) && |p| == k == |g| && IsZero(f, p)
    ensures SameForm(f, sel, p, Masked(f, g, {}), k)
  {
    forall d: seq<F> | |d| == k ensures Dot(f, p, Apply(f, sel, d), k) == Dot(f, Masked(f, g, {}), d, k) {
      DotZeroLeft(f, p, Apply(f, sel, d), k);
      DotZeroLeft(f, Masked(f, g, {}), d, k);
    }
  }

  /** Copying the coefficient of an available data fragment to its place among the available ones. */
  lemma SameFormCopy<F(!new)>(f: Field<F>, sel: Matrix<F>, p: seq<F>, g: seq<F>, k: nat, s: set<nat>, i: nat, j: nat)
    requires IsField(f) && SameForm(f, sel, p, Masked(f, g, s), k)
    requires i < k && j < k && i !in s && sel[j] == Unit(f, k, i) && p[j] == f.zero
    ensures SameForm(f, sel, p[j := g[i]], Masked(f, g, s + {i}), k)
  {
    hide IsField, Masked, Dot;
    AddZero(f, g[i]);
    forall d: seq<F> | |d| == k ensures Dot(f, p[j := g[i]], Apply(f, sel, d), k) == Dot(f, Masked(f, g, s + {i}), d, k) {
      var v := Apply(f, sel, d);
      assert Dot(f, p, v, k) == Dot(f, Masked(f, g, s), d, k);
      MaskedAdd(f, g, s, i, d);
      DotBump(f, p, j, g[i], v, k);
      DotUnit(f, sel[j], d, k, i);
      assert v[j] == Dot(f, sel[j], d, k) == d[i];
    }
  }

  /** Substituting the inverse row for a lost data fragment. */
  lemma SameFormSubstitute<F(!new)>(f: Field<F>, sel: Matrix<F>, inv: Matrix<F>, p: seq<F>, q: seq<F>, g: seq<F>, k: nat, s: set<nat>, i: nat)
    requires IsField(f) && SameForm(f, sel, p, Masked(f, g, s), k) && Inverts(f, inv, sel, k)
    requires i < k && i !in s && |q| == k
    requires forall j :: 0 <= j < k ==> q[j] == f.Add(p[j], f.Mul(g[i], inv[i][j]))
    ensures SameForm(f, sel, q, Masked(f, g, s + {i}), k)
  {
    forall j | 0 <= j < k ensures q[j] == AddScaled(f, p, g[i], inv[i])[j] { MulComm(f, g[i], inv[i][j]); }
    assert q == AddScaled(f, p, g[i], inv[i]);
    forall d: seq<F> | |d| == k ensures Dot(f, q, Apply(f, sel, d), k) == Dot(f, Masked(f, g, s + {i}), d, k) {
      MaskedAdd(f, g, s, i, d);
      DotAddScaled(f, p, g[i], inv[i], Apply(f, sel, d));
      assert Apply(f, inv, Apply(f, sel, d))[i] == d[i];
    }
  }

  /** The i-th index, if available and below k, is the next one among the first k available. */
  lemma NextAvailable(miss: set<nat>, n: nat, k: nat, i: nat)
    requires LeavesK(miss, n, k) && i < k
    ensures |Available(miss, i)| < k
    ensures i !in miss ==> FirstK(miss, n, k)[|Available(miss, i)|] == i
  {
    AvailableCount(miss, i);
    AvailablePrefix(miss, i + 1, n);
  }

  method CopyOne<F(!new)>(f: Field<F>, g: seq<F>, parityRow: array<F>, k: nat, i: nat, j: nat, ghost s: set<nat>, ghost sel: Matrix<F>)
    requires IsField(f) && |g| == k == parityRow.Length && i < k && j < k && i !in s
    requires SameForm(f, sel, parityRow[..], Masked(f, g, s), k) && sel[j] == Unit(f, k, i)
    requires forall c :: j <= c < k ==> parityRow[c] == f.zero
    modifies parityRow
    ensures SameForm(f, sel, parityRow[..], Masked(f, g, s + {i}), k)
    ensures forall c :: j + 1 <= c < k ==> parityRow[c] == f.zero
  {
    ghost var p := parityRow[..];
    SameFormCopy(f, sel, p, g, k, s, i, j);
    parityRow[j] := g[i];
    assert parityRow[..] == p[j := g[i]];
  }

  /** The selected row in the place where a scan finds available data fragment i is the i-th unit row. */
  ghost predicate SelectsUnit<F>(f: Field<F>, sel: Matrix<F>, miss: set<nat>, k: nat, i: nat)
    requires i < k
  {
    var j := |Available(miss, i)|;
    j < k && j < |sel| && sel[j] == Unit(f, k, i)
  }

  ghost predicate SelectsData<F>(f: Field<F>, sel: Matrix<F>, miss: set<nat>, k: nat) {
    && Shape(sel, k, k)
    && forall i: nat {:trigger SelectsUnit(f, sel, miss, k, i)} :: i < k && i !in miss ==> SelectsUnit(f, sel, miss, k, i)
  }

  lemma SelectsAt<F(!new)>(f: Field<F>, gen: Matrix<F>, idx: seq<nat>, miss: set<nat>, k: nat, i: nat)
    requires i < k == |idx| && Indices(idx, |gen|) && i < |gen| && gen[i] == Unit(f, k, i)
    requires |Available(miss, i)| < k && idx[|Available(miss, i)|] == i
    ensures SelectsUnit(f, Select(gen, idx), miss, k, i)
  {
    hide Available, Unit;
  }

  lemma GeneratorTop<F(!new)>(f: Field<F>, gen: Matrix<F>, k: nat, m: nat, i: nat)
    requires IsGenerator(f, gen, k, m) && i < k
    ensures |gen| == k + m && gen[i] == Unit(f, k, i)
  {
  }

  lemma SelectsFirstKAt<F(!new)>(f: Field<F>, gen: Matrix<F>, k: nat, m: nat, miss: set<nat>, i: nat)
    requires IsGenerator(f, gen, k, m) && LeavesK(miss, k + m, k) && i < k && i !in miss
    ensures |gen| == k + m && SelectsUnit(f, Select(gen, FirstK(miss, k + m, k)), miss, k, i)
  {
    hide IsGenerator, FirstK, UpTo, Unit, SelectsUnit, Available, Distinct;
    GeneratorTop(f, gen, k, m, i);
    NextAvailable(miss, k + m, k, i);
    SelectsAt(f, gen, FirstK(miss, k + m, k), miss, k, i);
  }

  lemma SelectsFirstK<F(!new)>(f: Field<F>, gen: Matrix<F>, k: nat, m: nat, miss: set<nat>)
    requires IsGenerator(f, gen, k, m) && LeavesK(miss, k + m, k)
    ensures SelectsData(f, Select(gen, FirstK(miss, k + m, k)), miss, k)
  {
    hide FirstK, UpTo, SelectsUnit, IdentityOnTop, AnyRowsIndependent;
    forall i: nat | i < k && i !in miss ensures SelectsUnit(f, Select(gen, FirstK(miss, k + m, k)), miss, k, i) {
      SelectsFirstKAt(f, gen, k, m, miss, i);
    }
  }

  lemma SelectsDataAt<F(!new)>(f: Field<F>, sel: Matrix<F>, miss: set<nat>, k: nat, i: nat)
    requires SelectsData(f, sel, miss, k) && i < k && i !in miss
    ensures |sel| == k && |Available(miss, i)| < k && sel[|Available(miss, i)|] == Unit(f, k, i)
  {
    assert SelectsUnit(f, sel, miss, k, i);
  }

  /** Step one: the coefficients of the available data fragments, in order. */
  method CopyAvailable<F(0, !new)>(f: Field<F>, g: seq<F>, flags: seq<bool>, k: nat, ghost miss: set<nat>, ghost sel: Matrix<F>)
    returns (parityRow: array<F>)
    requires IsField(f) && |g| == k <= |flags| && SelectsData(f, sel, miss, k)
    requires forall i :: 0 <= i < k ==> (flags[i] <==> i in miss)
    ensures fresh(parityRow) && parityRow.Length == k
    ensures SameForm(f, sel, parityRow[..], Masked(f, g, UpTo(k) - miss), k)
  {
    hide *;
    CountStep(miss, 0);
    UpToNone(miss);
    parityRow := new F[k](i => f.zero);
    var j := 0;
    ghost var s := {};
    CopyStart(f, sel, parityRow[..], g, miss, k);
    for i := 0 to k
      invariant j == |Available(miss, i)|
      invariant forall c :: j <= c < k ==> parityRow[c] == f.zero
      invariant s == UpTo(i) - miss
      invariant SameForm(f, sel, parityRow[..], Masked(f, g, s), k)
    {
      UpToStep(miss, i);
      CountStep(miss, i);
      if !flags[i] {
        SelectsDataAt(f, sel, miss, k, i);
        CopyOne(f, g, parityRow, k, i, j, s, sel);
        s := s + {i};
        j := j + 1;
      }
    }
  }

  lemma CopyStart<F(!new)>(f: Field<F>, sel: Matrix<F>, p: seq<F>, g: seq<F>, miss: set<nat>, k: nat)
    requires IsField(f) && SelectsData(f, sel, miss, k) && |p| == k == |g| && forall c :: 0 <= c < k ==> p[c] == f.zero
    ensures SameForm(f, sel, p, Masked(f, g, {}), k)
  {
    hide IsField, SameForm, Masked, SelectsUnit;
    SameFormStart(f, sel, p, g, k);
  }

  lemma UpToNone(miss: set<nat>)
    ensures UpTo(0) - miss == {}
  {
  }

  lemma UpToStep(miss: set<nat>, i: nat)
    ensures UpTo(i + 1) - miss == UpTo(i) - miss + (if i in miss then {} else {i})
  {
  }

  /** Step two: for each lost data fragment, its row of the inverse times its coefficient. */
  method SubstituteMissing<F(!new)>(f: Field<F>, g: seq<F>, inv: array2<F>, parityRow: array<F>, missing: seq<int>, k: nat,
      ghost n: nat, ghost sel: Matrix<F>)
    requires IsField(f) && |g| == k <= n && parityRow.Length == k && inv.Length0 == inv.Length1 == k
    requires MissingList(missing, n) && Inverts(f, Rows(inv), sel, k)
    requires SameForm(f, sel, parityRow[..], Masked(f, g, UpTo(k) - Missing(missing)), k)
    modifies parityRow
    ensures SameForm(f, sel, parityRow[..], g, k)
  {
    hide IsField, SameForm, Masked, Inverts, Missing, UpTo;
    ghost var invRows, s := Rows(inv), UpTo(k) - Missing(missing);
    var i := 0;
    assert missing[0..] == missing;
    while missing[i] > -1
      invariant 0 <= i < |missing|
      invariant Rows(inv) == invRows
      invariant SameForm(f, sel, parityRow[..], Masked(f, g, s), k)
      invariant s == UpTo(k) - Missing(missing[i..])
      decreases |missing| - i
    {
      MissingTail(missing, i, n);
      if missing[i] < k {
        ghost var p := parityRow[..];
        AddRow(f, g[missing[i]], inv, missing[i], parityRow);
        SameFormSubstitute(f, sel, invRows, p, parityRow[..], g, k, s, missing[i]);
        s := s + {missing[i] as nat};
      }
      i := i + 1;
    }
    NoneMissing(missing[i..]);
    assert Masked(f, g, s) == g;
  }

  lemma NoneMissing(l: seq<int>)
    requires |l| == 1
    ensures Missing(l) == {}
  {
  }

  lemma MissingTail(missing: seq<int>, i: nat, n: nat)
    requires MissingList(missing, n) && i < |missing| - 1
    ensures Missing(missing[i..]) == Missing(missing[i + 1..]) + {missing[i] as nat}
    ensures missing[i] as nat !in Missing(missing[i + 1..])
  {
    var a, b := missing[i..], missing[i + 1..];
    forall x: nat ensures x in Missing(a) <==> x in Missing(b) + {missing[i] as nat} {
      if x in Missing(a) { var j :| 0 <= j < |a| - 1 && a[j] == x; if j > 0 { assert b[j - 1] == x; } }
      if x in Missing(b) { var j :| 0 <= j < |b| - 1 && b[j] == x; assert a[j + 1] == x; }
      assert a[0] == missing[i];
    }
  }

  /** to[j] ^= c * from[row, j] */
  method AddRow<F>(f: Field<F>, c: F, from: array2<F>, row: nat, to: array<F>)
    requires row < from.Length0 && to.Length == from.Length1
    modifies to
    ensures forall j :: 0 <= j < to.Length ==> to[j] == f.Add(old(to[j]), f.Mul(c, from[row, j]))
  {
    for j := 0 to to.Length
      invariant forall i :: 0 <= i < j ==> to[i] == f.Add(old(to[i]), f.Mul(c, from[row, i]))
      invariant forall i :: j <= i < to.Length ==> to[i] == old(to[i])
    {
      to[j] := f.Add(to[j], f.Mul(c, from[row, j]));
    }
  }
}
