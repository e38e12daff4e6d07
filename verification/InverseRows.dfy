/** The rows that take the available fragments to the lost ones: rows of the inverse for data, and for a
    parity its own row with the inverse's rows put in for the lost data. */
module InverseRows {
  import opened Fields
  import opened Vectors
  import opened Mds
  import opened MatrixOps
  import opened GaussJordan
  import opened Systematic
  import opened Decoding
  import opened Bytes
  import opened IsaL

  /** The flagged indices below n, in increasing order. */
  ghost function LostBelow(flags: seq<bool>, n: nat): (s: seq<nat>)
    requires n <= |flags|
    ensures forall i :: 0 <= i < |s| ==> s[i] < n && flags[s[i]]
    ensures forall i, j :: 0 <= i < j < |s| ==> s[i] < s[j]
  {
    if n == 0 then [] else LostBelow(flags, n - 1) + (if flags[n - 1] then [n - 1] else [])
  }

  lemma {:induction false} LostBelowHas(flags: seq<bool>, n: nat, i: nat)
    requires n <= |flags| && i < n && flags[i]
    ensures |LostBelow(flags, i)| < |LostBelow(flags, n)| && LostBelow(flags, n)[|LostBelow(flags, i)|] == i
  {
    if i < n - 1 { LostBelowHas(flags, n - 1, i); }
  }

  lemma {:induction false} LostBelowPrefix(flags: seq<bool>, i: nat, n: nat)
    requires i <= n <= |flags|
    ensures LostBelow(flags, i) <= LostBelow(flags, n)
  {
    if i < n { LostBelowPrefix(flags, i, n - 1); }
  }

  lemma {:induction false} NothingLostBetween(flags: seq<bool>, i: nat, n: nat)
    requires i <= n <= |flags| && forall x :: i <= x < n ==> !flags[x]
    ensures LostBelow(flags, n) == LostBelow(flags, i)
  {
    if i < n { NothingLostBetween(flags, i, n - 1); }
  }

  lemma NothingLostBefore(flags: seq<bool>, n: nat)
    requires n <= |flags| && forall x :: 0 <= x < n ==> !flags[x]
    ensures LostBelow(flags, n) == []
  {
    NothingLostBetween(flags, 0, n);
  }

  lemma LostBelowStep(flags: seq<bool>, n: nat)
    requires n < |flags|
    ensures LostBelow(flags, 0) == []
    ensures LostBelow(flags, n + 1) == LostBelow(flags, n) + (if flags[n] then [n] else [])
  {
  }

  /** How many of the first n are not flagged. */
  function PresentCount(lost: seq<bool>, n: nat): (c: nat)
    requires n <= |lost|
    ensures c <= n
  {
    if n == 0 then 0 else PresentCount(lost, n - 1) + (if lost[n - 1] then 0 else 1)
  }

  /** The form of a parity with coefficients g after its first n coefficients. */
  ghost function FormRow(f: Field<bv8>, g: seq<bv8>, lost: seq<bool>, inv: Matrix<bv8>, s: nat, n: nat): (p: seq<bv8>)
    requires |g| == |lost| == s && Shape(inv, s, s) && n <= s
    ensures |p| == s
  {
    if n == 0 then Zeros(f, s)
    else
      var p, c := FormRow(f, g, lost, inv, s, n - 1), PresentCount(lost, n - 1);
      if lost[n - 1] then AddScaled(f, p, g[n - 1], inv[n - 1]) else p[c := f.Add(p[c], g[n - 1])]
  }

  /** The row for lost fragment i; the window of s data fragments starts at lo. */
  ghost function TargetRow(f: Field<bv8>, inv: Matrix<bv8>, enc: Matrix<bv8>, lost: seq<bool>, i: nat, lo: nat, s: nat): (p: seq<bv8>)
    requires |lost| == s && Shape(inv, s, s)
    requires lo <= i < lo + s || (i < |enc| && lo + s <= |enc[i]|)
    ensures |p| == s
  {
    if lo <= i < lo + s then inv[i - lo] else FormRow(f, enc[i][lo..lo + s], lost, inv, s, s)
  }

  lemma TargetOfParity(f: Field<bv8>, inv: Matrix<bv8>, enc: Matrix<bv8>, lost: seq<bool>, i: nat, lo: nat, s: nat)
    requires |lost| == s && Shape(inv, s, s) && lo + s <= i < |enc| && lo + s <= |enc[i]|
    ensures TargetRow(f, inv, enc, lost, i, lo, s) == FormRow(f, enc[i][lo..lo + s], lost, inv, s, s)
  {
  }

  // ----- what the form means

  /** Adding the coefficient of an available data fragment at its place among the available ones. */
  lemma SameFormBump(f: Field<bv8>, sel: Matrix<bv8>, p: seq<bv8>, g: seq<bv8>, k: nat, s: set<nat>, i: nat, j: nat)
    requires IsField(f) && SameForm(f, sel, p, Masked(f, g, s), k)
    requires i < k && j < k && i !in s && sel[j] == Unit(f, k, i)
    ensures SameForm(f, sel, p[j := f.Add(p[j], g[i])], Masked(f, g, s + {i}), k)
  {
    var q := p[j := f.Add(p[j], g[i])];
    forall d: seq<bv8> | |d| == k ensures Dot(f, q, Apply(f, sel, d), k) == Dot(f, Masked(f, g, s + {i}), d, k) {
      MaskedAdd(f, g, s, i, d);
      DotBump(f, p, j, g[i], Apply(f, sel, d), k);
      DotUnit(f, sel[j], d, k, i);
    }
  }

  /** Present data fragment i is selected in its place. */
  ghost predicate SelectsPresent(f: Field<bv8>, sel: Matrix<bv8>, lost: seq<bool>, k: nat) {
    && Shape(sel, k, k) && |lost| == k
    && forall i: nat {:trigger PresentCount(lost, i)} :: i < k && !lost[i] ==> PresentCount(lost, i) < k && sel[PresentCount(lost, i)] == Unit(f, k, i)
  }

  /** The coefficients of g up to n. */
  ghost function FirstPart(f: Field<bv8>, g: seq<bv8>, n: nat): seq<bv8> { Masked(f, g, UpTo(n)) }

  lemma FormRowNone(f: Field<bv8>, sel: Matrix<bv8>, g: seq<bv8>, lost: seq<bool>, inv: Matrix<bv8>, k: nat)
    requires IsField(f) && |g| == k && SelectsPresent(f, sel, lost, k) && Shape(inv, k, k)
    ensures |lost| == k && SameForm(f, sel, FormRow(f, g, lost, inv, k, 0), FirstPart(f, g, 0), k)
  {
    hide IsField, SameForm, Masked;
    SameFormStart(f, sel, Zeros(f, k), g, k);
    UpToSnoc(0);
  }

  /** The form computed for a parity is that parity, over the selected fragments. */
  lemma {:induction false} FormRowSame(f: Field<bv8>, sel: Matrix<bv8>, g: seq<bv8>, lost: seq<bool>, inv: Matrix<bv8>, k: nat, n: nat)
    requires IsField(f) && |g| == k && SelectsPresent(f, sel, lost, k) && Inverts(f, inv, sel, k) && n <= k
    ensures SameForm(f, sel, FormRow(f, g, lost, inv, k, n), FirstPart(f, g, n), k)
  {
    InvertsShape(f, inv, sel, k);
    if n == 0 {
      hide *;
      FormRowNone(f, sel, g, lost, inv, k);
    } else {
      hide *;
      FormRowSame(f, sel, g, lost, inv, k, n - 1);
      FormRowNext(f, sel, g, lost, inv, k, n - 1, n);
    }
  }

  lemma FormRowNext(f: Field<bv8>, sel: Matrix<bv8>, g: seq<bv8>, lost: seq<bool>, inv: Matrix<bv8>, k: nat, n: nat, next: nat)
    requires IsField(f) && |g| == k && |lost| == k && SelectsPresent(f, sel, lost, k) && Inverts(f, inv, sel, k) && n < k && Shape(inv, k, k) && next == n + 1
    requires SameForm(f, sel, FormRow(f, g, lost, inv, k, n), FirstPart(f, g, n), k)
    ensures SameForm(f, sel, FormRow(f, g, lost, inv, k, next), FirstPart(f, g, next), k)
  {
    hide *;
    SameFormTerm(f, sel, FormRow(f, g, lost, inv, k, n), g, lost, inv, k, n);
    FormStep(f, g, lost, inv, k, n);
  }

  /** One more coefficient of g goes into the form over the selected rows. */
  lemma SameFormTerm(f: Field<bv8>, sel: Matrix<bv8>, p: seq<bv8>, g: seq<bv8>, lost: seq<bool>, inv: Matrix<bv8>, k: nat, n: nat)
    requires IsField(f) && |g| == k == |p| && SelectsPresent(f, sel, lost, k) && Inverts(f, inv, sel, k) && n < k
    requires SameForm(f, sel, p, FirstPart(f, g, n), k) && Shape(inv, k, k)
    ensures |lost| == k && PresentCount(lost, n) <= k && (!lost[n] ==> PresentCount(lost, n) < k)
    ensures var c := PresentCount(lost, n);
      SameForm(f, sel, if lost[n] then AddScaled(f, p, g[n], inv[n]) else p[c := f.Add(p[c], g[n])], FirstPart(f, g, n + 1), k)
  {
    hide IsField, SameForm, Masked, Inverts, PresentCount;
    UpToSnoc(n);
    if lost[n] {
      var q := AddScaled(f, p, g[n], inv[n]);
      forall j | 0 <= j < k ensures q[j] == f.Add(p[j], f.Mul(g[n], inv[n][j])) { MulComm(f, g[n], inv[n][j]); }
      SameFormSubstitute(f, sel, inv, p, q, g, k, UpTo(n), n);
    } else {
      SameFormBump(f, sel, p, g, k, UpTo(n), n, PresentCount(lost, n));
    }
  }

  lemma MaskAll(f: Field<bv8>, g: seq<bv8>)
    ensures FirstPart(f, g, |g|) == g
  {
  }

  /** With nothing lost in the window, the form is the row itself. */
  lemma {:induction false} FormRowPlain(f: Field<bv8>, g: seq<bv8>, lost: seq<bool>, inv: Matrix<bv8>, s: nat, n: nat)
    requires IsField(f) && |g| == |lost| == s && Shape(inv, s, s) && n <= s && forall i :: 0 <= i < s ==> !lost[i]
    ensures FormRow(f, g, lost, inv, s, n) == g[..n] + Zeros(f, s - n) && PresentCount(lost, n) == n
  {
    if n > 0 {
      FormRowPlain(f, g, lost, inv, s, n - 1);
      AddZero(f, g[n - 1]);
    }
  }

  // ----- computing them

  method CountLost(flags: seq<bool>) returns (n: nat)
    ensures n == |LostBelow(flags, |flags|)|
  {
    n := 0;
    for i := 0 to |flags|
      invariant n == |LostBelow(flags, i)|
    {
      if flags[i] {
        n := n + 1;
      }
    }
  }

  /** Row t of the array becomes r, the others stay. */
  method SetRow(rows: array2<bv8>, t: nat, r: seq<bv8>)
    requires t < rows.Length0 && |r| == rows.Length1
    modifies rows
    ensures Rows(rows) == old(Rows(rows))[t := r]
  {
    ghost var before := Rows(rows);
    for j := 0 to |r|
      invariant forall c :: 0 <= c < j ==> rows[t, c] == r[c]
      invariant forall i, c :: 0 <= i < rows.Length0 && 0 <= c < rows.Length1 && i != t ==> rows[i, c] == before[i][c]
    {
      rows[t, j] := r[j];
    }
    SameRows(rows, before[t := r]);
  }

  /** rows[t] ^= val * rows[from] */
  method MultAndXorRow(f: Field<bv8>, rows: array2<bv8>, t: nat, from: nat, val: bv8)
    requires IsByteField(f) && t < rows.Length0 && from < rows.Length0 && t != from
    modifies rows
    ensures Rows(rows) == old(Rows(rows))[t := AddScaled(f, old(Row(rows, t)), val, old(Row(rows, from)))]
  {
    ghost var before := Rows(rows);
    ghost var r := AddScaled(f, Row(rows, t), val, Row(rows, from));
    for i := 0 to rows.Length1
      invariant forall c :: 0 <= c < i ==> rows[t, c] == r[c]
      invariant forall c :: i <= c < rows.Length1 ==> rows[t, c] == before[t][c]
      invariant forall x, c :: 0 <= x < rows.Length0 && 0 <= c < rows.Length1 && x != t ==> rows[x, c] == before[x][c]
    {
      AddIsXor(f, rows[t, i], f.Mul(val, rows[from, i]));
      MulComm(f, val, before[from][i]);
      rows[t, i] := XorByte(rows[t, i], f.Mul(val, rows[from, i]));
    }
    SameRows(rows, before[t := r]);
  }

  lemma AddIsXor(f: Field<bv8>, x: bv8, y: bv8)
    requires IsByteField(f)
    ensures f.Add(x, y) == XorByte(x, y)
  {
  }

  /** rows[t, c] ^= x */
  method XorEntry(f: Field<bv8>, rows: array2<bv8>, t: nat, c: nat, x: bv8)
    requires IsByteField(f) && t < rows.Length0 && c < rows.Length1
    modifies rows
    ensures Rows(rows) == old(Rows(rows))[t := old(Row(rows, t))[c := f.Add(old(rows[t, c]), x)]]
  {
    ghost var before := Rows(rows);
    AddIsXor(f, rows[t, c], x);
    rows[t, c] := XorByte(rows[t, c], x);
    SameRows(rows, before[t := before[t][c := rows[t, c]]]);
  }

  /** The rows so far are those of the first lost fragments. */
  ghost predicate Filled(f: Field<bv8>, rows: Matrix<bv8>, flags: seq<bool>, inv: Matrix<bv8>, enc: Matrix<bv8>, lo: nat, s: nat, n: nat)
    requires n <= |flags| && lo + s <= |flags| && Shape(inv, s, s)
  {
    forall t :: 0 <= t < |LostBelow(flags, n)| ==> FilledAt(f, rows, flags, inv, enc, lo, s, n, t)
  }

  ghost predicate FilledAt(f: Field<bv8>, rows: Matrix<bv8>, flags: seq<bool>, inv: Matrix<bv8>, enc: Matrix<bv8>, lo: nat, s: nat, n: nat, t: nat)
    requires n <= |flags| && lo + s <= |flags| && Shape(inv, s, s) && t < |LostBelow(flags, n)|
  {
    var i := LostBelow(flags, n)[t];
    t < |rows| && (lo <= i < lo + s || (i < |enc| && lo + s <= |enc[i]|)) && rows[t] == TargetRow(f, inv, enc, flags[lo..lo + s], i, lo, s)
  }

  lemma FilledStep(f: Field<bv8>, rows: Matrix<bv8>, flags: seq<bool>, inv: Matrix<bv8>, enc: Matrix<bv8>, lo: nat, s: nat, n: nat, r: seq<bv8>)
    requires n < |flags| && lo + s <= |flags| && Shape(inv, s, s)
    requires Filled(f, rows, flags, inv, enc, lo, s, n) && |LostBelow(flags, n)| < |rows|
    requires flags[n] ==> (lo <= n < lo + s || (n < |enc| && lo + s <= |enc[n]|)) && r == TargetRow(f, inv, enc, flags[lo..lo + s], n, lo, s)
    ensures flags[n] ==> Filled(f, rows[|LostBelow(flags, n)| := r], flags, inv, enc, lo, s, n + 1)
    ensures !flags[n] ==> Filled(f, rows, flags, inv, enc, lo, s, n + 1)
  {
    hide TargetRow, LostBelow;
    LostBelowStep(flags, n);
    var rows', n' := if flags[n] then rows[|LostBelow(flags, n)| := r] else rows, n + 1;
    forall t | 0 <= t < |LostBelow(flags, n')| ensures FilledAt(f, rows', flags, inv, enc, lo, s, n', t) {
      if t < |LostBelow(flags, n)| { assert FilledAt(f, rows, flags, inv, enc, lo, s, n, t); }
    }
  }

  /** The rows of the lost data come first: row u is that of the u-th lost data fragment. */
  lemma FilledData(f: Field<bv8>, rows: Matrix<bv8>, flags: seq<bool>, inv: Matrix<bv8>, enc: Matrix<bv8>, lo: nat, s: nat, n: nat, j: nat)
    requires n <= |flags| && lo + s <= n && Shape(inv, s, s) && Filled(f, rows, flags, inv, enc, lo, s, n)
    requires lo <= j < lo + s && flags[j]
    ensures |LostBelow(flags, j)| < |LostBelow(flags, n)| && |LostBelow(flags, j)| < |rows|
    ensures rows[|LostBelow(flags, j)|] == inv[j - lo]
  {
    hide FormRow;
    LostBelowHas(flags, n, j);
    assert FilledAt(f, rows, flags, inv, enc, lo, s, n, |LostBelow(flags, j)|);
  }

  /** Builds the form of parity i in row t, one data fragment of the window at a time. */
  method BuildForm(f: Field<bv8>, enc: array2<bv8>, flags: seq<bool>, rows: array2<bv8>, t: nat, i: nat, lo: nat, hi: nat, ghost inv: Matrix<bv8>, ghost n: nat)
    requires IsByteField(f) && enc != rows && lo <= hi <= n <= |flags| && i < enc.Length0 && hi <= enc.Length1 && rows.Length1 == hi - lo
    requires Shape(inv, hi - lo, hi - lo) && t < rows.Length0 && t == |LostBelow(flags, n)|
    requires Filled(f, Rows(rows), flags, inv, Rows(enc), lo, hi - lo, n)
    requires Row(rows, t) == Zeros(f, hi - lo) && forall x :: 0 <= x < lo ==> !flags[x]
    modifies rows
    ensures Rows(enc) == old(Rows(enc))
    ensures Rows(rows) == old(Rows(rows))[t := FormRow(f, Row(enc, i)[lo..hi], flags[lo..hi], inv, hi - lo, hi - lo)]
  {
    hide *;
    ghost var before, encRows := Rows(rows), Rows(enc);
    ghost var s, g, lost := hi - lo, Row(enc, i)[lo..hi], flags[lo..hi];
    var dIdxAvail, dIdxUnavail := 0, 0;
    FormStart(f, g, lost, inv, s, flags, lo);
    ghost var c, p := 0, Zeros(f, s);
    for j := lo to hi
      invariant c == j - lo && dIdxAvail == PresentCount(lost, c) && dIdxUnavail == |LostBelow(flags, j)|
      invariant Rows(enc) == encRows && p == FormRow(f, g, lost, inv, s, c)
      invariant Rows(rows) == before[t := p]
    {
      FormStep(f, g, lost, inv, s, c);
      LostBelowStep(flags, j);
      assert lost[c] == flags[j] && g[c] == enc[i, j];
      ghost var q := FormRow(f, g, lost, inv, s, c + 1);
      if flags[j] {
        FilledData(f, before, flags, inv, encRows, lo, s, n, j);
        assert q == AddScaled(f, p, enc[i, j], before[dIdxUnavail]);
      }
      AddTerm(f, rows, t, flags[j], dIdxAvail, dIdxUnavail, enc[i, j], before, p);
      UpdateTwice(before, t, p, q);
      if flags[j] {
        dIdxUnavail := dIdxUnavail + 1;
      } else {
        dIdxAvail := dIdxAvail + 1;
      }
      c, p := c + 1, q;
    }
  }

  /** Adds one coefficient to row t: directly at a present element, by way of its row at a lost one. */
  method AddTerm(f: Field<bv8>, rows: array2<bv8>, t: nat, lost: bool, avail: nat, unavail: nat, x: bv8, ghost before: Matrix<bv8>, ghost p: seq<bv8>)
    requires IsByteField(f) && t < rows.Length0 == |before| && Rows(rows) == before[t := p] && |p| == rows.Length1
    requires if lost then unavail < t && |before[unavail]| == rows.Length1 else avail < rows.Length1
    modifies rows
    ensures Rows(rows) == before[t := p][t := if lost then AddScaled(f, p, x, before[unavail]) else p[avail := f.Add(p[avail], x)]]
  {
    hide IsByteField;
    assert Row(rows, t) == Rows(rows)[t] == p;
    if lost {
      assert Row(rows, unavail) == Rows(rows)[unavail] == before[unavail];
      MultAndXorRow(f, rows, t, unavail, x);
    } else {
      XorEntry(f, rows, t, avail, x);
    }
  }

  lemma UpdateTwice<T>(s: seq<T>, t: nat, p: T, q: T)
    requires t < |s|
    ensures s[t := p][t := q] == s[t := q] && s[t := p][t] == p
  {
  }

  lemma FormStart(f: Field<bv8>, g: seq<bv8>, lost: seq<bool>, inv: Matrix<bv8>, s: nat, flags: seq<bool>, lo: nat)
    requires |g| == |lost| == s && Shape(inv, s, s) && lo <= |flags| && forall x :: 0 <= x < lo ==> !flags[x]
    ensures FormRow(f, g, lost, inv, s, 0) == Zeros(f, s) && PresentCount(lost, 0) == 0 && LostBelow(flags, lo) == []
  {
    NothingLostBefore(flags, lo);
  }

  lemma FormStep(f: Field<bv8>, g: seq<bv8>, lost: seq<bool>, inv: Matrix<bv8>, s: nat, n: nat)
    requires |g| == |lost| == s && Shape(inv, s, s) && n < s
    ensures PresentCount(lost, n + 1) == PresentCount(lost, n) + (if lost[n] then 0 else 1)
    ensures var p, c := FormRow(f, g, lost, inv, s, n), PresentCount(lost, n);
      FormRow(f, g, lost, inv, s, n + 1) == if lost[n] then AddScaled(f, p, g[n], inv[n]) else p[c := f.Add(p[c], g[n])]
  {
  }

  /** The rows of the lost data, from the inverse. */
  method FillDataRows(f: Field<bv8>, inv: Matrix<bv8>, flags: seq<bool>, rows: array2<bv8>, lo: nat, hi: nat, ghost enc: Matrix<bv8>) returns (l: nat)
    requires lo <= hi <= |flags| && Shape(inv, hi - lo, hi - lo) && rows.Length1 == hi - lo && rows.Length0 == |LostBelow(flags, |flags|)|
    requires forall x :: 0 <= x < lo ==> !flags[x]
    modifies rows
    ensures l == |LostBelow(flags, hi)| && Filled(f, Rows(rows), flags, inv, enc, lo, hi - lo, hi)
    ensures forall t :: l <= t < rows.Length0 ==> Row(rows, t) == old(Row(rows, t))
  {
    hide Filled, LostBelow, FormRow;
    ghost var before := Rows(rows);
    NothingLostBefore(flags, lo);
    LostNone(f, Rows(rows), flags, inv, enc, lo, hi - lo);
    l := 0;
    for i := 0 to hi - lo
      invariant l == |LostBelow(flags, lo + i)| && Filled(f, Rows(rows), flags, inv, enc, lo, hi - lo, lo + i)
      invariant forall t :: l <= t < rows.Length0 ==> Rows(rows)[t] == before[t]
    {
      LostBelowStep(flags, lo + i);
      LostBelowPrefix(flags, lo + i + 1, |flags|);
      if l < rows.Length0 { FilledStep(f, Rows(rows), flags, inv, enc, lo, hi - lo, lo + i, inv[i]); }
      if flags[i + lo] {
        SetRow(rows, l, inv[i]);
        l := l + 1;
      } else if l == rows.Length0 {
        FilledSame(f, Rows(rows), flags, inv, enc, lo, hi - lo, lo + i, lo + i + 1);
      }
    }
  }

  lemma LostNone(f: Field<bv8>, rows: Matrix<bv8>, flags: seq<bool>, inv: Matrix<bv8>, enc: Matrix<bv8>, lo: nat, s: nat)
    requires lo + s <= |flags| && Shape(inv, s, s) && LostBelow(flags, lo) == []
    ensures Filled(f, rows, flags, inv, enc, lo, s, lo)
  {
  }

  lemma FilledSame(f: Field<bv8>, rows: Matrix<bv8>, flags: seq<bool>, inv: Matrix<bv8>, enc: Matrix<bv8>, lo: nat, s: nat, n: nat, n': nat)
    requires n <= |flags| && n' <= |flags| && lo + s <= |flags| && Shape(inv, s, s)
    requires Filled(f, rows, flags, inv, enc, lo, s, n) && LostBelow(flags, n) == LostBelow(flags, n')
    ensures Filled(f, rows, flags, inv, enc, lo, s, n')
  {
    hide TargetRow;
    forall t | 0 <= t < |LostBelow(flags, n')| ensures FilledAt(f, rows, flags, inv, enc, lo, s, n', t) {
      assert FilledAt(f, rows, flags, inv, enc, lo, s, n, t);
    }
  }

  /** One row for each lost fragment, in increasing order. All lost data must be in the window lo to hi. */
  method GetLrcInverseRows(f: Field<bv8>, inv: Matrix<bv8>, enc: array2<bv8>, flags: seq<bool>, k: nat, m: nat, lo: nat, hi: nat) returns (rows: array2<bv8>)
    requires IsByteField(f) && |flags| == k + m && lo <= hi <= k && Shape(inv, hi - lo, hi - lo)
    requires forall x :: 0 <= x < k && flags[x] ==> lo <= x < hi
    requires forall x :: k <= x < k + m && flags[x] ==> x < enc.Length0 && hi <= enc.Length1
    ensures fresh(rows) && rows.Length0 == |LostBelow(flags, k + m)| && rows.Length1 == hi - lo
    ensures Filled(f, Rows(rows), flags, inv, Rows(enc), lo, hi - lo, k + m)
  {
    hide *;
    var numMissing := CountLost(flags);
    rows := new bv8[numMissing, hi - lo];
    forall i, j | 0 <= i < numMissing && 0 <= j < hi - lo { rows[i, j] := 0; }
    ghost var encRows, zeros := Rows(enc), Zeros(f, hi - lo);
    assert forall j :: 0 <= j < hi - lo ==> zeros[j] == 0 by { ZeroIs(f); }
    forall t | 0 <= t < numMissing ensures Row(rows, t) == zeros { SameRow(rows, t, zeros); }
    var l := FillDataRows(f, inv, flags, rows, lo, hi, encRows);
    NothingLostBetween(flags, hi, k);
    FilledSame(f, Rows(rows), flags, inv, encRows, lo, hi - lo, hi, k);
    for i := k to k + m
      invariant l == |LostBelow(flags, i)| && Filled(f, Rows(rows), flags, inv, encRows, lo, hi - lo, i)
      invariant Rows(enc) == encRows
      invariant forall t :: l <= t < numMissing ==> Rows(rows)[t] == zeros
    {
      LostBelowStep(flags, i);
      LostBelowPrefix(flags, i + 1, k + m);
      if flags[i] {
        assert Row(rows, l) == Rows(rows)[l] && encRows[i] == Row(enc, i);
        ghost var r := TargetRow(f, inv, encRows, flags[lo..hi], i, lo, hi - lo);
        TargetOfParity(f, inv, encRows, flags[lo..hi], i, lo, hi - lo);
        FilledStep(f, Rows(rows), flags, inv, encRows, lo, hi - lo, i, r);
        BuildForm(f, enc, flags, rows, l, i, lo, hi, inv, i);
        l := l + 1;
      } else {
        FilledSame(f, Rows(rows), flags, inv, encRows, lo, hi - lo, i, i + 1);
      }
    }
  }

  lemma ZeroIs(f: Field<bv8>)
    requires IsByteField(f)
    ensures f.zero == 0 && f.one == 1
  {
  }
}
