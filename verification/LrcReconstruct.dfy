/** Rebuilding one fragment of the LRC code, from its local group where that is possible. */
module LrcReconstruct {
  import opened Fields
  import opened Vectors
  import opened Mds
  import opened MatrixOps
  import opened GaussJordan
  import opened Systematic
  import opened Erasures
  import opened Regions
  import opened LocalGroups
  import opened IsaL
  import opened InverseRows
  import opened LinearDecode
  import opened LrcMatrix
  import opened LrcSelection
  import opened LrcBuffers
  import opened Lrc

  // ----- a local group is a code of its own

  /** A row that is zero outside a window only needs the window. */
  lemma {:induction false} DotWindow(f: Field<bv8>, row: seq<bv8>, d: seq<bv8>, lo: nat, hi: nat, n: nat)
    requires IsField(f) && lo <= hi <= |row| == |d| && n <= |row|
    requires forall j :: 0 <= j < |row| && !(lo <= j < hi) ==> row[j] == f.zero
    ensures Dot(f, row, d, n) == if n <= lo then f.zero else Dot(f, row[lo..hi], d[lo..hi], if n <= hi then n - lo else hi - lo)
  {
    if n > 0 {
      DotWindow(f, row, d, lo, hi, n - 1);
      MulZero(f, d[n - 1]);
      AddZero(f, Dot(f, row, d, n - 1));
    }
  }

  lemma CombinationWindow(f: Field<bv8>, row: seq<bv8>, d: seq<seq<bv8>>, lo: nat, hi: nat, blocksize: nat)
    requires IsField(f) && lo <= hi <= |row| == |d| && forall i :: 0 <= i < |d| ==> |d[i]| == blocksize
    requires forall j :: 0 <= j < |row| && !(lo <= j < hi) ==> row[j] == f.zero
    ensures Combination(f, row, d, blocksize) == Combination(f, row[lo..hi], d[lo..hi], blocksize)
  {
    hide IsField;
    var a, b := Combination(f, row, d, blocksize), Combination(f, row[lo..hi], d[lo..hi], blocksize);
    forall x | 0 <= x < blocksize ensures a[x] == b[x] {
      var c := ByteColumn(d, x);
      DotWindow(f, row, c, lo, hi, |row|);
      assert ByteColumn(d[lo..hi], x) == c[lo..hi];
    }
  }

  lemma CodeRow(f: Field<bv8>, rows: Matrix<bv8>, k: nat, blocksize: nat, frags: seq<seq<bv8>>, i: nat)
    requires IsLinearCode(f, rows, k, blocksize, frags) && i < |rows|
    ensures k <= |rows| == |frags| && Shape(rows, |rows|, k) && forall j :: 0 <= j < |frags| ==> |frags[j]| == blocksize
    ensures frags[i] == Combination(f, rows[i], frags[..k], blocksize)
  {
  }

  /** A local parity is a combination of its own group. */
  lemma LocalParityOfGroup(f: Field<bv8>, gen: Matrix<bv8>, k: nat, m: nat, l: nat, blocksize: nat, frags: seq<seq<bv8>>, v: nat, lo: nat, hi: nat)
    requires IsByteField(f) && IsLrcMatrix(f, gen, k, m, l) && |frags| == k + m && IsLinearCode(f, gen, k, blocksize, frags)
    requires v < l && lo == LocalGroupDataLower(k, l, v) && hi == LocalGroupDataUpper(k, l, v)
    ensures lo < hi <= k
    ensures frags[k + m - l + v] == Combination(f, gen[k + m - l + v][lo..hi], frags[lo..hi], blocksize)
  {
    hide LocalGroupDataLower, LocalGroupForData, AnyRowsIndependent, IsByteField, IsLinearCode, IdentityOnTop, Combination;
    GroupsTile(k, l, 0, v);
    FieldOf(f);
    var row := gen[k + m - l + v];
    CodeRow(f, gen, k, blocksize, frags, k + m - l + v);
    forall j | 0 <= j < k && !(lo <= j < hi) ensures row[j] == f.zero { assert !InGroup(k, l, v, j); }
    CombinationWindow(f, row, frags[..k], lo, hi, blocksize);
    assert frags[..k][lo..hi] == frags[lo..hi];
  }

  /** The group's data and its local parity, as rows over the group's data. */
  ghost function GroupRows(f: Field<bv8>, row: seq<bv8>, lo: nat, hi: nat): (r: Matrix<bv8>)
    requires lo <= hi <= |row|
    ensures Shape(r, hi - lo + 1, hi - lo)
  {
    Identity(f, hi - lo) + [row[lo..hi]]
  }

  lemma GroupIsCode(f: Field<bv8>, row: seq<bv8>, blocksize: nat, group: seq<seq<bv8>>, local: seq<bv8>, lo: nat, hi: nat)
    requires IsByteField(f) && lo <= hi <= |row| && |group| == hi - lo && |local| == blocksize
    requires forall i :: 0 <= i < |group| ==> |group[i]| == blocksize
    requires local == Combination(f, row[lo..hi], group, blocksize)
    ensures IsLinearCode(f, GroupRows(f, row, lo, hi), hi - lo, blocksize, group + [local])
    ensures IdentityOnTop(f, GroupRows(f, row, lo, hi), hi - lo, hi - lo)
  {
    hide IsByteField;
    FieldOf(f);
    var s, rows, frags := hi - lo, GroupRows(f, row, lo, hi), group + [local];
    assert frags[..s] == group;
    forall i | 0 <= i < s ensures frags[i] == Combination(f, rows[i], group, blocksize) {
      var c := Combination(f, rows[i], group, blocksize);
      forall x | 0 <= x < blocksize ensures group[i][x] == c[x] {
        DotUnit(f, rows[i], ByteColumn(group, x), s, i);
      }
    }
  }

  /** The group without fragment d, then the local parity. */
  ghost function WithoutOne(s: nat, d: nat): (sel: seq<nat>)
    requires d < s
    ensures |sel| == s && forall i :: 0 <= i < s ==> sel[i] == if i < d then i else i + 1
  {
    seq(s, i requires 0 <= i < s => if i < d then i else i + 1)
  }

  /** The lost fragment is recoverable from the rest of its group exactly if the local parity's coefficient for it is
      not zero. */
  lemma GroupInvertible(f: Field<bv8>, row: seq<bv8>, lo: nat, hi: nat, d: nat)
    requires IsField(f) && lo <= d < hi <= |row|
    ensures TrivialKernel(f, Select(GroupRows(f, row, lo, hi), WithoutOne(hi - lo, d - lo)), hi - lo) <==> row[d] != f.zero
  {
    hide IsField, Orthogonal, IsZero, IsChosen, GroupRows, WithoutOne;
    var s, e, g := hi - lo, d - lo, row[lo..hi];
    var chosen := Select(GroupRows(f, row, lo, hi), WithoutOne(s, e));
    SelectionIsChosen(f, row, lo, hi, e);
    if row[d] != f.zero {
      forall w: seq<bv8> | |w| == s && Orthogonal(f, chosen, w) ensures IsZero(f, w) { GroupKernel(f, chosen, g, s, e, w); }
    } else {
      GroupStuck(f, chosen, g, s, e);
    }
  }

  /** Without that coefficient the lost element itself is orthogonal to what is left. */
  lemma GroupStuck(f: Field<bv8>, chosen: Matrix<bv8>, g: seq<bv8>, s: nat, e: nat)
    requires IsField(f) && IsChosen(f, chosen, g, s, e) && g[e] == f.zero
    ensures Orthogonal(f, chosen, Unit(f, s, e)) && !IsZero(f, Unit(f, s, e))
  {
    hide Dot;
    var w := Unit(f, s, e);
    assert w[e] == f.one;
    forall p | 0 <= p < s ensures Dot(f, chosen[p], w, s) == f.zero { DotUnit(f, w, chosen[p], s, e); }
  }

  /** What is left of a group's rows without the lost element's: the other units, then the local parity. */
  ghost predicate IsChosen(f: Field<bv8>, chosen: Matrix<bv8>, g: seq<bv8>, s: nat, e: nat) {
    && e < s == |g| && Shape(chosen, s, s) && chosen[s - 1] == g
    && forall p :: 0 <= p < s - 1 ==> chosen[p] == Unit(f, s, if p < e then p else p + 1)
  }

  lemma SelectionIsChosen(f: Field<bv8>, row: seq<bv8>, lo: nat, hi: nat, e: nat)
    requires lo <= hi <= |row| && e < hi - lo
    ensures IsChosen(f, Select(GroupRows(f, row, lo, hi), WithoutOne(hi - lo, e)), row[lo..hi], hi - lo, e)
    ensures Shape(Select(GroupRows(f, row, lo, hi), WithoutOne(hi - lo, e)), hi - lo, hi - lo)
  {
  }

  /** A vector orthogonal to them is zero at every other element, and then at the lost one too. */
  lemma GroupKernel(f: Field<bv8>, chosen: Matrix<bv8>, g: seq<bv8>, s: nat, e: nat, w: seq<bv8>)
    requires IsField(f) && e < s && IsChosen(f, chosen, g, s, e) && |w| == s && g[e] != f.zero && Orthogonal(f, chosen, w)
    ensures IsZero(f, w)
  {
    hide *;
    ChosenAt(f, chosen, g, s, e, s - 1, w);
    forall j: nat | j < s && j != e ensures w[j] == f.zero {
      var p := if j < e then j else j - 1;
      ChosenAt(f, chosen, g, s, e, p, w);
      DotUnit(f, chosen[p], w, s, j);
    }
    DotOnly(f, g, w, s, e);
    NoZeroDivisors(f, g[e], w[e]);
    AllZero(f, w);
  }

  lemma ChosenAt(f: Field<bv8>, chosen: Matrix<bv8>, g: seq<bv8>, s: nat, e: nat, p: nat, w: seq<bv8>)
    requires IsChosen(f, chosen, g, s, e) && |w| == s && Orthogonal(f, chosen, w) && p < s
    ensures e < s == |g| == |chosen| && |chosen[p]| == s && Dot(f, chosen[p], w, s) == f.zero
    ensures chosen[p] == if p == s - 1 then g else Unit(f, s, if p < e then p else p + 1)
  {
    hide Dot;
  }

  lemma AllZero(f: Field<bv8>, w: seq<bv8>)
    requires forall j: nat :: j < |w| ==> w[j] == f.zero
    ensures IsZero(f, w)
  {
  }

  /** No coefficient of a local parity inside its group is zero. */
  lemma LocalCoefficient(f: Field<bv8>, gen: Matrix<bv8>, k: nat, m: nat, l: nat, v: nat, d: nat)
    requires IsByteField(f) && IsLrcGenerator(f, gen, k, m, l) && v < l && d < k && InGroup(k, l, v, d)
    ensures gen[k + m - l + v][d] != f.zero
  {
    hide InGroup, LocalGroupForData;
    GroupsTile(k, l, d, v);
    var fam := Family(gen, k, m, l);
    ParityEntriesNonzero(f, fam, k, k + m - l, d);
  }

  // ----- staying local

  /** Row toRow becomes columns lo to hi of a row of the generator. */
  method CopyWindow(gen: array2<bv8>, dec: array2<bv8>, fromRow: nat, toRow: nat, lo: nat, hi: nat)
    requires gen != dec && fromRow < gen.Length0 && lo <= hi <= gen.Length1 && toRow < dec.Length0 && dec.Length1 == hi - lo
    modifies dec
    ensures Rows(gen) == old(Rows(gen))
    ensures Rows(dec) == old(Rows(dec))[toRow := Row(gen, fromRow)[lo..hi]]
  {
    ghost var before, row := Rows(dec), Row(gen, fromRow)[lo..hi];
    for j := lo to hi
      invariant forall c :: 0 <= c < j - lo ==> dec[toRow, c] == row[c]
      invariant forall r, c :: 0 <= r < dec.Length0 && 0 <= c < hi - lo && r != toRow ==> dec[r, c] == before[r][c]
    {
      dec[toRow, j - lo] := gen[fromRow, j];
    }
    SameRows(dec, before[toRow := row]);
  }

  /** The data of the group but for the lost fragment, then the local parity. */
  method FillGroupMatrix(gen: array2<bv8>, used: array<bool>, dest: nat, lp: nat, lo: nat, hi: nat) returns (dec: array2<bv8>)
    requires lo <= dest < hi <= gen.Length1 <= lp < gen.Length0 == used.Length && forall x :: 0 <= x < used.Length ==> !used[x]
    modifies used
    ensures fresh(dec) && dec.Length0 == dec.Length1 == hi - lo
    ensures forall i :: 0 <= i < hi - lo - 1 ==> Rows(dec)[i] == Row(gen, if i < dest - lo then lo + i else lo + i + 1)[lo..hi]
    ensures Rows(dec)[hi - lo - 1] == Row(gen, lp)[lo..hi]
    ensures forall x :: 0 <= x < used.Length ==> (used[x] <==> (lo <= x < hi && x != dest) || x == lp)
  {
    var s := hi - lo;
    dec := new bv8[s, s];
    ghost var rows := Rows(gen);
    var col := 0;
    for encIdx := lo to hi
      invariant col == if encIdx <= dest then encIdx - lo else encIdx - lo - 1
      invariant Rows(gen) == rows
      invariant forall i :: 0 <= i < col ==> Rows(dec)[i] == rows[if i < dest - lo then lo + i else lo + i + 1][lo..hi]
      invariant forall x :: 0 <= x < used.Length ==> (used[x] <==> lo <= x < encIdx && x != dest)
    {
      if encIdx != dest {
        assert rows[encIdx] == Row(gen, encIdx);
        CopyWindow(gen, dec, encIdx, col, lo, hi);
        used[encIdx] := true;
        col := col + 1;
      }
    }
    assert rows[lp] == Row(gen, lp);
    CopyWindow(gen, dec, lp, col, lo, hi);
    used[lp] := true;
    forall x | 0 <= x < gen.Length0 ensures Row(gen, x) == rows[x] { assert Rows(gen)[x] == rows[x]; }
  }

  /** The rows of the group's data. */
  method FillDataMatrix(gen: array2<bv8>, used: array<bool>, lo: nat, hi: nat) returns (dec: array2<bv8>)
    requires lo <= hi <= gen.Length1 <= gen.Length0 == used.Length && forall x :: 0 <= x < used.Length ==> !used[x]
    modifies used
    ensures fresh(dec) && dec.Length0 == dec.Length1 == hi - lo
    ensures forall i :: 0 <= i < hi - lo ==> Rows(dec)[i] == Row(gen, lo + i)[lo..hi]
    ensures forall x :: 0 <= x < used.Length ==> (used[x] <==> lo <= x < hi)
  {
    dec := new bv8[hi - lo, hi - lo];
    ghost var rows := Rows(gen);
    for i := lo to hi
      invariant Rows(gen) == rows
      invariant forall x :: 0 <= x < i - lo ==> Rows(dec)[x] == rows[lo + x][lo..hi]
      invariant forall x :: 0 <= x < used.Length ==> (used[x] <==> lo <= x < i)
    {
      assert rows[i] == Row(gen, i);
      CopyWindow(gen, dec, i, i - lo, lo, hi);
      used[i] := true;
    }
    forall x | 0 <= x < gen.Length0 ensures Row(gen, x) == rows[x] { assert Rows(gen)[x] == rows[x]; }
  }

  /** The used buffers in order, when the group is all of the data: data that is not flagged, then used parities. */
  method FullWidthFragments(data: seq<array<bv8>>, parity: seq<array<bv8>>, flags: seq<bool>, used: seq<bool>, k: nat, m: nat, l: nat)
    returns (avail: seq<array<bv8>>)
    requires 0 < l <= m && |data| == k && |parity| == m && |flags| == |used| == k + m
    requires forall i :: 0 <= i < k + m ==> (used[i] <==> !flags[i] && (i < k || used[i]))
    requires |LostBelow(used, k + m)| == k
    ensures avail == LostBuffers(data, parity, used)
  {
    hide LostBelow, LostBuffers, Select;
    avail := [];
    var i := 0;
    LostBelowStart(used);
    SelectNone(data + parity);
    ghost var sel := [];
    while i < k + m - l && |avail| < k
      invariant 0 <= i <= k + m - l && sel == LostBelow(used, i) && avail == Select(data + parity, sel)
    {
      LostBelowStep(used, i);
      SelectSnoc(data + parity, sel, i);
      if !flags[i] {
        if i < k {
          avail := avail + [data[i]];
        } else if used[i] {
          avail := avail + [parity[i - k]];
        }
      }
      i := i + 1;
      sel := LostBelow(used, i);
    }
    LostBelowPrefix(used, i, k + m);
    if |avail| < k {
      while i < k + m && |avail| < k
        invariant k + m - l <= i <= k + m && sel == LostBelow(used, i) && avail == Select(data + parity, sel)
      {
        LostBelowStep(used, i);
        SelectSnoc(data + parity, sel, i);
        if !flags[i] {
          if used[i] {
            avail := avail + [parity[i - k]];
          }
        }
        i := i + 1;
        sel := LostBelow(used, i);
      }
      LostBelowPrefix(used, i, k + m);
    }
    assert sel == LostBelow(used, k + m);
    LostBuffersAre(data, parity, used);
  }

  lemma LostBuffersAre(data: seq<array<bv8>>, parity: seq<array<bv8>>, used: seq<bool>)
    requires |used| == |data| + |parity|
    ensures (forall i :: 0 <= i < |LostBelow(used, |used|)| ==> LostBelow(used, |used|)[i] < |used|)
    ensures LostBuffers(data, parity, used) == Select(data + parity, LostBelow(used, |used|))
  {
    hide LostBelow;
  }

  // ----- the used fragments of a group

  lemma {:induction false} UsedGroup(used: seq<bool>, lo: nat, hi: nat, dest: nat, n: nat)
    requires lo <= n <= hi <= |used| && lo <= dest
    requires forall x :: 0 <= x < hi ==> (used[x] <==> lo <= x && x != dest)
    ensures |LostBelow(used, n)| == n - lo - (if dest < n then 1 else 0)
    ensures forall i :: 0 <= i < |LostBelow(used, n)| ==> LostBelow(used, n)[i] == if i < dest - lo then lo + i else lo + i + 1
  {
    if n == lo { NothingLostBefore(used, lo); } else { UsedGroup(used, lo, hi, dest, n - 1); }
  }

  /** The used fragments, when they are a group without one fragment and its local parity. */
  lemma UsedWithParity(used: seq<bool>, lo: nat, hi: nat, dest: nat, lp: nat)
    requires lo <= dest < hi <= lp < |used|
    requires forall x :: 0 <= x < |used| ==> (used[x] <==> (lo <= x < hi && x != dest) || x == lp)
    ensures |LostBelow(used, |used|)| == hi - lo
    ensures forall i :: 0 <= i < hi - lo - 1 ==> LostBelow(used, |used|)[i] == if i < dest - lo then lo + i else lo + i + 1
    ensures LostBelow(used, |used|)[hi - lo - 1] == lp
  {
    hide LostBelow;
    UsedGroup(used, lo, hi, dest, hi);
    NothingLostBetween(used, hi, lp);
    LostBelowStep(used, lp);
    NothingLostBetween(used, lp + 1, |used|);
  }

  lemma UsedData(used: seq<bool>, lo: nat, hi: nat)
    requires lo <= hi <= |used| && forall x :: 0 <= x < |used| ==> (used[x] <==> lo <= x < hi)
    ensures |LostBelow(used, |used|)| == hi - lo
    ensures forall i :: 0 <= i < hi - lo ==> LostBelow(used, |used|)[i] == lo + i
  {
    hide LostBelow;
    UsedGroup(used, lo, hi, hi, hi);
    NothingLostBetween(used, hi, |used|);
  }

  lemma OnlyLost(flags: seq<bool>, dest: nat)
    requires dest < |flags| && forall x :: 0 <= x < |flags| ==> (flags[x] <==> x == dest)
    ensures LostBelow(flags, |flags|) == [dest]
  {
    hide LostBelow;
    NothingLostBefore(flags, dest);
    LostBelowStep(flags, dest);
    NothingLostBetween(flags, dest + 1, |flags|);
  }

  // ----- the three ways to rebuild

  /** All of the group of lost data fragment dest, and its local parity, is there. */
  ghost predicate GroupComplete(k: nat, m: nat, l: nat, v: nat, dest: nat, miss: set<nat>)
    requires 0 < l <= m
  {
    && (forall x: nat :: x < k && InGroup(k, l, v, x) && x != dest ==> x !in miss)
    && (dest < k ==> k + m - l + v !in miss)
  }

  /** The buffers that the mask picks hold their fragments, and the target's is not among them. */
  lemma UsedBuffers(data: seq<array<bv8>>, parity: seq<array<bv8>>, k: nat, m: nat, blocksize: nat, frags: seq<seq<bv8>>, used: seq<bool>,
      dest: nat, miss: set<nat>)
    requires Stripe(data, parity, k, m, blocksize) && |frags| == k + m == |used| == |data| + |parity| && PresentHeld(data, parity, frags, miss)
    requires dest < k + m && dest in miss && forall x :: 0 <= x < k + m && used[x] ==> x !in miss
    ensures var avail := LostBuffers(data, parity, used); AllSized(avail, blocksize) && (data + parity)[dest] !in avail
    ensures forall i :: 0 <= i < |LostBelow(used, k + m)| ==> Contents(LostBuffers(data, parity, used))[i] == frags[LostBelow(used, k + m)[i]]
  {
    hide LostBelow;
    var avail := LostBuffers(data, parity, used);
    forall i | 0 <= i < |avail| ensures avail[i][..] == frags[LostBelow(used, k + m)[i]] && avail[i] != (data + parity)[dest] && avail[i].Length == blocksize {
      var x := LostBelow(used, k + m)[i];
      assert avail[i] == (data + parity)[x] && (data + parity)[x][..] == frags[x];
      SeparateBuffers(data, parity, k, m, blocksize, x, dest);
    }
  }

  /** What the rest of the group supplies, in order. */
  lemma GroupSupplies(data: seq<array<bv8>>, parity: seq<array<bv8>>, k: nat, m: nat, blocksize: nat, frags: seq<seq<bv8>>, used: seq<bool>,
      lo: nat, hi: nat, dest: nat, lp: nat, miss: set<nat>)
    requires Stripe(data, parity, k, m, blocksize) && |frags| == k + m == |used| && PresentHeld(data, parity, frags, miss)
    requires forall i :: 0 <= i < k + m ==> |frags[i]| == blocksize
    requires lo <= dest < hi <= k <= lp < k + m && dest in miss
    requires forall x :: 0 <= x < k + m ==> (used[x] <==> (lo <= x < hi && x != dest) || x == lp)
    requires forall x :: 0 <= x < k + m && used[x] ==> x !in miss
    ensures var avail := LostBuffers(data, parity, used);
      |avail| == hi - lo && AllSized(avail, blocksize) && data[dest] !in avail
      && Contents(avail) == Select(frags[lo..hi] + [frags[lp]], WithoutOne(hi - lo, dest - lo))
  {
    hide LostBelow, LostBuffers, Stripe, PresentHeld, AllSized, Contents;
    UsedWithParity(used, lo, hi, dest, lp);
    StripeSizes(data, parity, k, m, blocksize);
    UsedBuffers(data, parity, k, m, blocksize, frags, used, dest, miss);
    assert (data + parity)[dest] == data[dest];
    var c, want := Contents(LostBuffers(data, parity, used)), Select(frags[lo..hi] + [frags[lp]], WithoutOne(hi - lo, dest - lo));
    forall i | 0 <= i < hi - lo ensures c[i] == want[i] {}
    assert c == want;
  }

  lemma UnitWindow(f: Field<bv8>, k: nat, i: nat, lo: nat, hi: nat)
    requires lo <= i < hi <= k
    ensures Unit(f, k, i)[lo..hi] == Unit(f, hi - lo, i - lo)
  {
  }

  lemma GroupMatrix(f: Field<bv8>, gen: Matrix<bv8>, dec: Matrix<bv8>, k: nat, lo: nat, hi: nat, dest: nat, lp: nat)
    requires lo <= dest < hi <= k <= lp < |gen| && Shape(gen, |gen|, k) && IdentityOnTop(f, gen, k, k) && |dec| == hi - lo
    requires forall i :: 0 <= i < hi - lo - 1 ==> dec[i] == gen[if i < dest - lo then lo + i else lo + i + 1][lo..hi]
    requires dec[hi - lo - 1] == gen[lp][lo..hi]
    ensures dec == Select(GroupRows(f, gen[lp], lo, hi), WithoutOne(hi - lo, dest - lo))
  {
    var want := Select(GroupRows(f, gen[lp], lo, hi), WithoutOne(hi - lo, dest - lo));
    forall i | 0 <= i < hi - lo ensures dec[i] == want[i] {
      if i < hi - lo - 1 { UnitWindow(f, k, if i < dest - lo then lo + i else lo + i + 1, lo, hi); }
    }
  }

  /** The group matrix is inverted exactly if the coefficient is not zero, and then its row for the lost fragment gives it back. */
  lemma GroupDecodes(isa: IsaL, gen: Matrix<bv8>, k: nat, m: nat, l: nat, blocksize: nat, frags: seq<seq<bv8>>, v: nat, lo: nat, hi: nat, dest: nat)
    requires Contract(isa) && IsLrcMatrix(isa.f, gen, k, m, l) && |frags| == k + m && IsLinearCode(isa.f, gen, k, blocksize, frags)
    requires v < l && lo == LocalGroupDataLower(k, l, v) && hi == LocalGroupDataUpper(k, l, v) && lo <= dest < hi <= k
    ensures var dec := Select(GroupRows(isa.f, gen[k + m - l + v], lo, hi), WithoutOne(hi - lo, dest - lo));
      var r := isa.invert(dec, hi - lo);
      && (r.Inverse? <==> gen[k + m - l + v][dest] != isa.f.zero)
      && (r.Inverse? ==> Shape(r.rows, hi - lo, hi - lo))
      && (r.Inverse? ==> Combination(isa.f, r.rows[dest - lo], Select(frags[lo..hi] + [frags[k + m - l + v]], WithoutOne(hi - lo, dest - lo)), blocksize) == frags[dest])
  {
    hide IsByteField, IsLrcMatrix, IsLinearCode, LocalGroupDataLower, Combination, GroupRows, WithoutOne, Inverts, TrivialKernel, Contract;
    var f, s, lp := isa.f, hi - lo, k + m - l + v;
    assert IsByteField(f) by { ContractField(isa); }
    MatrixShape(f, gen, k, m, l);
    LinearShape(f, gen, k, blocksize, frags);
    FieldOf(f);
    LocalParityOfGroup(f, gen, k, m, l, blocksize, frags, v, lo, hi);
    GroupIsCode(f, gen[lp], blocksize, frags[lo..hi], frags[lp], lo, hi);
    GroupInvertible(f, gen[lp], lo, hi, dest);
    var dec := Select(GroupRows(f, gen[lp], lo, hi), WithoutOne(s, dest - lo));
    Invertible(isa, dec, s);
    if isa.invert(dec, s).Inverse? {
      RecoverData(f, GroupRows(f, gen[lp], lo, hi), s, blocksize, frags[lo..hi] + [frags[lp]], WithoutOne(s, dest - lo), isa.invert(dec, s).rows, dest - lo);
      assert (frags[lo..hi] + [frags[lp]])[dest - lo] == frags[dest];
    }
  }

  lemma MatrixShape(f: Field<bv8>, gen: Matrix<bv8>, k: nat, m: nat, l: nat)
    requires IsLrcMatrix(f, gen, k, m, l)
    ensures 0 < l <= k && l <= m && Shape(gen, k + m, k) && IdentityOnTop(f, gen, k, k)
  {
  }

  /** The group's matrix, inverted, and which fragments it uses. */
  method InvertGroup(isa: IsaL, gen: array2<bv8>, k: nat, m: nat, l: nat, dest: nat, v: nat, lo: nat, hi: nat, blocksize: nat, ghost frags: seq<seq<bv8>>)
    returns (inverse: Inverse, dec: array2<bv8>, used: array<bool>)
    requires Contract(isa) && gen.Length0 == k + m && gen.Length1 == k && IsLrcMatrix(isa.f, Rows(gen), k, m, l)
    requires |frags| == k + m && IsLinearCode(isa.f, Rows(gen), k, blocksize, frags)
    requires v < l && lo == LocalGroupDataLower(k, l, v) && hi == LocalGroupDataUpper(k, l, v) && lo <= dest < hi <= k
    ensures fresh(dec) && fresh(used) && used.Length == k + m
    ensures forall x :: 0 <= x < k + m ==> (used[x] <==> (lo <= x < hi && x != dest) || x == k + m - l + v)
    ensures inverse.Inverse? <==> Row(gen, k + m - l + v)[dest] != isa.f.zero
    ensures inverse.Inverse? ==> Shape(inverse.rows, hi - lo, hi - lo)
    ensures inverse.Inverse? ==> Combination(isa.f, inverse.rows[dest - lo], Select(frags[lo..hi] + [frags[k + m - l + v]], WithoutOne(hi - lo, dest - lo)), blocksize) == frags[dest]
  {
    hide IsLrcMatrix, IsLinearCode, Contract, LocalGroupDataLower, Combination, GroupRows, WithoutOne;
    ghost var rows := Rows(gen);
    MatrixShape(isa.f, rows, k, m, l);
    used := new bool[k + m](i => false);
    dec := FillGroupMatrix(gen, used, dest, k + m - l + v, lo, hi);
    forall i | 0 <= i < k + m ensures Row(gen, i) == rows[i] { assert Rows(gen)[i] == rows[i]; }
    GroupMatrix(isa.f, rows, Rows(dec), k, lo, hi, dest, k + m - l + v);
    GroupDecodes(isa, rows, k, m, l, blocksize, frags, v, lo, hi, dest);
    inverse := isa.invert(Rows(dec), hi - lo);
  }

  /** The buffers of the used fragments, read the way the matrix size calls for. */
  method UsedFragments(data: seq<array<bv8>>, parity: seq<array<bv8>>, flags: seq<bool>, used: seq<bool>, matrixSize: nat, k: nat, m: nat, l: nat)
    returns (avail: seq<array<bv8>>)
    requires 0 < l <= m && |data| == k && |parity| == m && |flags| == |used| == k + m
    requires matrixSize == k ==> (forall i :: 0 <= i < k + m ==> (used[i] <==> !flags[i] && (i < k || used[i]))) && |LostBelow(used, k + m)| == k
    ensures avail == LostBuffers(data, parity, used)
  {
    if matrixSize == k {
      avail := FullWidthFragments(data, parity, flags, used, k, m, l);
    } else {
      avail := GetDecodedElements(data, parity, used, k);
    }
  }

  /** The row computed for the only lost fragment. */
  method OnlyRow(f: Field<bv8>, inv: Matrix<bv8>, enc: array2<bv8>, flags: seq<bool>, k: nat, m: nat, lo: nat, hi: nat, dest: nat) returns (row: seq<bv8>)
    requires IsByteField(f) && |flags| == k + m && lo <= hi <= k && Shape(inv, hi - lo, hi - lo)
    requires dest < k + m && forall x :: 0 <= x < k + m ==> (flags[x] <==> x == dest)
    requires lo <= dest < hi || (k <= dest < enc.Length0 && hi <= enc.Length1)
    ensures |row| == hi - lo && (lo <= dest < hi ==> row == inv[dest - lo])
    ensures !(lo <= dest < hi) ==> row == FormRow(f, Row(enc, dest)[lo..hi], flags[lo..hi], inv, hi - lo, hi - lo)
  {
    hide IsByteField, LostBelow, Filled, FormRow;
    OnlyLost(flags, dest);
    ghost var e := Rows(enc);
    var inverseRows := GetLrcInverseRows(f, inv, enc, flags, k, m, lo, hi);
    var r := FindRow(flags, dest);
    FilledOnly(f, Rows(inverseRows), flags, inv, e, lo, hi - lo, dest);
    row := Row(inverseRows, r);
    assert row == Rows(inverseRows)[r] && (dest < enc.Length0 ==> e[dest] == Row(enc, dest));
  }

  /** The lost fragments within a complete group and its local parity: just the one to rebuild. */
  method MaskToGroup(flags: seq<bool>, lo: nat, hi: nat, lp: nat, ghost dest: nat, ghost miss: set<nat>) returns (masked: seq<bool>)
    requires lo <= hi <= lp < |flags| && Marked(flags, miss) && dest < |flags| && dest in miss && (lo <= dest < hi || dest == lp)
    requires (forall x: nat :: lo <= x < hi && x != dest ==> x !in miss) && (lp != dest ==> lp !in miss)
    ensures |masked| == |flags| && forall x :: 0 <= x < |flags| ==> (masked[x] <==> x == dest)
  {
    masked := seq(|flags|, x requires 0 <= x < |flags| => flags[x] && (lo <= x < hi || x == lp));
  }

  lemma FilledOnly(f: Field<bv8>, rows: Matrix<bv8>, flags: seq<bool>, inv: Matrix<bv8>, enc: Matrix<bv8>, lo: nat, s: nat, dest: nat)
    requires lo + s <= |flags| && Shape(inv, s, s) && Filled(f, rows, flags, inv, enc, lo, s, |flags|) && LostBelow(flags, |flags|) == [dest]
    ensures |rows| > 0 && (lo <= dest < lo + s || (dest < |enc| && lo + s <= |enc[dest]|)) && rows[0] == TargetRow(f, inv, enc, flags[lo..lo + s], dest, lo, s)
  {
    hide TargetRow;
    assert FilledAt(f, rows, flags, inv, enc, lo, s, |flags|, 0);
  }

  /** The row's combination of the available buffers is the fragment, and its own buffer is not among them. */
  ghost predicate Plans(f: Field<bv8>, row: seq<bv8>, avail: seq<array<bv8>>, to: array<bv8>, blocksize: nat, frag: seq<bv8>)
    reads avail
  {
    |row| == |avail| && AllSized(avail, blocksize) && to !in avail && Combination(f, row, Contents(avail), blocksize) == frag
  }

  /** The row that rebuilds a data fragment from the rest of its group, and the fragments it is for. */
  method RowFromGroup(isa: IsaL, gen: array2<bv8>, k: nat, m: nat, l: nat, masked: seq<bool>, dest: nat, v: nat, lo: nat, hi: nat,
      blocksize: nat, ghost frags: seq<seq<bv8>>)
    returns (ok: bool, row: seq<bv8>, used: seq<bool>)
    requires Contract(isa) && gen.Length0 == k + m && gen.Length1 == k && IsLrcMatrix(isa.f, Rows(gen), k, m, l)
    requires |frags| == k + m && IsLinearCode(isa.f, Rows(gen), k, blocksize, frags)
    requires v < l && lo == LocalGroupDataLower(k, l, v) && hi == LocalGroupDataUpper(k, l, v) && lo <= dest < hi <= k
    requires |masked| == k + m && forall x :: 0 <= x < k + m ==> (masked[x] <==> x == dest)
    ensures ok <==> Row(gen, k + m - l + v)[dest] != isa.f.zero
    ensures ok ==> |used| == k + m && forall x :: 0 <= x < k + m ==> (used[x] <==> (lo <= x < hi && x != dest) || x == k + m - l + v)
    ensures ok ==> |row| == hi - lo
    ensures ok ==> Combination(isa.f, row, Select(frags[lo..hi] + [frags[k + m - l + v]], WithoutOne(hi - lo, dest - lo)), blocksize) == frags[dest]
  {
    hide IsLrcMatrix, IsLinearCode, Contract, LocalGroupDataLower, Combination, WithoutOne, FormRow, IsByteField;
    ContractField(isa);
    ok, row, used := false, [], [];
    var inverse, dec, marks := InvertGroup(isa, gen, k, m, l, dest, v, lo, hi, blocksize, frags);
    if inverse.Singular? {
      return;
    }
    row := OnlyRow(isa.f, inverse.rows, if hi - lo == k then gen else dec, masked, k, m, lo, hi, dest);
    ok, used := true, marks[..];
  }

  /** How to rebuild a data fragment from the rest of its group and the local parity. */
  method PlanFromGroup(isa: IsaL, gen: array2<bv8>, data: seq<array<bv8>>, parity: seq<array<bv8>>, k: nat, m: nat, l: nat,
      flags: seq<bool>, dest: nat, v: nat, lo: nat, hi: nat, blocksize: nat, ghost frags: seq<seq<bv8>>, ghost miss: set<nat>)
    returns (ok: bool, row: seq<bv8>, avail: seq<array<bv8>>)
    requires Contract(isa) && gen.Length0 == k + m && gen.Length1 == k
    requires LrcStripe(isa.f, Rows(gen), k, m, l, blocksize, data, parity, frags, miss)
    requires |flags| == k + m && Marked(flags, miss)
    requires 0 < l <= m && v < l && lo == LocalGroupDataLower(k, l, v) && hi == LocalGroupDataUpper(k, l, v)
    requires lo <= dest < hi <= k && dest in miss && GroupComplete(k, m, l, v, dest, miss) && dest < |data| && dest < |frags|
    ensures ok <==> Row(gen, k + m - l + v)[dest] != isa.f.zero
    ensures ok ==> Plans(isa.f, row, avail, data[dest], blocksize, frags[dest])
  {
    hide *;
    StripeParts(isa.f, Rows(gen), k, m, l, blocksize, data, parity, frags, miss);
    LinearShape(isa.f, Rows(gen), k, blocksize, frags);
    var lp := k + m - l + v;
    GroupMask(k, m, l, v, dest, lo, hi, miss);
    var masked := MaskToGroup(flags, lo, hi, lp, dest, miss);
    var used: seq<bool>;
    avail := [];
    ok, row, used := RowFromGroup(isa, gen, k, m, l, masked, dest, v, lo, hi, blocksize, frags);
    if !ok {
      return;
    }
    GroupPlan(isa.f, row, data, parity, k, m, blocksize, frags, used, lo, hi, dest, lp, miss);
    UsedWithParity(used, lo, hi, dest, lp);
    avail := UsedFragments(data, parity, masked, used, hi - lo, k, m, l);
  }

  lemma GroupPlan(f: Field<bv8>, row: seq<bv8>, data: seq<array<bv8>>, parity: seq<array<bv8>>, k: nat, m: nat, blocksize: nat, frags: seq<seq<bv8>>, used: seq<bool>,
      lo: nat, hi: nat, dest: nat, lp: nat, miss: set<nat>)
    requires Stripe(data, parity, k, m, blocksize) && |data| == k && |frags| == k + m == |used| && |parity| == m && PresentHeld(data, parity, frags, miss)
    requires forall i :: 0 <= i < k + m ==> |frags[i]| == blocksize
    requires lo <= dest < hi <= k <= lp < k + m && dest in miss
    requires forall x :: 0 <= x < k + m ==> (used[x] <==> (lo <= x < hi && x != dest) || x == lp)
    requires forall x :: 0 <= x < k + m && used[x] ==> x !in miss
    requires |row| == hi - lo
    requires Combination(f, row, Select(frags[lo..hi] + [frags[lp]], WithoutOne(hi - lo, dest - lo)), blocksize) == frags[dest]
    ensures Plans(f, row, LostBuffers(data, parity, used), data[dest], blocksize, frags[dest])
  {
    hide Stripe, PresentHeld, LostBuffers, Combination;
    GroupSupplies(data, parity, k, m, blocksize, frags, used, lo, hi, dest, lp, miss);
    GroupPlanned(f, row, LostBuffers(data, parity, used), data[dest], blocksize, frags[lo..hi] + [frags[lp]], WithoutOne(hi - lo, dest - lo), frags[dest]);
  }

  lemma GroupPlanned(f: Field<bv8>, row: seq<bv8>, avail: seq<array<bv8>>, to: array<bv8>, blocksize: nat, group: seq<seq<bv8>>, sel: seq<nat>, frag: seq<bv8>)
    requires Indices(sel, |group|) && |row| == |avail| == |sel| && AllSized(avail, blocksize) && to !in avail
    requires Contents(avail) == Select(group, sel) && forall i :: 0 <= i < |group| ==> |group[i]| == blocksize
    requires Combination(f, row, Select(group, sel), blocksize) == frag
    ensures Plans(f, row, avail, to, blocksize, frag)
  {
  }

  /** In a complete group nothing but the fragment itself is lost. */
  lemma GroupMask(k: nat, m: nat, l: nat, v: nat, dest: nat, lo: nat, hi: nat, miss: set<nat>)
    requires 0 < l <= m && lo == LocalGroupDataLower(k, l, v) && hi == LocalGroupDataUpper(k, l, v) && hi <= k
    requires GroupComplete(k, m, l, v, dest, miss)
    ensures forall x: nat :: lo <= x < hi && x != dest ==> x !in miss
    ensures dest < k ==> k + m - l + v !in miss
  {
    hide LocalGroupDataLower;
    forall x: nat | lo <= x < hi && x != dest ensures x !in miss { assert InGroup(k, l, v, x); }
  }

  // ----- a local parity from its group

  lemma DataMatrix(f: Field<bv8>, gen: Matrix<bv8>, dec: Matrix<bv8>, k: nat, lo: nat, hi: nat)
    requires lo <= hi <= k <= |gen| && Shape(gen, |gen|, k) && IdentityOnTop(f, gen, k, k) && |dec| == hi - lo
    requires forall i :: 0 <= i < hi - lo ==> dec[i] == gen[lo + i][lo..hi]
    ensures dec == Identity(f, hi - lo)
  {
    forall i | 0 <= i < hi - lo ensures dec[i] == Unit(f, hi - lo, i) { UnitWindow(f, k, lo + i, lo, hi); }
  }

  lemma PlainRow(f: Field<bv8>, g: seq<bv8>, lost: seq<bool>, inv: Matrix<bv8>, s: nat)
    requires IsByteField(f) && |g| == |lost| == s && Shape(inv, s, s) && forall i :: 0 <= i < s ==> !lost[i]
    ensures FormRow(f, g, lost, inv, s, s) == g
  {
    hide FormRow, PresentCount, IsByteField;
    FieldOf(f);
    FormRowPlain(f, g, lost, inv, s, s);
    assert g[..s] + Zeros(f, 0) == g;
  }

  /** The row of a local parity over its group's data, and the fragments it is for. */
  method RowOfLocalParity(isa: IsaL, gen: array2<bv8>, k: nat, m: nat, l: nat, masked: seq<bool>, dest: nat, lo: nat, hi: nat)
    returns (ok: bool, row: seq<bv8>, used: seq<bool>)
    requires Contract(isa) && gen.Length0 == k + m && gen.Length1 == k && IsLrcMatrix(isa.f, Rows(gen), k, m, l)
    requires lo <= hi <= k <= dest < k + m
    requires |masked| == k + m && forall x :: 0 <= x < k + m ==> (masked[x] <==> x == dest)
    ensures ok && |used| == k + m && forall x :: 0 <= x < k + m ==> (used[x] <==> lo <= x < hi)
    ensures row == Row(gen, dest)[lo..hi]
  {
    hide IsLrcMatrix, Contract, IsByteField, FormRow, TrivialKernel, Inverts;
    ContractField(isa);
    FieldOf(isa.f);
    ghost var rows := Rows(gen);
    MatrixShape(isa.f, rows, k, m, l);
    ok, row, used := false, [], [];
    var marks := new bool[k + m](i => false);
    var dec := FillDataMatrix(gen, marks, lo, hi);
    forall i | 0 <= i < k + m ensures Row(gen, i) == rows[i] { assert Rows(gen)[i] == rows[i]; }
    DataMatrix(isa.f, rows, Rows(dec), k, lo, hi);
    IdentityInvertible(isa.f, hi - lo);
    var inverse := isa.invert(Rows(dec), hi - lo);
    Invertible(isa, Identity(isa.f, hi - lo), hi - lo);
    if inverse.Singular? {
      return;
    }
    row := OnlyRow(isa.f, inverse.rows, gen, masked, k, m, lo, hi, dest);
    PlainRow(isa.f, Row(gen, dest)[lo..hi], masked[lo..hi], inverse.rows, hi - lo);
    ok, used := true, marks[..];
  }

  lemma DataSupplies(data: seq<array<bv8>>, parity: seq<array<bv8>>, k: nat, m: nat, blocksize: nat, frags: seq<seq<bv8>>, used: seq<bool>,
      lo: nat, hi: nat, dest: nat, miss: set<nat>)
    requires Stripe(data, parity, k, m, blocksize) && |frags| == k + m == |used| && PresentHeld(data, parity, frags, miss)
    requires forall i :: 0 <= i < k + m ==> |frags[i]| == blocksize
    requires lo <= hi <= k <= dest < k + m && dest in miss
    requires forall x :: 0 <= x < k + m ==> (used[x] <==> lo <= x < hi)
    requires forall x :: 0 <= x < k + m && used[x] ==> x !in miss
    ensures var avail := LostBuffers(data, parity, used);
      |avail| == hi - lo && AllSized(avail, blocksize) && parity[dest - k] !in avail && Contents(avail) == frags[lo..hi]
  {
    hide LostBelow, LostBuffers, Stripe, PresentHeld, AllSized, Contents;
    UsedData(used, lo, hi);
    StripeSizes(data, parity, k, m, blocksize);
    UsedBuffers(data, parity, k, m, blocksize, frags, used, dest, miss);
    assert (data + parity)[dest] == parity[dest - k];
    var avail, c := LostBuffers(data, parity, used), Contents(LostBuffers(data, parity, used));
    assert c == frags[lo..hi];
  }

  /** How to rebuild a local parity from its group's data. */
  method PlanLocalParity(isa: IsaL, gen: array2<bv8>, data: seq<array<bv8>>, parity: seq<array<bv8>>, k: nat, m: nat, l: nat,
      flags: seq<bool>, dest: nat, v: nat, lo: nat, hi: nat, blocksize: nat, ghost frags: seq<seq<bv8>>, ghost miss: set<nat>)
    returns (ok: bool, row: seq<bv8>, avail: seq<array<bv8>>)
    requires Contract(isa) && gen.Length0 == k + m && gen.Length1 == k
    requires LrcStripe(isa.f, Rows(gen), k, m, l, blocksize, data, parity, frags, miss)
    requires |flags| == k + m && Marked(flags, miss)
    requires 0 < l <= m && v < l && lo == LocalGroupDataLower(k, l, v) && hi == LocalGroupDataUpper(k, l, v) && lo <= hi <= k
    requires dest == k + m - l + v && dest in miss && GroupComplete(k, m, l, v, dest, miss) && dest - k < |parity| && dest < |frags|
    ensures ok && Plans(isa.f, row, avail, parity[dest - k], blocksize, frags[dest])
  {
    hide IsByteField, IsLrcMatrix, IsLinearCode, LocalOnly, Contract, LostBelow, LostBuffers, LocalGroupDataLower, Combination,
      Stripe, PresentHeld, GroupComplete, AllSized, Plans;
    ghost var rows := Rows(gen);
    StripeParts(isa.f, rows, k, m, l, blocksize, data, parity, frags, miss);
    LinearShape(isa.f, rows, k, blocksize, frags);
    GroupMask(k, m, l, v, dest, lo, hi, miss);
    var masked := MaskToGroup(flags, lo, hi, dest, dest, miss);
    var used: seq<bool>;
    avail := [];
    ok, row, used := RowOfLocalParity(isa, gen, k, m, l, masked, dest, lo, hi);
    if !ok {
      return;
    }
    assert rows[dest] == Row(gen, dest);
    LocalParityOfGroup(isa.f, rows, k, m, l, blocksize, frags, v, lo, hi);
    DataPlan(isa.f, row, data, parity, k, m, blocksize, frags, used, lo, hi, dest, miss);
    UsedData(used, lo, hi);
    avail := UsedFragments(data, parity, masked, used, hi - lo, k, m, l);
  }

  lemma DataPlan(f: Field<bv8>, row: seq<bv8>, data: seq<array<bv8>>, parity: seq<array<bv8>>, k: nat, m: nat, blocksize: nat, frags: seq<seq<bv8>>, used: seq<bool>,
      lo: nat, hi: nat, dest: nat, miss: set<nat>)
    requires Stripe(data, parity, k, m, blocksize) && |data| == k && |frags| == k + m == |used| && |parity| == m && PresentHeld(data, parity, frags, miss)
    requires forall i :: 0 <= i < k + m ==> |frags[i]| == blocksize
    requires lo <= hi <= k <= dest < k + m && dest in miss
    requires forall x :: 0 <= x < k + m ==> (used[x] <==> lo <= x < hi)
    requires forall x :: 0 <= x < k + m && used[x] ==> x !in miss
    requires |row| == hi - lo && Combination(f, row, frags[lo..hi], blocksize) == frags[dest]
    ensures Plans(f, row, LostBuffers(data, parity, used), parity[dest - k], blocksize, frags[dest])
  {
    hide Stripe, PresentHeld, LostBuffers, Combination;
    DataSupplies(data, parity, k, m, blocksize, frags, used, lo, hi, dest, miss);
  }

  // ----- the general way

  /** The row of the inverse rows that belongs to the lost fragment. */
  method PlanFrom(isa: IsaL, gen: array2<bv8>, inv: Matrix<bv8>, avail: seq<array<bv8>>, ghost data: seq<array<bv8>>, ghost parity: seq<array<bv8>>, k: nat, m: nat,
      flags: seq<bool>, dest: nat, ghost blocksize: nat, ghost frags: seq<seq<bv8>>, ghost rows: Matrix<bv8>, ghost ext: seq<seq<bv8>>, ghost sel: seq<nat>, ghost miss: set<nat>)
    returns (row: seq<bv8>)
    requires gen.Length0 == k + m && gen.Length1 == k && k + m <= |rows| && forall i :: 0 <= i < k + m ==> Rows(gen)[i] == rows[i]
    requires |flags| == k + m && Marked(flags, miss) && dest < k + m && dest in miss && |data| + |parity| == k + m
    requires |frags| == k + m <= |ext| && ext[..k + m] == frags
    requires Decodable(isa.f, rows, k, blocksize, ext, sel, inv, flags[..k]) && Supplies(avail, data, parity, ext, sel, miss)
    ensures Plans(isa.f, row, avail, (data + parity)[dest], blocksize, frags[dest])
  {
    hide *;
    MarkedAt(flags, miss, dest);
    DecodableField(isa.f, rows, k, blocksize, ext, sel, inv, flags[..k]);
    assert ext[dest] == ext[..k + m][dest];
    DecodableSizes(isa.f, rows, k, blocksize, ext, sel, inv, flags[..k]);
    SuppliesForm(avail, data, parity, ext, sel, miss, k, blocksize);
    ghost var enc := Rows(gen);
    var inverseRows := GetLrcInverseRows(isa.f, inv, gen, flags, k, m, 0, k);
    var r := FindRow(flags, dest);
    LostBelowHas(flags, k + m, dest);
    RowRebuilds(isa.f, rows, enc, k, m, blocksize, ext, sel, inv, flags, Rows(inverseRows), r);
    row := Row(inverseRows, r);
    assert row == Rows(inverseRows)[r];
    GroupPlanned(isa.f, row, avail, (data + parity)[dest], blocksize, ext, sel, frags[dest]);
  }

  /** How to rebuild any fragment with the decoder's rows, if it finds them. */
  method PlanGeneral(isa: IsaL, gen: array2<bv8>, data: seq<array<bv8>>, parity: seq<array<bv8>>, k: nat, m: nat, l: nat,
      flags: seq<bool>, dest: nat, blocksize: nat, ghost frags: seq<seq<bv8>>, ghost miss: set<nat>)
    returns (ok: bool, row: seq<bv8>, avail: seq<array<bv8>>)
    requires Contract(isa) && gen.Length0 == k + m && gen.Length1 == k
    requires LrcStripe(isa.f, Rows(gen), k, m, l, blocksize, data, parity, frags, miss)
    requires |flags| == k + m && Marked(flags, miss)
    requires dest < k + m && dest in miss && k + m == |data| + |parity| == |frags|
    ensures ok ==> Plans(isa.f, row, avail, (data + parity)[dest], blocksize, frags[dest])
    ensures ok <==> Solvable(isa.f, Rows(gen), k, m, l, miss)
  {
    hide *;
    ghost var rows := Rows(gen);
    StripeParts(isa.f, rows, k, m, l, blocksize, data, parity, frags, miss);
    WithSumParts(isa.f, rows, k, m, l, blocksize, frags);
    ghost var ext, sel := WithSum(isa.f, rows, k, m, l, blocksize, frags), Selection(k, m, l, miss);
    row := [];
    var inv: Matrix<bv8>;
    ok, inv, avail := Prepare(isa, gen, data, parity, k, m, l, flags, blocksize, frags, miss, ext);
    if ok {
      row := PlanFrom(isa, gen, inv, avail, data, parity, k, m, flags, dest, blocksize, frags, WithCombined(rows, k, m, l), ext, sel, miss);
    }
  }

  // ----- all together

  /** The fragment's local group has everything it takes. */
  ghost predicate LocallyRepairable(k: nat, m: nat, l: nat, miss: set<nat>, dest: nat)
    requires 0 < l <= k && l <= m && dest < k + m
  {
    if dest < k then GroupsTileOf(k, l, dest); GroupComplete(k, m, l, LocalGroupForData(k, l, dest), dest, miss)
    else dest >= k + m - l && GroupComplete(k, m, l, dest - (k + m - l), dest, miss)
  }

  lemma GroupsTileOf(k: nat, l: nat, dest: nat)
    requires 0 < l <= k && dest < k
    ensures 0 <= LocalGroupForData(k, l, dest) < l
  {
    GroupsTile(k, l, dest, 0);
  }

  /** Whether anything of the group but the fragment itself is lost, stopping at the first loss. */
  method GroupLost(flags: seq<bool>, lo: nat, hi: nat, dest: nat, first: bool) returns (missing: bool)
    requires lo <= hi <= |flags|
    ensures missing <==> first || exists i :: lo <= i < hi && i != dest && flags[i]
  {
    missing := first;
    var i := lo;
    while !missing && i < hi
      invariant lo <= i <= hi
      invariant missing <==> first || exists x :: lo <= x < i && x != dest && flags[x]
    {
      if i != dest {
        missing := flags[i];
      }
      i := i + 1;
    }
  }

  lemma GroupLostMeans(k: nat, m: nat, l: nat, v: nat, dest: nat, lo: nat, hi: nat, flags: seq<bool>, miss: set<nat>, missing: bool)
    requires 0 < l <= m && v < l && lo == LocalGroupDataLower(k, l, v) && hi == LocalGroupDataUpper(k, l, v) && lo <= hi <= k
    requires |flags| == k + m && Marked(flags, miss)
    requires missing <==> (dest < k && flags[k + m - l + v]) || exists i :: lo <= i < hi && i != dest && flags[i]
    ensures missing <==> !GroupComplete(k, m, l, v, dest, miss)
  {
    hide LocalGroupDataLower;
    if missing && !(dest < k && flags[k + m - l + v]) {
      var i :| lo <= i < hi && i != dest && flags[i];
      assert InGroup(k, l, v, i);
    }
  }

  lemma InGroupMeans(k: nat, l: nat, v: nat, d: nat)
    requires l > 0
    ensures InGroup(k, l, v, d) <==> LocalGroupDataLower(k, l, v) <= d < LocalGroupDataUpper(k, l, v)
  {
  }

  lemma RepairableMeans(k: nat, m: nat, l: nat, miss: set<nat>, dest: nat)
    requires 0 < l <= k && l <= m && dest < k + m
    ensures dest < k ==> 0 <= LocalGroupForData(k, l, dest) < l
    ensures dest < k ==> (LocallyRepairable(k, m, l, miss, dest) <==> GroupComplete(k, m, l, LocalGroupForData(k, l, dest), dest, miss))
    ensures k <= dest < k + m - l ==> !LocallyRepairable(k, m, l, miss, dest)
    ensures k + m - l <= dest ==> (LocallyRepairable(k, m, l, miss, dest) <==> GroupComplete(k, m, l, dest - (k + m - l), dest, miss))
  {
    hide LocalGroupForData, GroupComplete;
    if dest < k { GroupsTileOf(k, l, dest); }
  }

  /** A lost data fragment has a coefficient in its group's local parity. */
  ghost predicate LocallyCounted(f: Field<bv8>, gen: Matrix<bv8>, k: nat, m: nat, l: nat, dest: nat)
    requires 0 < l <= k && l <= m && Shape(gen, k + m, k) && dest < k + m
  {
    dest < k ==> (GroupsTileOf(k, l, dest); gen[k + m - l + LocalGroupForData(k, l, dest)][dest] != f.zero)
  }

  /** The code stays local whenever the group is complete, and needs k independent rows otherwise. */
  ghost predicate HasPlan(f: Field<bv8>, gen: Matrix<bv8>, k: nat, m: nat, l: nat, miss: set<nat>, dest: nat)
    requires 0 < l <= k && l <= m && Shape(gen, k + m, k) && dest < k + m
  {
    if LocallyRepairable(k, m, l, miss, dest) then LocallyCounted(f, gen, k, m, l, dest) else Solvable(f, gen, k, m, l, miss)
  }

  /** With an independent family either way will do. */
  lemma GeneratorPlan(f: Field<bv8>, gen: Matrix<bv8>, k: nat, m: nat, l: nat, miss: set<nat>, dest: nat)
    requires IsByteField(f) && IsLrcGenerator(f, gen, k, m, l) && dest < k + m
    ensures HasPlan(f, gen, k, m, l, miss, dest) <==> LocallyRepairable(k, m, l, miss, dest) || Solvable(f, gen, k, m, l, miss)
  {
    hide LocallyRepairable, Solvable, LocalGroupForData, InGroup, IsByteField, AnyRowsIndependent;
    if dest < k {
      GroupsTileOf(k, l, dest);
      var v := LocalGroupForData(k, l, dest);
      GroupsTile(k, l, dest, v);
      LocalCoefficient(f, gen, k, m, l, v, dest);
    }
  }

  lemma HasPlanMeans(f: Field<bv8>, gen: Matrix<bv8>, k: nat, m: nat, l: nat, miss: set<nat>, dest: nat)
    requires 0 < l <= k && l <= m && Shape(gen, k + m, k) && dest < k + m
    ensures !LocallyRepairable(k, m, l, miss, dest) ==> (HasPlan(f, gen, k, m, l, miss, dest) <==> Solvable(f, gen, k, m, l, miss))
    ensures LocallyRepairable(k, m, l, miss, dest) && dest >= k ==> HasPlan(f, gen, k, m, l, miss, dest)
    ensures LocallyRepairable(k, m, l, miss, dest) && dest < k && 0 <= LocalGroupForData(k, l, dest) < l ==>
      (HasPlan(f, gen, k, m, l, miss, dest) <==> gen[k + m - l + LocalGroupForData(k, l, dest)][dest] != f.zero)
  {
    hide LocallyRepairable, Solvable, LocalGroupForData;
  }

  /** How to rebuild the fragment: from its group if that is complete, otherwise the general way. */
  method Plan(isa: IsaL, gen: array2<bv8>, data: seq<array<bv8>>, parity: seq<array<bv8>>, k: nat, m: nat, l: nat,
      flags: seq<bool>, dest: nat, blocksize: nat, ghost frags: seq<seq<bv8>>, ghost miss: set<nat>)
    returns (ok: bool, row: seq<bv8>, avail: seq<array<bv8>>)
    requires Contract(isa) && gen.Length0 == k + m && gen.Length1 == k && 0 < l <= k && l <= m
    requires LrcStripe(isa.f, Rows(gen), k, m, l, blocksize, data, parity, frags, miss)
    requires |flags| == k + m && Marked(flags, miss)
    requires dest < k + m && dest in miss && k + m == |data| + |parity| == |frags|
    ensures ok ==> Plans(isa.f, row, avail, (data + parity)[dest], blocksize, frags[dest])
    ensures ok <==> HasPlan(isa.f, Rows(gen), k, m, l, miss, dest)
  {
    hide *;
    StripeParts(isa.f, Rows(gen), k, m, l, blocksize, data, parity, frags, miss);
    RepairableMeans(k, m, l, miss, dest);
    HasPlanMeans(isa.f, Rows(gen), k, m, l, miss, dest);
    if dest < k {
      GroupsTileOf(k, l, dest);
      var localGroup := LocalGroupForData(k, l, dest);
      GroupsTile(k, l, dest, localGroup);
      InGroupMeans(k, l, localGroup, dest);
      var lo, hi := LocalGroupDataLower(k, l, localGroup), LocalGroupDataUpper(k, l, localGroup);
      var missingLocal := GroupLost(flags, lo, hi, dest, flags[k + m - l + localGroup]);
      GroupLostMeans(k, m, l, localGroup, dest, lo, hi, flags, miss, missingLocal);
      if !missingLocal {
        ok, row, avail := PlanFromGroup(isa, gen, data, parity, k, m, l, flags, dest, localGroup, lo, hi, blocksize, frags, miss);
        return;
      }
    }
    if dest >= k + m - l {
      var localGroup := dest - (k + m - l);
      GroupsTile(k, l, 0, localGroup);
      var lo, hi := LocalGroupDataLower(k, l, localGroup), LocalGroupDataUpper(k, l, localGroup);
      var missingLocal := GroupLost(flags, lo, hi, dest, false);
      GroupLostMeans(k, m, l, localGroup, dest, lo, hi, flags, miss, missingLocal);
      if !missingLocal {
        ok, row, avail := PlanLocalParity(isa, gen, data, parity, k, m, l, flags, dest, localGroup, lo, hi, blocksize, frags, miss);
        return;
      }
    }
    ok, row, avail := PlanGeneral(isa, gen, data, parity, k, m, l, flags, dest, blocksize, frags, miss);
  }

  /** Rebuilds the one fragment and writes no other; -1, and nothing written, if the rows are not found or not invertible. */
  method LrcReconstructOne(isa: IsaL, gen: array2<bv8>, data: seq<array<bv8>>, parity: seq<array<bv8>>, k: nat, m: nat, l: nat,
      missing: seq<int>, dest: nat, blocksize: nat, ghost frags: seq<seq<bv8>>) returns (ret: int)
    requires Contract(isa) && gen.Length0 == k + m && gen.Length1 == k && MissingList(missing, k + m) && 0 < l <= k && l <= m
    requires LrcStripe(isa.f, Rows(gen), k, m, l, blocksize, data, parity, frags, Missing(missing))
    requires dest < k + m && dest in Missing(missing) && k + m == |data| + |parity| == |frags|
    modifies (data + parity)[dest]
    ensures ret == if HasPlan(isa.f, old(Rows(gen)), k, m, l, Missing(missing), dest) then 0 else -1
    ensures IsLrcGenerator(isa.f, old(Rows(gen)), k, m, l) ==>
      (ret == 0 <==> LocallyRepairable(k, m, l, Missing(missing), dest) || Solvable(isa.f, old(Rows(gen)), k, m, l, Missing(missing)))
    ensures ret == 0 ==> (data + parity)[dest][..] == frags[dest]
    ensures ret != 0 ==> (data + parity)[dest][..] == old((data + parity)[dest][..])
    ensures IsLrcGenerator(isa.f, old(Rows(gen)), k, m, l) && |Missing(missing)| <= m - l + 1 ==> ret == 0
  {
    hide *;
    StripeParts(isa.f, Rows(gen), k, m, l, blocksize, data, parity, frags, Missing(missing));
    MissingCard(missing, k + m);
    if IsLrcGenerator(isa.f, Rows(gen), k, m, l) {
      GeneratorPlan(isa.f, Rows(gen), k, m, l, Missing(missing), dest);
      if |Missing(missing)| <= m - l + 1 { FewLossesSolvable(isa.f, Rows(gen), k, m, l, Missing(missing)); }
    }
    SizeOf(data, parity, dest, blocksize);
    assert |data| == k && |parity| == m;
    var flags, numMissing := MarkMissing(missing, k + m);
    var ok, row, avail := Plan(isa, gen, data, parity, k, m, l, flags, dest, blocksize, frags, Missing(missing));
    if !ok {
      return -1;
    }
    var reconstructBuf := if dest < k then data[dest] else parity[dest - k];
    assert reconstructBuf == (data + parity)[dest];
    PlansParts(isa.f, row, avail, reconstructBuf, blocksize, frags[dest]);
    WriteRow(isa.f, row, avail, reconstructBuf, blocksize);
    ret := 0;
  }

  lemma PlansParts(f: Field<bv8>, row: seq<bv8>, avail: seq<array<bv8>>, to: array<bv8>, blocksize: nat, frag: seq<bv8>)
    requires Plans(f, row, avail, to, blocksize, frag)
    ensures |row| == |avail| && AllSized(avail, blocksize) && to !in avail
    ensures forall i :: 0 <= i < |avail| ==> |Contents(avail)[i]| == blocksize
    ensures Combination(f, row, Contents(avail), blocksize) == frag
  {
  }
}
