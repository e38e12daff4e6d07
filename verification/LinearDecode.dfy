/** Rebuilding lost fragments of a linear code from any k fragments whose rows were inverted. */
module LinearDecode {
  import opened Fields
  import opened Vectors
  import opened Mds
  import opened MatrixOps
  import opened GaussJordan
  import opened Systematic
  import opened Erasures
  import opened Decoding
  import opened Regions
  import opened IsaL
  import opened InverseRows

  /** Every fragment is the combination of the first k that its row says. */
  ghost predicate IsLinearCode(f: Field<bv8>, rows: Matrix<bv8>, k: nat, blocksize: nat, frags: seq<seq<bv8>>) {
    && k <= |rows| == |frags| && Shape(rows, |rows|, k)
    && (forall i :: 0 <= i < |frags| ==> |frags[i]| == blocksize)
    && (forall i :: 0 <= i < |frags| ==> frags[i] == Combination(f, rows[i], frags[..k], blocksize))
  }

  /** Byte x of the selected fragments is the selected rows applied to byte x of the data. */
  lemma SelectedBytes(f: Field<bv8>, rows: Matrix<bv8>, k: nat, blocksize: nat, frags: seq<seq<bv8>>, sel: seq<nat>, x: nat)
    requires IsLinearCode(f, rows, k, blocksize, frags) && Indices(sel, |frags|) && |sel| == k && x < blocksize
    ensures ByteColumn(Select(frags, sel), x) == Apply(f, Select(rows, sel), ByteColumn(frags[..k], x))
  {
    var a, b := ByteColumn(Select(frags, sel), x), Apply(f, Select(rows, sel), ByteColumn(frags[..k], x));
    forall j | 0 <= j < k ensures a[j] == b[j] {
      assert frags[sel[j]] == Combination(f, rows[sel[j]], frags[..k], blocksize);
    }
  }

  /** A row of the inverse gives back a data fragment. */
  lemma RecoverData(f: Field<bv8>, rows: Matrix<bv8>, k: nat, blocksize: nat, frags: seq<seq<bv8>>, sel: seq<nat>, inv: Matrix<bv8>, i: nat)
    requires IsLinearCode(f, rows, k, blocksize, frags) && Indices(sel, |frags|) && |sel| == k && i < k
    requires Inverts(f, inv, Select(rows, sel), k)
    ensures Combination(f, inv[i], Select(frags, sel), blocksize) == frags[i]
  {
    var c := Combination(f, inv[i], Select(frags, sel), blocksize);
    forall x | 0 <= x < blocksize ensures c[x] == frags[i][x] {
      var d := ByteColumn(frags[..k], x);
      SelectedBytes(f, rows, k, blocksize, frags, sel, x);
      assert Apply(f, inv, Apply(f, Select(rows, sel), d))[i] == d[i];
    }
  }

  /** A form equal to a fragment's row gives that fragment. */
  lemma RecoverForm(f: Field<bv8>, rows: Matrix<bv8>, k: nat, blocksize: nat, frags: seq<seq<bv8>>, sel: seq<nat>, p: seq<bv8>, i: nat)
    requires IsLinearCode(f, rows, k, blocksize, frags) && Indices(sel, |frags|) && |sel| == k && i < |frags|
    requires SameForm(f, Select(rows, sel), p, rows[i], k)
    ensures Combination(f, p, Select(frags, sel), blocksize) == frags[i]
  {
    var c := Combination(f, p, Select(frags, sel), blocksize);
    assert frags[i] == Combination(f, rows[i], frags[..k], blocksize);
    forall x | 0 <= x < blocksize ensures c[x] == frags[i][x] {
      SelectedBytes(f, rows, k, blocksize, frags, sel, x);
    }
  }

  /** The selection takes the present data fragments first, in order. */
  ghost predicate DataFirst(sel: seq<nat>, lost: seq<bool>) {
    && |sel| == |lost|
    && forall i: nat {:trigger PresentCount(lost, i)} :: i < |lost| && !lost[i] ==> PresentCount(lost, i) < |sel| && sel[PresentCount(lost, i)] == i
  }

  lemma SelectsPresentData(f: Field<bv8>, rows: Matrix<bv8>, k: nat, sel: seq<nat>, lost: seq<bool>)
    requires k <= |rows| && Shape(rows, |rows|, k) && IdentityOnTop(f, rows, k, k) && Indices(sel, |rows|)
    requires DataFirst(sel, lost) && |lost| == k
    ensures SelectsPresent(f, Select(rows, sel), lost, k)
  {
  }

  /** The row computed for lost fragment i rebuilds it from the selected fragments. */
  lemma TargetRebuilds(f: Field<bv8>, rows: Matrix<bv8>, enc: Matrix<bv8>, k: nat, blocksize: nat, frags: seq<seq<bv8>>, sel: seq<nat>,
      inv: Matrix<bv8>, lost: seq<bool>, i: nat)
    requires IsField(f) && IsLinearCode(f, rows, k, blocksize, frags) && Indices(sel, |frags|) && |sel| == k
    requires Inverts(f, inv, Select(rows, sel), k) && IdentityOnTop(f, rows, k, k) && |lost| == k && DataFirst(sel, lost)
    requires i < |enc| <= |rows| && enc[i] == rows[i]
    ensures Shape(inv, k, k) && Combination(f, TargetRow(f, inv, enc, lost, i, 0, k), Select(frags, sel), blocksize) == frags[i]
  {
    hide IsField, DataFirst, IdentityOnTop, SameForm, Combination, FormRow, IsLinearCode, Inverts, SelectsPresent, Masked;
    LinearShape(f, rows, k, blocksize, frags);
    InvertsShape(f, inv, Select(rows, sel), k);
    if i < k {
      RecoverData(f, rows, k, blocksize, frags, sel, inv, i);
    } else {
      var g := enc[i];
      assert g[0..0 + k] == g;
      SelectsPresentData(f, rows, k, sel, lost);
      FormRowSame(f, Select(rows, sel), g, lost, inv, k, k);
      MaskAll(f, g);
      RecoverForm(f, rows, k, blocksize, frags, sel, FormRow(f, g, lost, inv, k, k), i);
    }
  }

  lemma LinearShape(f: Field<bv8>, rows: Matrix<bv8>, k: nat, blocksize: nat, frags: seq<seq<bv8>>)
    requires IsLinearCode(f, rows, k, blocksize, frags)
    ensures k <= |rows| == |frags| && Shape(rows, |rows|, k) && forall i :: 0 <= i < |frags| ==> |frags[i]| == blocksize
  {
  }

  lemma LinearByte(f: Field<bv8>, rows: Matrix<bv8>, k: nat, blocksize: nat, frags: seq<seq<bv8>>, i: nat, x: nat)
    requires IsLinearCode(f, rows, k, blocksize, frags) && i < |frags| && x < blocksize
    ensures frags[i][x] == Dot(f, rows[i], ByteColumn(frags[..k], x), k)
  {
    assert frags[i] == Combination(f, rows[i], frags[..k], blocksize);
  }

  // ----- writing the lost buffers

  /** The buffers of the lost fragments, in increasing order. */
  ghost function LostBuffers(data: seq<array<bv8>>, parity: seq<array<bv8>>, flags: seq<bool>): (s: seq<array<bv8>>)
    requires |flags| == |data| + |parity|
    ensures |s| == |LostBelow(flags, |flags|)|
    ensures forall t :: 0 <= t < |s| ==> s[t] == (data + parity)[LostBelow(flags, |flags|)[t]]
  {
    Select(data + parity, LostBelow(flags, |flags|))
  }

  method GetDecodedElements(data: seq<array<bv8>>, parity: seq<array<bv8>>, flags: seq<bool>, k: nat) returns (elements: seq<array<bv8>>)
    requires |flags| == |data| + |parity| && k == |data|
    ensures elements == LostBuffers(data, parity, flags)
  {
    hide LostBelow;
    elements := [];
    LostBelowStart(flags);
    for i := 0 to |flags|
      invariant elements == Select(data + parity, LostBelow(flags, i))
    {
      LostBelowStep(flags, i);
      if flags[i] {
        SelectSnoc(data + parity, LostBelow(flags, i), i);
        elements := elements + [if i < k then data[i] else parity[i - k]];
      }
    }
  }

  lemma LostBelowStart(flags: seq<bool>)
    ensures LostBelow(flags, 0) == []
  {
  }

  lemma LostBuffersDistinct(data: seq<array<bv8>>, parity: seq<array<bv8>>, flags: seq<bool>, k: nat, m: nat, blocksize: nat)
    requires Stripe(data, parity, k, m, blocksize) && |flags| == k + m
    ensures Distinct(LostBuffers(data, parity, flags)) && AllSized(LostBuffers(data, parity, flags), blocksize)
  {
    hide LostBelow;
    var s, l := LostBuffers(data, parity, flags), LostBelow(flags, k + m);
    forall i, j | 0 <= i < j < |s| ensures s[i] != s[j] {
      assert l[i] < l[j];
    }
  }

  /** What the decoder has in hand: k selected fragments of a code, their rows inverted. */
  ghost predicate Decodable(f: Field<bv8>, rows: Matrix<bv8>, k: nat, blocksize: nat, frags: seq<seq<bv8>>, sel: seq<nat>, inv: Matrix<bv8>, lost: seq<bool>) {
    && IsByteField(f) && IsLinearCode(f, rows, k, blocksize, frags) && IdentityOnTop(f, rows, k, k)
    && Indices(sel, |frags|) && |sel| == k && |lost| == k && DataFirst(sel, lost)
    && Inverts(f, inv, Select(rows, sel), k)
  }

  lemma RowRebuilds(f: Field<bv8>, rows: Matrix<bv8>, enc: Matrix<bv8>, k: nat, m: nat, blocksize: nat, frags: seq<seq<bv8>>, sel: seq<nat>,
      inv: Matrix<bv8>, flags: seq<bool>, inverseRows: Matrix<bv8>, t: nat)
    requires |flags| == k + m && Decodable(f, rows, k, blocksize, frags, sel, inv, flags[..k])
    requires |enc| == k + m <= |rows| && forall i :: 0 <= i < k + m ==> enc[i] == rows[i]
    requires Shape(inv, k, k) && Filled(f, inverseRows, flags, inv, enc, 0, k, k + m) && t < |LostBelow(flags, k + m)|
    ensures t < |inverseRows| && |inverseRows[t]| == k
    ensures Combination(f, inverseRows[t], Select(frags, sel), blocksize) == frags[LostBelow(flags, k + m)[t]]
  {
    hide LostBelow, TargetRow, DataFirst, IdentityOnTop, IsLinearCode, Inverts, Combination;
    assert FilledAt(f, inverseRows, flags, inv, enc, 0, k, k + m, t);
    assert flags[0..0 + k] == flags[..k];
    LinearShape(f, rows, k, blocksize, frags);
    TargetRebuilds(f, rows, enc, k, blocksize, frags, sel, inv, flags[..k], LostBelow(flags, k + m)[t]);
  }

  /** Computes the rows of the lost fragments and writes their buffers. */
  method RebuildLost(f: Field<bv8>, inv: Matrix<bv8>, gen: array2<bv8>, flags: seq<bool>, avail: seq<array<bv8>>,
      data: seq<array<bv8>>, parity: seq<array<bv8>>, k: nat, m: nat, blocksize: nat,
      ghost rows: Matrix<bv8>, ghost frags: seq<seq<bv8>>, ghost sel: seq<nat>)
    requires Stripe(data, parity, k, m, blocksize) && |flags| == k + m && gen.Length0 == k + m && gen.Length1 == k
    requires Decodable(f, rows, k, blocksize, frags, sel, inv, flags[..k])
    requires k + m <= |rows| && forall i :: 0 <= i < k + m ==> Rows(gen)[i] == rows[i]
    requires |avail| == k && AllSized(avail, blocksize) && Contents(avail) == Select(frags, sel)
    requires forall i, j :: 0 <= i < k + m && flags[i] && 0 <= j < k ==> (data + parity)[i] != avail[j]
    modifies LostBuffers(data, parity, flags)
    ensures forall i :: 0 <= i < k + m && flags[i] ==> (data + parity)[i][..] == frags[i]
    ensures forall i :: 0 <= i < k + m && !flags[i] ==> (data + parity)[i][..] == old((data + parity)[i][..])
  {
    hide LostBelow, LostBuffers, Filled, DataFirst, IdentityOnTop, IsLinearCode, Inverts, Combination, IsByteField, FormRow, Stripe;
    LinearShape(f, rows, k, blocksize, frags);
    InvertsShape(f, inv, Select(rows, sel), k);
    assert |data| == k && |parity| == m by { StripeShape(data, parity, k, m, blocksize); }
    ghost var enc := Rows(gen);
    var inverseRows := GetLrcInverseRows(f, inv, gen, flags, k, m, 0, k);
    var elements := GetDecodedElements(data, parity, flags, k);
    LostBuffersDistinct(data, parity, flags, k, m, blocksize);
    PresentNotLost(data, parity, flags, k, m, blocksize);
    ghost var ir := Rows(inverseRows);
    assert Shape(ir, |elements|, k);
    EcEncodeData(f, blocksize, Rows(inverseRows), avail, elements);
    forall i | 0 <= i < k + m && flags[i] ensures (data + parity)[i][..] == frags[i] {
      LostBelowHas(flags, k + m, i);
      var t := |LostBelow(flags, i)|;
      RowRebuilds(f, rows, enc, k, m, blocksize, frags, sel, inv, flags, ir, t);
      assert elements[t] == (data + parity)[i];
    }
  }

  lemma PresentNotLost(data: seq<array<bv8>>, parity: seq<array<bv8>>, flags: seq<bool>, k: nat, m: nat, blocksize: nat)
    requires Stripe(data, parity, k, m, blocksize) && |flags| == k + m
    ensures forall i :: 0 <= i < k + m && !flags[i] ==> (data + parity)[i] !in LostBuffers(data, parity, flags)
  {
    hide LostBelow;
    var s, l := LostBuffers(data, parity, flags), LostBelow(flags, k + m);
    forall i, t | 0 <= i < k + m && !flags[i] && 0 <= t < |s| ensures (data + parity)[i] != s[t] {
      assert l[t] != i;
    }
  }

  lemma StripeShape(data: seq<array<bv8>>, parity: seq<array<bv8>>, k: nat, m: nat, blocksize: nat)
    requires Stripe(data, parity, k, m, blocksize)
    ensures |data| == k && |parity| == m && AllSized(data + parity, blocksize)
  {
  }

  // ----- the state of the stripe

  /** The buffers of the present fragments hold what was stored. */
  ghost predicate PresentHeld(data: seq<array<bv8>>, parity: seq<array<bv8>>, frags: seq<seq<bv8>>, miss: set<nat>)
    requires |frags| == |data| + |parity|
    reads data, parity
  {
    forall i :: 0 <= i < |frags| && i !in miss ==> (data + parity)[i][..] == frags[i]
  }

  lemma SeparateBuffers(data: seq<array<bv8>>, parity: seq<array<bv8>>, k: nat, m: nat, blocksize: nat, i: nat, j: nat)
    requires Stripe(data, parity, k, m, blocksize) && i < k + m && j < k + m && i != j
    ensures (data + parity)[i] != (data + parity)[j]
  {
  }

  lemma {:induction false} PresentCountIs(flags: seq<bool>, miss: set<nat>, lost: seq<bool>, n: nat)
    requires n <= |lost| <= |flags| && lost == flags[..|lost|] && Marked(flags, miss)
    ensures PresentCount(lost, n) == |Available(miss, n)|
  {
    if n > 0 { PresentCountIs(flags, miss, lost, n - 1); }
  }

  ghost predicate AllRestored(data: seq<array<bv8>>, parity: seq<array<bv8>>, frags: seq<seq<bv8>>)
    reads data, parity
  {
    Contents(data) + Contents(parity) == frags
  }

  lemma LostSetHas(data: seq<array<bv8>>, parity: seq<array<bv8>>, flags: seq<bool>, miss: set<nat>)
    requires |flags| == |data| + |parity| && Marked(flags, miss)
    ensures forall t :: 0 <= t < |LostBuffers(data, parity, flags)| ==> LostBuffers(data, parity, flags)[t] in LostSet(data, parity, miss)
  {
    hide LostBelow;
    forall t | 0 <= t < |LostBuffers(data, parity, flags)| ensures LostBuffers(data, parity, flags)[t] in LostSet(data, parity, miss) {
      var i := LostBelow(flags, |flags|)[t];
      assert i in miss && (data + parity)[i] == LostBuffers(data, parity, flags)[t];
    }
  }

  lemma RestoredAll(data: seq<array<bv8>>, parity: seq<array<bv8>>, flags: seq<bool>, frags: seq<seq<bv8>>, ext: seq<seq<bv8>>)
    requires |frags| == |data| + |parity| == |flags| <= |ext| && ext[..|flags|] == frags
    requires forall i :: 0 <= i < |flags| && flags[i] ==> (data + parity)[i][..] == ext[i]
    requires forall i :: 0 <= i < |flags| && !flags[i] ==> (data + parity)[i][..] == frags[i]
    ensures AllRestored(data, parity, frags)
  {
    var c := Contents(data) + Contents(parity);
    forall i | 0 <= i < |flags| ensures c[i] == frags[i] {
      assert c[i] == (data + parity)[i][..] && ext[..|flags|][i] == ext[i];
    }
  }

  lemma DecodableField(f: Field<bv8>, rows: Matrix<bv8>, k: nat, blocksize: nat, frags: seq<seq<bv8>>, sel: seq<nat>, inv: Matrix<bv8>, lost: seq<bool>)
    requires Decodable(f, rows, k, blocksize, frags, sel, inv, lost)
    ensures IsByteField(f)
  {
    hide IsByteField;
  }

  lemma DecodableSizes(f: Field<bv8>, rows: Matrix<bv8>, k: nat, blocksize: nat, frags: seq<seq<bv8>>, sel: seq<nat>, inv: Matrix<bv8>, lost: seq<bool>)
    requires Decodable(f, rows, k, blocksize, frags, sel, inv, lost)
    ensures (forall i :: 0 <= i < |frags| ==> |frags[i]| == blocksize) && |sel| == k && |rows| == |frags| && Shape(inv, k, k)
  {
  }

  /** The position of the fragment's row among the rows of the lost ones. */
  method FindRow(flags: seq<bool>, dest: nat) returns (row: nat)
    requires dest < |flags| && flags[dest]
    ensures row == |LostBelow(flags, dest)| < |LostBelow(flags, |flags|)|
  {
    hide LostBelow;
    row := 0;
    var i := 0;
    LostBelowStart(flags);
    while i != dest
      invariant 0 <= i <= dest && row == |LostBelow(flags, i)|
      decreases dest - i
    {
      LostBelowStep(flags, i);
      if flags[i] {
        row := row + 1;
      }
      i := i + 1;
    }
    LostBelowHas(flags, |flags|, dest);
  }

  /** One combination of the available buffers, written to the buffer of the fragment. */
  method WriteRow(f: Field<bv8>, row: seq<bv8>, avail: seq<array<bv8>>, to: array<bv8>, blocksize: nat)
    requires |row| == |avail| && AllSized(avail, blocksize) && to.Length == blocksize && to !in avail
    modifies to
    ensures to[..] == Combination(f, row, old(Contents(avail)), blocksize)
  {
    hide Combination;
    var rows, dest := [row], [to];
    EcEncodeData(f, blocksize, rows, avail, dest);
    assert dest[0][..] == Combination(f, rows[0], Contents(avail), blocksize);
  }
}
