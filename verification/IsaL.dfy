/** What the ISA-L backends expect of the library they load: a field on bytes, matrix inversion, and
    linear combination of buffers. */
module IsaL {
  import opened Fields
  import opened Vectors
  import opened Mds
  import opened Polynomials
  import opened GaussJordan
  import opened Bytes
  import opened Regions

  datatype Inverse = Singular | Inverse(rows: Matrix<bv8>)

  /** gf_mul, in a field record, and gf_invert_matrix, on the matrix and its size. */
  datatype IsaL = IsaL(f: Field<bv8>, invert: (Matrix<bv8>, nat) -> Inverse)

  /** A field whose addition is exclusive or, and in which 2 has order 255. */
  ghost predicate IsByteField(f: Field<bv8>) {
    && IsField(f) && f.zero == 0 && f.one == 1
    && (forall x, y {:trigger f.Add(x, y)} :: f.Add(x, y) == XorByte(x, y))
    && (forall i: nat, j: nat {:trigger Pow(f, 2, i), Pow(f, 2, j)} :: 1 <= i < j <= 255 ==> Pow(f, 2, i) != Pow(f, 2, j))
    && Pow(f, 2, 255) == f.one
  }

  lemma FieldOf(f: Field<bv8>)
    requires IsByteField(f)
    ensures IsField(f)
  {
  }

  /** The result is a two-sided inverse, or the matrix is singular. */
  ghost predicate InvertsOrFails(f: Field<bv8>, rows: Matrix<bv8>, n: nat, r: Inverse) {
    match r
    case Inverse(inv) => Inverts(f, inv, rows, n) && Inverts(f, rows, inv, n)
    case Singular => !TrivialKernel(f, rows, n)
  }

  ghost predicate Contract(isa: IsaL) {
    && IsByteField(isa.f)
    && forall rows: Matrix<bv8>, n: nat {:trigger isa.invert(rows, n)} :: Shape(rows, n, n) ==> InvertsOrFails(isa.f, rows, n, isa.invert(rows, n))
  }

  lemma ContractField(isa: IsaL)
    requires Contract(isa)
    ensures IsByteField(isa.f)
  {
  }

  lemma Invertible(isa: IsaL, rows: Matrix<bv8>, n: nat)
    requires Contract(isa) && Shape(rows, n, n)
    ensures isa.invert(rows, n).Inverse? ==>
      Inverts(isa.f, isa.invert(rows, n).rows, rows, n) && Inverts(isa.f, rows, isa.invert(rows, n).rows, n) && Shape(isa.invert(rows, n).rows, n, n)
    ensures isa.invert(rows, n).Inverse? <==> TrivialKernel(isa.f, rows, n)
  {
    assert InvertsOrFails(isa.f, rows, n, isa.invert(rows, n));
    if isa.invert(rows, n).Inverse? { InvertsTrivialKernel(isa.f, isa.invert(rows, n).rows, rows, n); }
  }

  /** The combination of the buffers with the coefficients of a row. */
  ghost function Combination(f: Field<bv8>, row: seq<bv8>, bufs: seq<seq<bv8>>, blocksize: nat): (r: seq<bv8>)
    requires |row| == |bufs| && forall i :: 0 <= i < |bufs| ==> |bufs[i]| == blocksize
    ensures |r| == blocksize
    ensures forall x :: 0 <= x < blocksize ==> r[x] == Dot(f, row, ByteColumn(bufs, x), |row|)
  {
    seq(blocksize, x requires 0 <= x < blocksize => Dot(f, row, ByteColumn(bufs, x), |row|))
  }

  /** Writes one combination of the sources. */
  method CombineInto(f: Field<bv8>, row: seq<bv8>, src: seq<array<bv8>>, dest: array<bv8>, blocksize: nat)
    requires |row| == |src| && AllSized(src, blocksize) && dest.Length == blocksize && dest !in src
    modifies dest
    ensures dest[..] == Combination(f, row, Contents(src), blocksize)
  {
    ghost var s := Contents(src);
    for x := 0 to blocksize
      invariant Contents(src) == s
      invariant forall y :: 0 <= y < x ==> dest[y] == Dot(f, row, ByteColumn(s, y), |row|)
    {
      var sum := CombineByte(f, row, src, x, s, blocksize);
      dest[x] := sum;
    }
    assert dest[..] == Combination(f, row, s, blocksize);
  }

  lemma ByteColumnOf(src: seq<array<bv8>>, x: nat, blocksize: nat)
    requires AllSized(src, blocksize) && x < blocksize
    ensures forall i :: 0 <= i < |src| ==> |Contents(src)[i]| == blocksize == src[i].Length
    ensures forall i :: 0 <= i < |src| ==> ByteColumn(Contents(src), x)[i] == src[i][x]
  {
  }

  method CombineByte(f: Field<bv8>, row: seq<bv8>, src: seq<array<bv8>>, x: nat, ghost s: seq<seq<bv8>>, blocksize: nat) returns (sum: bv8)
    requires |row| == |src| && AllSized(src, blocksize) && s == Contents(src) && x < blocksize
    ensures sum == Dot(f, row, ByteColumn(s, x), |row|)
  {
    hide *;
    ByteColumnOf(src, x, blocksize);
    sum := f.zero;
    DotUnfold(f, row, ByteColumn(s, x), 0);
    for j := 0 to |src|
      invariant sum == Dot(f, row, ByteColumn(s, x), j)
    {
      DotUnfold(f, row, ByteColumn(s, x), j);
      sum := f.Add(sum, f.Mul(row[j], src[j][x]));
    }
  }

  /** ec_encode_data: each destination is the combination that its row says of the sources. */
  method EcEncodeData(f: Field<bv8>, blocksize: nat, rows: Matrix<bv8>, src: seq<array<bv8>>, dest: seq<array<bv8>>)
    requires Shape(rows, |dest|, |src|) && AllSized(src, blocksize) && AllSized(dest, blocksize)
    requires Distinct(dest) && forall i, j :: 0 <= i < |dest| && 0 <= j < |src| ==> dest[i] != src[j]
    modifies dest
    ensures Contents(src) == old(Contents(src))
    ensures forall t :: 0 <= t < |dest| ==> dest[t][..] == Combination(f, rows[t], Contents(src), blocksize)
  {
    hide Combination;
    ghost var s := Contents(src);
    for t := 0 to |dest|
      invariant Contents(src) == s
      invariant forall u :: 0 <= u < t ==> dest[u][..] == Combination(f, rows[u], s, blocksize)
    {
      CombineInto(f, rows[t], src, dest[t], blocksize);
    }
  }
}
