/** Signatures commute with the exclusive or codes: a parity's signature is the parity of the signatures. */
module ParitySignatures {
  import opened Bytes
  import opened Bitmaps
  import opened Galois16
  import opened Regions
  import opened XorCode
  import opened Horner
  import opened AlgSig
  import opened AlgSigWords

  /** The signature of the exclusive or of two buffers is the exclusive or of their signatures. */
  lemma XorSignature8(times: bv8 -> bv8, x: seq<bv8>, y: seq<bv8>, z: seq<bv8>)
    requires Linear(Xor8(), times) && |x| == |y| == |z| && forall i :: 0 <= i < |x| ==> z[i] == XorByte(x[i], y[i])
    ensures Component8(times, z) == XorByte(Component8(times, x), Component8(times, y))
  {
    hide XorByte, Linear, Eval;
    Xor8IsXor();
    EvalAdd(Xor8(), times, x, y, z);
  }

  lemma XorSignature16(times: bv16 -> bv16, x: seq<bv8>, y: seq<bv8>, z: seq<bv8>)
    requires Linear(Xor16(), times) && |x| == |y| == |z| && forall i :: 0 <= i < |x| ==> z[i] == XorByte(x[i], y[i])
    ensures Component16(times, Words(z)) == Xor(Component16(times, Words(x)), Component16(times, Words(y)))
  {
    hide Xor, XorByte, Linear, Eval, MakeWord;
    Xor16IsXor();
    forall i | 0 <= i < |Words(z)| ensures Words(z)[i] == Xor(Words(x)[i], Words(y)[i]) { XorWordOf(x, y, z, i); }
    EvalAdd(Xor16(), times, Words(x), Words(y), Words(z));
  }

  lemma XorWordOf(x: seq<bv8>, y: seq<bv8>, z: seq<bv8>, i: nat)
    requires |x| == |y| == |z| && 2 * i < |x| && forall i :: 0 <= i < |x| ==> z[i] == XorByte(x[i], y[i])
    ensures WordOf(z, i) == Xor(WordOf(x, i), WordOf(y, i))
  {
    hide Xor, XorByte, MakeWord;
    XorByteZero(0);
    if 2 * i + 1 < |x| {
      WordXor(x[2 * i], x[2 * i + 1], y[2 * i], y[2 * i + 1]);
    } else {
      WordXor(x[2 * i], 0, y[2 * i], 0);
    }
  }

  /** The signature components of buffers. */
  ghost function Signatures8(times: bv8 -> bv8, d: seq<seq<bv8>>): (s: seq<bv8>)
    ensures |s| == |d| && forall i :: 0 <= i < |d| ==> s[i] == Component8(times, d[i])
  {
    seq(|d|, i requires 0 <= i < |d| => Component8(times, d[i]))
  }

  ghost function Signatures16(times: bv16 -> bv16, d: seq<seq<bv8>>): (s: seq<bv16>)
    ensures |s| == |d| && forall i :: 0 <= i < |d| ==> s[i] == Component16(times, Words(d[i]))
  {
    seq(|d|, i requires 0 <= i < |d| => Component16(times, Words(d[i])))
  }

  /** The exclusive or of the first n words that the bitmap names. */
  ghost function XorRowWords(bm: bv32, col: seq<bv16>, n: nat): bv16
    requires n <= |col|
  {
    if n == 0 then 0 else Xor(XorRowWords(bm, col, n - 1), if Bit(bm, n - 1) then col[n - 1] else 0)
  }

  /** Adding named buffers to a buffer adds their signatures. */
  lemma {:induction false} AddedSignature8(times: bv8 -> bv8, start: seq<bv8>, bm: bv32, d: seq<seq<bv8>>, n: nat)
    requires Linear(Xor8(), times) && n <= |d| && forall i :: 0 <= i < |d| ==> |d[i]| == |start|
    ensures Component8(times, Added(start, bm, d, n)) == XorByte(Component8(times, start), XorRow(bm, Signatures8(times, d), n))
  {
    hide XorByte, Linear, Component8, Bit, Added;
    var c := Component8(times, start);
    if n == 0 {
      AddedNone(start, bm, d);
      XorByteZero(c);
    } else {
      AddedSignature8(times, start, bm, d, n - 1);
      AddedStep(start, bm, d, n - 1);
      var row := XorRow(bm, Signatures8(times, d), n - 1);
      if Bit(bm, n - 1) {
        XorSignature8(times, Added(start, bm, d, n - 1), d[n - 1], Added(start, bm, d, n));
        XorByteAssoc(c, row, Component8(times, d[n - 1]));
      } else {
        XorByteZero(row);
      }
    }
  }

  lemma {:induction false} AddedSignature16(times: bv16 -> bv16, start: seq<bv8>, bm: bv32, d: seq<seq<bv8>>, n: nat)
    requires Linear(Xor16(), times) && n <= |d| && forall i :: 0 <= i < |d| ==> |d[i]| == |start|
    ensures Component16(times, Words(Added(start, bm, d, n))) ==
      Xor(Component16(times, Words(start)), XorRowWords(bm, Signatures16(times, d), n))
  {
    hide XorByte, Xor, Linear, Component16, Words, Bit, Added;
    var c := Component16(times, Words(start));
    if n == 0 {
      AddedNone(start, bm, d);
      XorZero(c);
    } else {
      AddedSignature16(times, start, bm, d, n - 1);
      AddedStep(start, bm, d, n - 1);
      var row := XorRowWords(bm, Signatures16(times, d), n - 1);
      if Bit(bm, n - 1) {
        XorSignature16(times, Added(start, bm, d, n - 1), d[n - 1], Added(start, bm, d, n));
        XorAssoc(c, row, Component16(times, Words(d[n - 1])));
      } else {
        XorZero(row);
      }
    }
  }

  /** In a codeword each parity's signature is what the parity's bitmap makes of the data signatures. */
  lemma CodewordSignatures8(times: bv8 -> bv8, c: XorCode, blocksize: nat, frags: seq<seq<bv8>>, j: nat)
    requires Linear(Xor8(), times) && IsXorCodeword(c, blocksize, frags) && j < c.m
    ensures Component8(times, frags[c.k + j]) == XorRow(c.parityBms[j], Signatures8(times, frags[..c.k]), c.k)
  {
    hide XorByte, Linear, Component8, XorRow, Bit, Added, ParityOf;
    var zero, d := ZeroBlock(blocksize), frags[..c.k];
    AddedIsParity(zero, c.parityBms[j], d);
    AddedSignature8(times, zero, c.parityBms[j], d, c.k);
    XorByteZero(0);
    XorSignature8(times, zero, zero, zero);
    XorByteZero(Component8(times, zero));
    XorByteZero(XorRow(c.parityBms[j], Signatures8(times, d), c.k));
  }

  lemma CodewordSignatures16(times: bv16 -> bv16, c: XorCode, blocksize: nat, frags: seq<seq<bv8>>, j: nat)
    requires Linear(Xor16(), times) && IsXorCodeword(c, blocksize, frags) && j < c.m
    ensures Component16(times, Words(frags[c.k + j])) == XorRowWords(c.parityBms[j], Signatures16(times, frags[..c.k]), c.k)
  {
    hide XorByte, Xor, Linear, Component16, Words, XorRowWords, Bit, Added, ParityOf;
    var zero, d := ZeroBlock(blocksize), frags[..c.k];
    AddedIsParity(zero, c.parityBms[j], d);
    AddedSignature16(times, zero, c.parityBms[j], d, c.k);
    XorByteZero(0);
    XorSignature16(times, zero, zero, zero);
    XorZero(Component16(times, Words(zero)));
    XorZero(XorRowWords(c.parityBms[j], Signatures16(times, d), c.k));
  }
}
