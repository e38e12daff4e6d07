/** Algebraic signatures over symbols of 16 bits: the buffer is read as little-endian words, the last one padded. */
module AlgSigWords {
  import opened Bytes
  import opened Galois16
  import opened Regions
  import opened Horner
  import opened AlgSig

  /** The i-th word of a buffer; a last odd byte is a word on its own. */
  function WordOf(buf: seq<bv8>, i: nat): bv16
    requires 2 * i < |buf|
  {
    MakeWord(buf[2 * i], if 2 * i + 1 < |buf| then buf[2 * i + 1] else 0)
  }

  function Words(buf: seq<bv8>): (w: seq<bv16>)
    ensures |w| == (|buf| + 1) / 2 && forall i :: 0 <= i < |w| ==> w[i] == WordOf(buf, i)
  {
    seq((|buf| + 1) / 2, i requires 0 <= i < (|buf| + 1) / 2 => WordOf(buf, i))
  }

  /** A full word has its low-order byte first. */
  lemma WordValue(buf: seq<bv8>, i: nat)
    requires 2 * i + 1 < |buf|
    ensures Words(buf)[i] as nat == (buf[2 * i] as nat) + 256 * (buf[2 * i + 1] as nat)
  {
    MakeWordValue(buf[2 * i], buf[2 * i + 1]);
  }

  /** A buffer of odd length is read as if a zero byte came after it. */
  lemma OddIsPadded(buf: seq<bv8>)
    requires |buf| % 2 == 1
    ensures Words(buf) == Words(buf + [0])
  {
    hide MakeWord;
    var w, w' := Words(buf), Words(buf + [0]);
    forall i | 0 <= i < |w| ensures w[i] == w'[i] {}
  }

  lemma Halves(s: bv16)
    ensures Xor(MakeWord(0, HighByte(s)), MakeWord(LowByte(s), 0)) == s
  {
  }

  /** The padded last word is what masking the word there leaves. */
  lemma Masked(lo: bv8, hi: bv8)
    ensures MakeWord(lo, hi) & 0x00ff == MakeWord(lo, 0)
    ensures MakeWord(lo, hi) & 0xffff == MakeWord(lo, hi)
  {
  }

  /** l holds the products of the upper bytes, r those of the lower bytes. */
  ghost predicate Split16(mult: (bv16, bv16) -> bv16, l: array<bv16>, r: array<bv16>, a: bv16)
    reads l, r
  {
    && l.Length == r.Length == 256
    && forall n: bv8 {:trigger ByteKey(n)} :: l[ByteKey(n)] == mult(MakeWord(0, n), a) && r[ByteKey(n)] == mult(MakeWord(n, 0), a)
  }

  method FillSplit16(mult: (bv16, bv16) -> bv16, l: array<bv16>, r: array<bv16>, a: bv16)
    requires l != r && l.Length == r.Length == 256
    modifies l, r
    ensures Split16(mult, l, r, a)
  {
    hide ByteKey, MakeWord;
    for i := 0 to 256
      invariant forall n: bv8 {:trigger ByteKey(n)} :: ByteKey(n) < i ==> l[ByteKey(n)] == mult(MakeWord(0, n), a) && r[ByteKey(n)] == mult(MakeWord(n, 0), a)
    {
      var n := i as bv8;
      ByteKeyOf(i);
      forall x: bv8 {:trigger ByteKey(x)} | ByteKey(x) == i ensures x == n { ByteKeyInjective(x, n); }
      l[i] := mult(MakeWord(0, n), a);
      r[i] := mult(MakeWord(n, 0), a);
    }
  }

  /** Two lookups make a product. */
  method Lookup16(mult: (bv16, bv16) -> bv16, l: array<bv16>, r: array<bv16>, a: bv16, s: bv16) returns (p: bv16)
    requires Split16(mult, l, r, a) && Linear(Xor16(), Times(mult, a))
    ensures p == mult(s, a)
  {
    hide ByteKey, MakeWord, HighByte, LowByte, Xor;
    Halves(s);
    LinearAt(Xor16(), Times(mult, a), MakeWord(0, HighByte(s)), MakeWord(LowByte(s), 0));
    p := Xor(l[ByteKey(HighByte(s))], r[ByteKey(LowByte(s))]);
  }

  /** One step back through the words at point a. */
  method Step16(mult: (bv16, bv16) -> bv16, l: array<bv16>, r: array<bv16>, a: bv16, s: bv16, ghost words: seq<bv16>, i: nat, b: bv16) returns (p: bv16)
    requires Split16(mult, l, r, a) && Linear(Xor16(), Times(mult, a))
    requires i < |words| && b == words[i] && s == Component16(Times(mult, a), words[i + 1..])
    ensures p == Component16(Times(mult, a), words[i..])
  {
    hide Split16, Xor, Eval, Linear;
    NextSymbol(Xor16(), Times(mult, a), words, i);
    var t := Lookup16(mult, l, r, a, s);
    p := Xor(b, t);
  }

  lemma StepByOne16(s: bv16, words: seq<bv16>, i: nat)
    requires i < |words| && s == Component16(ByOne(), words[i + 1..])
    ensures Xor(s, words[i]) == Component16(ByOne(), words[i..])
  {
    hide Xor, Eval;
    NextSymbol(Xor16(), ByOne(), words, i);
    XorComm(s, words[i]);
  }

  lemma StartComponent16(times: bv16 -> bv16, words: seq<bv16>)
    requires Linear(Xor16(), times)
    ensures words == [] ==> Component16(times, words) == 0
    ensures words != [] ==> Component16(times, words[|words| - 1..]) == words[|words| - 1]
  {
    hide Xor;
    Xor16IsXor();
    if words != [] { LastSymbol(Xor16(), times, words); }
  }

  lemma NoBytesNoWord()
    ensures MakeWord(0, 0) == 0
  {
  }

  /** The last word: after an odd length the word read there holds the byte beyond the buffer, which the mask drops. */
  method LastWord(buf: seq<bv8>, beyond: bv8) returns (adjLen: int, last: bv16)
    requires buf != []
    ensures adjLen == |Words(buf)| > 0 && last == Words(buf)[adjLen - 1]
  {
    hide MakeWord;
    var bitMask: bv16 := 0xffff;
    adjLen := |buf| / 2;
    if |buf| % 2 == 1 {
      bitMask := 0x00ff;
      adjLen := adjLen + 1;
    }
    var lo, hi := buf[2 * adjLen - 2], if |buf| % 2 == 1 then beyond else buf[2 * adjLen - 1];
    Masked(lo, hi);
    last := MakeWord(lo, hi) & bitMask;
  }

  class AlgSig16 {
    const mult: (bv16, bv16) -> bv16
    const sigLen: nat
    const tbl1L: array<bv16>
    const tbl1R: array<bv16>
    const tbl2L: array<bv16>
    const tbl2R: array<bv16>
    const tbl3L: array<bv16>
    const tbl3R: array<bv16>

    /** A 32-bit signature needs the tables of the point 2; a 64-bit one those of 4 and 8 as well. */
    ghost predicate Valid()
      reads tbl1L, tbl1R, tbl2L, tbl2R, tbl3L, tbl3R
    {
      && (sigLen == 32 || sigLen == 64)
      && Split16(mult, tbl1L, tbl1R, 2) && Linear(Xor16(), Times(mult, 2))
      && (sigLen == 64 ==> Split16(mult, tbl2L, tbl2R, 4) && Linear(Xor16(), Times(mult, 4)))
      && (sigLen == 64 ==> Split16(mult, tbl3L, tbl3R, 8) && Linear(Xor16(), Times(mult, 8)))
    }

    constructor (mult: (bv16, bv16) -> bv16, sigLen: nat)
      requires sigLen == 32 || sigLen == 64
      requires Linear(Xor16(), Times(mult, 2))
      requires sigLen == 64 ==> Linear(Xor16(), Times(mult, 4)) && Linear(Xor16(), Times(mult, 8))
      ensures Valid() && this.mult == mult && this.sigLen == sigLen
      ensures fresh(tbl1L) && fresh(tbl1R) && fresh(tbl2L) && fresh(tbl2R) && fresh(tbl3L) && fresh(tbl3R)
    {
      hide Split16, Linear;
      this.mult := mult;
      this.sigLen := sigLen;
      var more := if sigLen == 64 then 256 else 0;
      var l1, r1, l2, r2, l3, r3 := new bv16[256], new bv16[256], new bv16[more], new bv16[more], new bv16[more], new bv16[more];
      FillSplit16(mult, l1, r1, 2);
      if sigLen == 64 {
        FillSplit16(mult, l2, r2, 4);
        FillSplit16(mult, l3, r3, 8);
      }
      tbl1L, tbl1R, tbl2L, tbl2R, tbl3L, tbl3R := l1, r1, l2, r2, l3, r3;
    }

    /** The words' values at 1 and 2. */
    method Words32(buf: seq<bv8>, beyond: bv8) returns (s0: bv16, s1: bv16)
      requires Valid() && buf != []
      ensures s0 == Component16(ByOne(), Words(buf)) && s1 == Component16(Times(mult, 2), Words(buf))
    {
      hide Split16, Xor, Component16, Linear, WordOf;
      ghost var words := Words(buf);
      ByOneLinear(Xor16());
      StartComponent16(ByOne(), words);
      StartComponent16(Times(mult, 2), words);
      var adjLen, last := LastWord(buf, beyond);
      s0, s1 := last, last;
      var i := adjLen - 2;
      while i >= 0
        invariant -1 <= i <= adjLen - 2
        invariant s0 == Component16(ByOne(), words[i + 1..]) && s1 == Component16(Times(mult, 2), words[i + 1..])
      {
        var b := WordOf(buf, i);
        StepByOne16(s0, words, i);
        s1 := Step16(mult, tbl1L, tbl1R, 2, s1, words, i, b);
        s0 := Xor(s0, b);
        i := i - 1;
      }
      assert words[0..] == words;
    }

    /** The words' values at 1, 2, 4 and 8. */
    method Words64(buf: seq<bv8>, beyond: bv8) returns (s0: bv16, s1: bv16, s2: bv16, s3: bv16)
      requires Valid() && sigLen == 64 && buf != []
      ensures s0 == Component16(ByOne(), Words(buf)) && s1 == Component16(Times(mult, 2), Words(buf))
      ensures s2 == Component16(Times(mult, 4), Words(buf)) && s3 == Component16(Times(mult, 8), Words(buf))
    {
      hide Split16, Xor, Component16, Linear, WordOf;
      ghost var words := Words(buf);
      ByOneLinear(Xor16());
      StartComponent16(ByOne(), words);
      StartComponent16(Times(mult, 2), words);
      StartComponent16(Times(mult, 4), words);
      StartComponent16(Times(mult, 8), words);
      var adjLen, last := LastWord(buf, beyond);
      s0, s1, s2, s3 := last, last, last, last;
      var i := adjLen - 2;
      while i >= 0
        invariant -1 <= i <= adjLen - 2
        invariant s0 == Component16(ByOne(), words[i + 1..]) && s1 == Component16(Times(mult, 2), words[i + 1..])
        invariant s2 == Component16(Times(mult, 4), words[i + 1..]) && s3 == Component16(Times(mult, 8), words[i + 1..])
      {
        var b := WordOf(buf, i);
        StepByOne16(s0, words, i);
        s1 := Step16(mult, tbl1L, tbl1R, 2, s1, words, i, b);
        s2 := Step16(mult, tbl2L, tbl2R, 4, s2, words, i, b);
        s3 := Step16(mult, tbl3L, tbl3R, 8, s3, words, i, b);
        s0 := Xor(s0, b);
        i := i - 1;
      }
      assert words[0..] == words;
    }

    /** The two components, low byte first, whatever byte lies beyond the buffer; an empty buffer clears eight bytes. */
    method Compute32(buf: seq<bv8>, beyond: bv8, sig: array<bv8>)
      requires Valid() && sig.Length >= (if buf == [] then 8 else 4)
      modifies sig
      ensures WordAt(sig[..], 0) == Component16(ByOne(), Words(buf)) && WordAt(sig[..], 1) == Component16(Times(mult, 2), Words(buf))
      ensures buf == [] ==> (forall i :: 0 <= i < 8 ==> sig[i] == 0) && sig[8..] == old(sig[8..])
      ensures buf != [] ==> sig[4..] == old(sig[4..])
    {
      hide MakeWord, LowByte, HighByte, Split16, Linear;
      if buf == [] {
        NoBytesNoWord();
        forall i | 0 <= i < 8 { sig[i] := 0; }
        return;
      }
      hide Component16;
      var s0, s1 := Words32(buf, beyond);
      WordBytes(s0);
      WordBytes(s1);
      sig[0], sig[1], sig[2], sig[3] := LowByte(s0), HighByte(s0), LowByte(s1), HighByte(s1);
    }

    /** The four components, low byte first, whatever byte lies beyond the buffer. */
    method Compute64(buf: seq<bv8>, beyond: bv8, sig: array<bv8>)
      requires Valid() && sigLen == 64 && sig.Length == 8
      modifies sig
      ensures WordAt(sig[..], 0) == Component16(ByOne(), Words(buf)) && WordAt(sig[..], 1) == Component16(Times(mult, 2), Words(buf))
      ensures WordAt(sig[..], 2) == Component16(Times(mult, 4), Words(buf)) && WordAt(sig[..], 3) == Component16(Times(mult, 8), Words(buf))
    {
      hide MakeWord, LowByte, HighByte, Split16, Linear;
      if buf == [] {
        NoBytesNoWord();
        forall i | 0 <= i < 8 { sig[i] := 0; }
        return;
      }
      hide Component16;
      var s0, s1, s2, s3 := Words64(buf, beyond);
      WordBytes(s0);
      WordBytes(s1);
      WordBytes(s2);
      WordBytes(s3);
      sig[0], sig[1], sig[2], sig[3] := LowByte(s0), HighByte(s0), LowByte(s1), HighByte(s1);
      sig[4], sig[5], sig[6], sig[7] := LowByte(s2), HighByte(s2), LowByte(s3), HighByte(s3);
    }
  }

  // ----- the signature of two buffers joined

  lemma WordsAppend(x: seq<bv8>, y: seq<bv8>)
    requires |x| % 2 == 0
    ensures Words(x + y) == Words(x) + Words(y)
  {
    hide MakeWord;
    var n := |x| / 2;
    forall i | n <= i < |Words(x + y)| ensures WordOf(x + y, i) == WordOf(y, i - n) {
      assert 2 * (i - n) == 2 * i - |x|;
    }
  }

  /** Joined at a whole word, the second signature counts with the power of the point that is the word count. */
  lemma AppendWords(times: bv16 -> bv16, x: seq<bv8>, y: seq<bv8>)
    requires Linear(Xor16(), times) && |x| % 2 == 0
    ensures Component16(times, Words(x + y)) == Xor(Component16(times, Words(x)), Shifted(times, |x| / 2, Component16(times, Words(y))))
  {
    hide Xor, Linear, Eval;
    Xor16IsXor();
    WordsAppend(x, y);
    EvalAppend(Xor16(), times, Words(x), Words(y));
  }

  lemma AppendBytes(times: bv8 -> bv8, x: seq<bv8>, y: seq<bv8>)
    requires Linear(Xor8(), times)
    ensures Component8(times, x + y) == XorByte(Component8(times, x), Shifted(times, |x|, Component8(times, y)))
  {
    hide XorByte, Linear, Eval;
    Xor8IsXor();
    EvalAppend(Xor8(), times, x, y);
  }

  lemma {:induction false} ShiftedByOne(n: nat, x: bv16)
    ensures Shifted(ByOne(), n, x) == x
  {
    if n > 0 { ShiftedByOne(n - 1, x); }
  }

  /** The component at point 1 of words that end in w. */
  lemma EndsIn(front: seq<bv16>, w: bv16)
    ensures Component16(ByOne(), front + [w]) == Xor(Component16(ByOne(), front), w)
  {
    hide Xor, Linear;
    Xor16IsXor();
    ByOneLinear(Xor16());
    EvalAppend(Xor16(), ByOne(), front, [w]);
    ShiftedByOne(|front|, w);
    XorZero(w);
    assert [w][1..] == [];
    assert Component16(ByOne(), [w]) == Xor(w, 0);
  }

  lemma OddWordsDiffer(c: bv16, last: bv8)
    ensures Xor(c, MakeWord(last, 1)) != Xor(Xor(c, MakeWord(last, 0)), 1)
  {
  }

  ghost predicate AppendHolds(x: seq<bv8>, y: seq<bv8>) {
    Component16(ByOne(), Words(x + y)) == Xor(Component16(ByOne(), Words(x)), Component16(ByOne(), Words(y)))
  }

  /** After an odd length the rule fails already at the point 1, for a single byte. */
  lemma OddAppendFails(x: seq<bv8>)
    requires |x| % 2 == 1
    ensures !AppendHolds(x, [1])
  {
    hide Xor, Eval;
    var n := |x| / 2;
    var front, last := x[..|x| - 1], x[|x| - 1];
    assert x + [1] == front + [last, 1] && x == front + [last];
    WordsAppend(front, [last, 1]);
    WordsAppend(front, [last]);
    assert Words([last, 1]) == [MakeWord(last, 1)];
    assert Words([last]) == [MakeWord(last, 0)];
    assert Words([1]) == [] + [1] by { assert MakeWord(1, 0) == 1; }
    EndsIn(Words(front), MakeWord(last, 1));
    EndsIn(Words(front), MakeWord(last, 0));
    EndsIn([], 1);
    StartComponent16(ByOne(), []);
    XorZero(1);
    OddWordsDiffer(Component16(ByOne(), Words(front)), last);
  }

  /** The rule for joined buffers holds after x for every second buffer exactly when x is a whole number of words. */
  lemma AppendExactly(x: seq<bv8>)
    ensures (forall y :: AppendHolds(x, y)) <==> |x| % 2 == 0
  {
    hide Xor, Eval, Component16, Words;
    if |x| % 2 == 0 {
      forall y ensures AppendHolds(x, y) {
        ByOneLinear(Xor16());
        AppendWords(ByOne(), x, y);
        ShiftedByOne(|x| / 2, Component16(ByOne(), Words(y)));
      }
    } else {
      OddAppendFails(x);
    }
  }
}
