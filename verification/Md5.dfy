/** Buffered MD5: however a message is cut up, the digest is that of the padded whole (RFC 1321).
    The compression function is a parameter. */
module Md5 {
  import opened Arithmetic

  const LO_RANGE: nat := 0x20000000      // lo counts bytes modulo 2^29
  const WORD_RANGE: nat := 0x100000000
  const COUNT_RANGE: nat := 0x2000000000000000
  const BITS_RANGE: nat := 0x10000000000000000

  type Byte = b: nat | b < 256
  type Word = w: nat | w < WORD_RANGE

  datatype Chain = Chain(a: Word, b: Word, c: Word, d: Word)

  type Compression = (Chain, seq<Byte>) -> Chain

  const INITIAL: Chain := Chain(0x67452301, 0xefcdab89, 0x98badcfe, 0x10325476)

  /** The chaining value after some whole blocks. */
  function Blocks(f: Compression, c: Chain, data: seq<Byte>): Chain
    requires |data| % 64 == 0
    decreases |data|
  {
    if data == [] then c else Blocks(f, f(c, data[..64]), data[64..])
  }

  lemma {:induction false} BlocksConcat(f: Compression, c: Chain, x: seq<Byte>, y: seq<Byte>)
    requires |x| % 64 == 0 && |y| % 64 == 0
    ensures Blocks(f, c, x + y) == Blocks(f, Blocks(f, c, x), y)
    decreases |x|
  {
    if x == [] {
      assert x + y == y;
    } else {
      assert (x + y)[..64] == x[..64] && (x + y)[64..] == x[64..] + y;
      BlocksConcat(f, f(c, x[..64]), x[64..], y);
    }
  }

  lemma OneBlock(f: Compression, c: Chain, block: seq<Byte>)
    requires |block| == 64
    ensures Blocks(f, c, block) == f(c, block)
  {
    assert block[..64] == block && block[64..] == [];
  }

  /** A word as four bytes, low-order byte first. */
  function Le32(w: Word): (s: seq<Byte>)
    ensures |s| == 4
  {
    [w % 256, w / 0x100 % 256, w / 0x10000 % 256, w / 0x1000000 % 256]
  }

  function FromLe32(s: seq<Byte>): nat
    requires |s| == 4
  {
    (s[0] as int) + 0x100 * (s[1] as int) + 0x10000 * (s[2] as int) + 0x1000000 * (s[3] as int)
  }

  lemma Le32Inverse(w: Word)
    ensures FromLe32(Le32(w)) == w
  {
    assert w / 0x10000 == w / 0x100 / 0x100;
    assert w / 0x1000000 == w / 0x10000 / 0x100 < 256;
  }

  /** A 64-bit number as two words, low-order word first. */
  function Le64(x: nat): (s: seq<Byte>)
    requires x < BITS_RANGE
    ensures |s| == 8
  {
    Le32(x % WORD_RANGE) + Le32(x / WORD_RANGE)
  }

  function Zeros(n: nat): (s: seq<Byte>)
    ensures |s| == n
  {
    seq(n, i => 0)
  }

  /** How many zero bytes bring a message and its 0x80 byte to 56 modulo 64 (RFC 1321, section 3.1). */
  function ZeroCount(length: nat): (n: nat)
    ensures n < 64 && (length + 1 + n) % 64 == 56
  {
    (119 - length % 64) % 64
  }

  /** The bit length modulo 2^64 (RFC 1321, section 3.2). */
  function BitLength(length: nat): (n: nat)
    ensures n < BITS_RANGE
  {
    length * 8 % (BITS_RANGE)
  }

  /** The message, padded and with its length appended. */
  function Padded(msg: seq<Byte>): (p: seq<Byte>)
    ensures |p| % 64 == 0 && msg <= p
  {
    EightMore(|msg| + 1 + ZeroCount(|msg|));
    msg + [0x80] + Zeros(ZeroCount(|msg|)) + Le64(BitLength(|msg|))
  }

  lemma EightMore(n: nat)
    requires n % 64 == 56
    ensures (n + 8) % 64 == 0
  {
  }

  function Digest(f: Compression, msg: seq<Byte>): (d: seq<Byte>)
    ensures |d| == 16
  {
    var c := Blocks(f, INITIAL, Padded(msg));
    Le32(c.a) + Le32(c.b) + Le32(c.c) + Le32(c.d)
  }

  /** The whole blocks of a message, and the bytes after them. */
  function Whole(msg: seq<Byte>): (w: seq<Byte>)
    ensures |w| % 64 == 0 && |w| <= |msg| < |w| + 64
  {
    msg[..|msg| - |msg| % 64]
  }

  function Rest(msg: seq<Byte>): (r: seq<Byte>)
    ensures |r| == |msg| % 64 && msg == Whole(msg) + r
  {
    msg[|msg| - |msg| % 64..]
  }

  lemma CutUnique(msg: seq<Byte>, w: seq<Byte>, r: seq<Byte>)
    requires msg == w + r && |w| % 64 == 0 && |r| < 64
    ensures Whole(msg) == w && Rest(msg) == r
  {
    assert |msg| % 64 == |r|;
  }

  // ----- the byte count

  /** The counters for a message of this length. */
  predicate Counts(lo: nat, hi: nat, length: nat) {
    lo == length % LO_RANGE && hi == length / LO_RANGE % WORD_RANGE
  }

  /** Together the counters hold the length modulo 2^61. */
  lemma CountsMean(lo: nat, hi: nat, length: nat)
    requires Counts(lo, hi, length)
    ensures hi * LO_RANGE + lo == length % COUNT_RANGE
  {
    var q := length / LO_RANGE;
    assert length == 0x20000000 * q + lo;
    assert q == 0x100000000 * (q / WORD_RANGE) + hi;
    DivUnique(length, COUNT_RANGE, q / WORD_RANGE, hi * LO_RANGE + lo);
  }

  lemma Carry(lo: nat, size: nat, lo': nat, p: nat, r: nat)
    requires lo < LO_RANGE && size == LO_RANGE * p + r && r < LO_RANGE && lo' == (lo + size) % LO_RANGE
    ensures lo + r == LO_RANGE * (if lo' < lo then 1 else 0) + lo' < 2 * LO_RANGE
  {
    if lo + r < LO_RANGE {
      DivUnique(lo + size, LO_RANGE, p, lo + r);
    } else {
      DivUnique(lo + size, LO_RANGE, p + 1, lo + r - LO_RANGE);
    }
  }

  /** Adding size bytes: a carry out of lo where the sum wraps, and the high part of size. */
  lemma CountStep(lo: nat, hi: nat, length: nat, size: nat, lo': nat)
    requires Counts(lo, hi, length) && lo' == (lo + size) % LO_RANGE
    ensures Counts(lo', ((if lo' < lo then (hi + 1) % WORD_RANGE else hi) + size / LO_RANGE) % WORD_RANGE, length + size)
  {
    var q, p, r := length / LO_RANGE, size / LO_RANGE, size % LO_RANGE;
    var carry := if lo' < lo then 1 else 0;
    Carry(lo, size, lo', p, r);
    DivUnique(length + size, LO_RANGE, q + p + carry, lo');
    AddMod(q, p, carry);
  }

  lemma AddMod(q: nat, p: nat, carry: nat)
    requires carry <= 1
    ensures (q + p + carry) % WORD_RANGE == ((if carry == 1 then (q % WORD_RANGE + 1) % WORD_RANGE else q % WORD_RANGE) + p) % WORD_RANGE
  {
  }

  // ----- padding

  /** The last eight bytes are the length in bits, low-order byte first, modulo 2^64. */
  lemma LengthSuffix(msg: seq<Byte>)
    ensures var p := Padded(msg); var n := |p|;
      FromLe32(p[n - 8..n - 4]) + WORD_RANGE * FromLe32(p[n - 4..]) == |msg| * 8 % BITS_RANGE
  {
    var p, b := Padded(msg), BitLength(|msg|);
    var n := |p|;
    assert p[n - 8..n - 4] == Le32(b % WORD_RANGE) && p[n - 4..] == Le32(b / WORD_RANGE);
    Le32Inverse(b % WORD_RANGE);
    Le32Inverse(b / WORD_RANGE);
  }

  lemma Le32Of(s: seq<Byte>)
    requires |s| == 4
    ensures FromLe32(s) < WORD_RANGE && Le32(FromLe32(s)) == s
  {
    var x := FromLe32(s);
    DivUnique(x, 0x100, (s[1] as int) + 0x100 * (s[2] as int) + 0x10000 * (s[3] as int), s[0]);
    DivUnique(x / 0x100, 0x100, (s[2] as int) + 0x100 * (s[3] as int), s[1]);
    DivUnique(x / 0x10000, 0x100, s[3], s[2]);
    assert x / 0x10000 == x / 0x100 / 0x100 && x / 0x1000000 == x / 0x10000 / 0x100;
  }

  /** The padding of sections 3.1 and 3.2 of RFC 1321 in words: whole blocks, fewer than 64 zero bytes after the byte 0x80,
      and then the length in bits. There is one way only. */
  lemma PaddingUnique(msg: seq<Byte>, p: seq<Byte>, zeros: nat)
    requires zeros < 64 && |p| == |msg| + 1 + zeros + 8 && |p| % 64 == 0
    requires p[..|msg|] == msg && p[|msg|] == 0x80 && forall i :: |msg| < i < |p| - 8 ==> p[i] == 0
    requires FromLe32(p[|p| - 8..|p| - 4]) + WORD_RANGE * FromLe32(p[|p| - 4..]) == |msg| * 8 % BITS_RANGE
    ensures p == Padded(msg)
  {
    hide *;
    var lo, hi, n := p[|p| - 8..|p| - 4], p[|p| - 4..], |p| - 8;
    Le32Of(lo);
    Le32Of(hi);
    ZerosAre(|msg|, zeros, p[|msg| + 1..n]);
    SplitLength(|msg|, FromLe32(lo), FromLe32(hi));
    PaddedIs(msg);
    assert p[n..] == lo + hi;
    assert p == p[..|msg|] + [p[|msg|]] + p[|msg| + 1..n] + p[n..];
  }

  lemma PaddedIs(msg: seq<Byte>)
    ensures Padded(msg) == msg + [0x80] + Zeros(ZeroCount(|msg|)) + (Le32(BitLength(|msg|) % WORD_RANGE) + Le32(BitLength(|msg|) / WORD_RANGE))
  {
    hide Le32, ZeroCount, BitLength, Zeros;
  }

  lemma ZerosAre(length: nat, zeros: nat, z: seq<Byte>)
    requires zeros < 64 && (length + 1 + zeros + 8) % 64 == 0 && |z| == zeros && forall i :: 0 <= i < zeros ==> z[i] == 0
    ensures z == Zeros(ZeroCount(length))
  {
    var n := ZeroCount(length);
    assert zeros == n;
  }

  lemma SplitLength(length: nat, lo: nat, hi: nat)
    requires lo < WORD_RANGE && lo + WORD_RANGE * hi == length * 8 % BITS_RANGE
    ensures BitLength(length) % WORD_RANGE == lo && BitLength(length) / WORD_RANGE == hi
  {
    DivUnique(BitLength(length), WORD_RANGE, hi, lo);
  }

  lemma {:induction false} BlocksUnchanged(f: Compression, c: Chain, data: seq<Byte>)
    requires |data| % 64 == 0 && forall c: Chain, b: seq<Byte> :: f(c, b) == c
    ensures Blocks(f, c, data) == c
    decreases |data|
  {
    if data != [] { BlocksUnchanged(f, c, data[64..]); }
  }

  /** Section 3.3 of RFC 1321: with nothing added to it, the starting value comes out, word by word and low-order byte first. */
  lemma StartingValue(f: Compression, msg: seq<Byte>)
    requires forall c: Chain, b: seq<Byte> :: f(c, b) == c
    ensures Digest(f, msg) == [0x01, 0x23, 0x45, 0x67, 0x89, 0xab, 0xcd, 0xef, 0xfe, 0xdc, 0xba, 0x98, 0x76, 0x54, 0x32, 0x10]
  {
    hide Padded;
    BlocksUnchanged(f, INITIAL, Padded(msg));
    hide Blocks;
    assert Le32(0x67452301) == [0x01, 0x23, 0x45, 0x67];
    assert Le32(0xefcdab89) == [0x89, 0xab, 0xcd, 0xef];
    assert Le32(0x98badcfe) == [0xfe, 0xdc, 0xba, 0x98];
    assert Le32(0x10325476) == [0x76, 0x54, 0x32, 0x10];
  }

  /** The bit length is what the counters hold, shifted left by three. */
  lemma CountsToBits(lo: nat, hi: nat, length: nat)
    requires Counts(lo, hi, length)
    ensures BitLength(length) % WORD_RANGE == lo * 8 && BitLength(length) / WORD_RANGE == hi
  {
    CountsMean(lo, hi, length);
    var q := length / COUNT_RANGE;
    assert length == 0x2000000000000000 * q + (hi * LO_RANGE + lo);
    DivUnique(length * 8, BITS_RANGE, q, hi * WORD_RANGE + lo * 8);
    DivUnique(hi * WORD_RANGE + lo * 8, WORD_RANGE, hi, lo * 8);
  }

  class Context {
    const compress: Compression
    var lo: nat
    var hi: nat
    var chain: Chain
    const buffer: array<Byte>
    /** Everything that was put in. */
    ghost var msg: seq<Byte>

    ghost predicate Valid()
      reads this, buffer
    {
      && buffer.Length == 64
      && Counts(lo, hi, |msg|)
      && chain == Blocks(compress, INITIAL, Whole(msg))
      && buffer[..|msg| % 64] == Rest(msg)
    }

    constructor (f: Compression)
      ensures Valid() && msg == [] && compress == f && fresh(buffer)
    {
      compress := f;
      lo, hi, chain := 0, 0, INITIAL;
      buffer := new Byte[64](i => 0);
      msg := [];
    }

    /** Runs the compression function over one or more whole blocks. */
    method Body(data: seq<Byte>)
      requires |data| % 64 == 0 && |data| >= 64
      modifies this`chain
      ensures chain == Blocks(compress, old(chain), data)
    {
      var rest := data;
      while rest != []
        invariant |rest| % 64 == 0 && Blocks(compress, chain, rest) == Blocks(compress, old(chain), data)
        decreases |rest|
      {
        chain := compress(chain, rest[..64]);
        rest := rest[64..];
      }
    }

    /** Copies bytes into the buffer. */
    method CopyIn(at: nat, data: seq<Byte>)
      requires buffer.Length == 64 && at + |data| <= 64
      modifies buffer
      ensures buffer[..] == old(buffer[..at]) + data + old(buffer[at + |data|..])
    {
      for i := 0 to |data|
        invariant forall j :: 0 <= j < 64 ==> buffer[j] == if at <= j < at + i then data[j - at] else old(buffer[j])
      {
        buffer[at + i] := data[i];
      }
    }

    /** Adds to the byte count. */
    method AddCount(size: nat, ghost length: nat)
      requires Counts(lo, hi, length)
      modifies this`lo, this`hi
      ensures Counts(lo, hi, length + size)
    {
      var savedLo := lo;
      CountStep(lo, hi, length, size, (savedLo + size) % LO_RANGE);
      lo := (savedLo + size) % LO_RANGE;
      if lo < savedLo {
        hi := (hi + 1) % WORD_RANGE;
      }
      hi := (hi + size / LO_RANGE) % WORD_RANGE;
    }

    /** Completes the block in the buffer and runs it. */
    method CompleteBlock(head: seq<Byte>, ghost whole: seq<Byte>, ghost left: seq<Byte>, used: nat)
      requires buffer.Length == 64 && |left| == used && used + |head| == 64 && buffer[..used] == left
      requires |whole| % 64 == 0 && chain == Blocks(compress, INITIAL, whole)
      modifies this`chain, buffer
      ensures chain == Blocks(compress, INITIAL, whole + (left + head))
    {
      hide Blocks;
      CopyIn(used, head);
      assert buffer[..] == left + head;
      BlocksConcat(compress, INITIAL, whole, buffer[..]);
      Body(buffer[..]);
    }

    /** Runs the whole blocks of the data and gives back what is left. */
    method RunBlocks(data: seq<Byte>, ghost whole: seq<Byte>) returns (rest: seq<Byte>)
      requires |whole| % 64 == 0 && chain == Blocks(compress, INITIAL, whole)
      modifies this`chain
      ensures rest == Rest(data) && chain == Blocks(compress, INITIAL, whole + Whole(data))
    {
      hide Blocks;
      rest := data;
      if |data| >= 64 {
        var n := |data| - |data| % 64;
        BlocksConcat(compress, INITIAL, whole, data[..n]);
        Body(data[..n]);
        rest := data[n..];
      } else {
        assert whole + Whole(data) == whole;
      }
    }

    /** Takes in what completes the block in the buffer, and everything after it. */
    method Absorb(data: seq<Byte>, used: nat, ghost whole: seq<Byte>, ghost left: seq<Byte>, ghost all: seq<Byte>)
      requires buffer.Length == 64 && |left| == used < 64 && buffer[..used] == left && 64 - used <= |data|
      requires |whole| % 64 == 0 && chain == Blocks(compress, INITIAL, whole) && all == whole + left + data
      modifies this`chain, buffer
      ensures chain == Blocks(compress, INITIAL, Whole(all)) && buffer[..|all| % 64] == Rest(all)
    {
      hide Blocks, Whole, Rest;
      var free := 64 - used;
      ghost var done := if used == 0 then whole else whole + (left + data[..free]);
      var d := data;
      if used != 0 {
        CompleteBlock(data[..free], whole, left, used);
        d := data[free..];
      }
      var rest := RunBlocks(d, done);
      assert all == done + Whole(d) + rest;
      CutUnique(all, done + Whole(d), rest);
      CopyIn(0, rest);
    }

    /** Takes in more of the message. */
    method Update(data: seq<Byte>)
      requires Valid()
      modifies this`lo, this`hi, this`chain, this`msg, buffer
      ensures Valid() && msg == old(msg) + data
    {
      hide Blocks, Counts, Whole, Rest;
      var savedLo, size := lo, |data|;
      ghost var whole, left := Whole(msg), Rest(msg);
      CountsLow(lo, hi, |msg|);
      AddCount(size, |msg|);
      var used := savedLo % 64;
      msg := msg + data;
      if size < 64 - used {
        CopyIn(used, data);
        CutUnique(msg, whole, left + data);
      } else {
        Absorb(data, used, whole, left, msg);
      }
    }

    /** Fills the block up with zeros and the length, and runs it. */
    method LastBlock(used: nat, lo8: Word, high: Word, ghost whole: seq<Byte>, ghost block: seq<Byte>)
      requires buffer.Length == 64 && |block| == used <= 56 && buffer[..used] == block
      requires |whole| % 64 == 0 && chain == Blocks(compress, INITIAL, whole)
      modifies this`chain, buffer
      ensures chain == Blocks(compress, INITIAL, whole + (block + Zeros(56 - used) + (Le32(lo8) + Le32(high))))
    {
      hide Blocks, Zeros, Le32;
      CopyIn(used, Zeros(56 - used));
      CopyIn(56, Le32(lo8) + Le32(high));
      assert buffer[..] == block + Zeros(56 - used) + (Le32(lo8) + Le32(high));
      BlocksConcat(compress, INITIAL, whole, buffer[..]);
      Body(buffer[..]);
    }

    /** Pads, appends the length, and gives the digest; the context is wiped. */
    method Final() returns (result: seq<Byte>)
      requires Valid()
      modifies this, buffer
      ensures result == Digest(compress, old(msg))
      ensures lo == 0 && hi == 0 && chain == Chain(0, 0, 0, 0) && buffer[..] == Zeros(64)
    {
      hide Blocks, Counts, Whole, Rest, Padded, Le32, Zeros;
      ghost var whole, left, padded := Whole(msg), Rest(msg), Padded(msg);
      CountsLow(lo, hi, |msg|);
      CountsBelow(lo, hi, |msg|);
      PaddedParts(msg, lo, hi);
      var used := lo % 64;
      buffer[used] := 0x80;
      used := used + 1;
      var free := 64 - used;
      ghost var block := left + [0x80];
      assert buffer[..used] == block;
      if free < 8 {
        CompleteBlock(Zeros(free), whole, block, used);
        whole := whole + (block + Zeros(free));
        block := [];
        used := 0;
      }
      lo := lo * 8;
      LastBlock(used, lo, hi, whole, block);
      assert chain == Blocks(compress, INITIAL, padded);
      result := Le32(chain.a) + Le32(chain.b) + Le32(chain.c) + Le32(chain.d);
      lo, hi, chain := 0, 0, Chain(0, 0, 0, 0);
      CopyIn(0, Zeros(64));
      assert buffer[..] == Zeros(64);
    }
  }

  lemma CountsBelow(lo: nat, hi: nat, length: nat)
    requires Counts(lo, hi, length)
    ensures lo * 8 < WORD_RANGE && hi < WORD_RANGE
  {
  }

  /** The padded message, cut where the last blocks begin. */
  lemma PaddedParts(msg: seq<Byte>, lo: nat, hi: nat)
    requires Counts(lo, hi, |msg|)
    ensures lo * 8 < WORD_RANGE && hi < WORD_RANGE
    ensures var used := |msg| % 64 + 1; var block := Rest(msg) + [0x80]; var length := Le32(lo * 8) + Le32(hi);
      Padded(msg) == if 64 - used < 8 then (Whole(msg) + (block + Zeros(64 - used))) + ([] + Zeros(56) + length)
                     else Whole(msg) + (block + Zeros(56 - used) + length)
  {
    hide Le32, Counts;
    CountsBelow(lo, hi, |msg|);
    CountsToBits(lo, hi, |msg|);
    var used := |msg| % 64 + 1;
    if 64 - used < 8 {
      assert ZeroCount(|msg|) == (64 - used) + 56;
      assert Zeros(ZeroCount(|msg|)) == Zeros(64 - used) + Zeros(56);
    } else {
      assert ZeroCount(|msg|) == 56 - used;
    }
  }

  lemma CountsLow(lo: nat, hi: nat, length: nat)
    requires Counts(lo, hi, length)
    ensures length % 64 == lo % 64
  {
    var q := length / LO_RANGE;
    assert length == 0x20000000 * q + lo;
  }

  function Joined(parts: seq<seq<Byte>>): seq<Byte>
  {
    if parts == [] then [] else Joined(parts[..|parts| - 1]) + parts[|parts| - 1]
  }

  lemma JoinedNone(parts: seq<seq<Byte>>)
    ensures Joined(parts[..0]) == []
  {
  }

  lemma JoinedStep(parts: seq<seq<Byte>>, i: nat)
    requires i < |parts|
    ensures Joined(parts[..i + 1]) == Joined(parts[..i]) + parts[i]
  {
    assert parts[..i + 1][..i] == parts[..i];
  }

  /** Init, one Update for each part, Final: the digest only depends on the parts put together. */
  method HashParts(f: Compression, parts: seq<seq<Byte>>) returns (digest: seq<Byte>)
    ensures digest == Digest(f, Joined(parts))
  {
    hide *;
    var ctx := new Context(f);
    JoinedNone(parts);
    for i := 0 to |parts|
      invariant ctx.Valid() && ctx.msg == Joined(parts[..i]) && ctx.compress == f && fresh(ctx) && fresh(ctx.buffer)
    {
      JoinedStep(parts, i);
      ctx.Update(parts[i]);
    }
    assert parts[..|parts|] == parts;
    digest := ctx.Final();
  }
}
