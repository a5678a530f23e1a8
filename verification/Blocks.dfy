/** Bytes with exclusive or, sixteen-byte blocks, and the chaining of blocks that the modes of operation share. */
module Blocks {
  import opened Words
  import opened Products

  /** Exclusive or of the low n bits of two numbers. */
  function XorBits(a: nat, b: nat, n: nat): (c: nat)
    ensures c < Pow2(n)
  {
    if n == 0 then 0 else (a + b) % 2 + 2 * XorBits(a / 2, b / 2, n - 1)
  }

  lemma XorBitsNext(a: nat, b: nat, n: nat)
    requires n > 0
    ensures XorBits(a, b, n) == (a + b) % 2 + 2 * XorBits(a / 2, b / 2, n - 1)
  {
  }

  lemma LowBit(a: nat, b: nat, x: nat)
    ensures var c := (a + b) % 2 + 2 * x; c / 2 == x && (c + b) % 2 == a % 2
  {
  }

  lemma {:induction false} XorBitsTwice(a: nat, b: nat, n: nat)
    requires a < Pow2(n)
    ensures XorBits(XorBits(a, b, n), b, n) == a
  {
    hide XorBits;
    if n > 0 {
      XorBitsTwice(a / 2, b / 2, n - 1);
      XorBitsNext(a, b, n);
      LowBit(a, b, XorBits(a / 2, b / 2, n - 1));
      XorBitsNext(XorBits(a, b, n), b, n);
    }
  }

  lemma {:induction false} XorBitsCommutes(a: nat, b: nat, n: nat)
    ensures XorBits(a, b, n) == XorBits(b, a, n)
  {
    if n > 0 {
      XorBitsCommutes(a / 2, b / 2, n - 1);
    }
  }

  lemma {:induction false} XorBitsZero(a: nat, n: nat)
    requires a < Pow2(n)
    ensures XorBits(a, 0, n) == a
  {
    if n > 0 {
      XorBitsZero(a / 2, n - 1);
    }
  }

  /** Exclusive or of two bytes. */
  function Xor(a: byte, b: byte): byte {
    Pow2Values();
    XorBits(a, b, 8)
  }

  lemma XorTwice(a: byte, b: byte)
    ensures Xor(Xor(a, b), b) == a
  {
    Pow2Values();
    XorBitsTwice(a, b, 8);
  }

  lemma XorZero(a: byte)
    ensures Xor(a, 0) == a && Xor(0, a) == a
  {
    Pow2Values();
    XorBitsZero(a, 8);
    XorBitsCommutes(a, 0, 8);
  }

  lemma XorCommutes(a: byte, b: byte)
    ensures Xor(a, b) == Xor(b, a)
  {
    XorBitsCommutes(a, b, 8);
  }

  lemma XorSame(a: byte)
    ensures Xor(a, a) == 0
  {
    XorZero(a);
    XorTwice(0, a);
  }

  lemma XorIsZero(a: byte, b: byte)
    ensures Xor(a, b) == 0 <==> a == b
  {
    XorSame(a);
    XorTwice(a, b);
    XorZero(b);
  }

  function BitOf(a: nat, i: nat): nat {
    a / Pow2(i) % 2
  }

  /** Bit i of the exclusive or is set when it is set in exactly one of the two. */
  lemma {:induction false} XorBitsAt(a: nat, b: nat, n: nat, i: nat)
    requires i < n
    ensures BitOf(XorBits(a, b, n), i) == if BitOf(a, i) == BitOf(b, i) then 0 else 1
  {
    hide XorBits, BitOf;
    var c := XorBits(a / 2, b / 2, n - 1);
    XorBitsNext(a, b, n);
    DivModUnique((a + b) % 2 + 2 * c, 2, c, (a + b) % 2);
    if i == 0 {
      LowestBit(a);
      LowestBit(b);
      LowestBit((a + b) % 2 + 2 * c);
      SumParity(a, b);
    } else {
      XorBitsAt(a / 2, b / 2, n - 1, i - 1);
      HigherBit(a, i);
      HigherBit(b, i);
      HigherBit((a + b) % 2 + 2 * c, i);
    }
  }

  lemma SumParity(a: nat, b: nat)
    ensures (a + b) % 2 == if a % 2 == b % 2 then 0 else 1
  {
  }

  lemma LowestBit(a: nat)
    ensures BitOf(a, 0) == a % 2
  {
    DivModUnique(a, 1, a, 0);
  }

  lemma HigherBit(a: nat, i: nat)
    requires i > 0
    ensures BitOf(a, i) == BitOf(a / 2, i - 1)
  {
    hide Pow2;
    Pow2Next(i - 1);
    var p := Pow2(i - 1);
    DivModBounds(a, 2);
    DivModBounds(a / 2, p);
    var h, l := a / 2, a % 2;
    MulAssoc(2, p, h / p);
    MulMono(h % p + 1, p, 2);
    DivModUnique(a, 2 * p, h / p, 2 * (h % p) + l);
  }

  type Block = b: seq<byte> | |b| == 16 witness seq(16, _ => 0)

  /** Block i of a byte string. */
  function BlockAt(m: seq<byte>, i: nat): Block
    requires 16 * i + 16 <= |m|
  {
    m[16 * i..16 * i + 16]
  }

  /** Only the bytes of the block matter. */
  lemma BlockOfPrefix(m: seq<byte>, n: nat, i: nat)
    requires 16 * i + 16 <= n <= |m|
    ensures BlockAt(m[..n], i) == BlockAt(m, i)
  {
  }

  function XorSeq(a: seq<byte>, b: seq<byte>): (c: seq<byte>)
    requires |a| == |b|
    ensures |c| == |a|
  {
    seq(|a|, k requires 0 <= k < |a| => Xor(a[k], b[k]))
  }

  lemma XorSeqNext(a: seq<byte>, b: seq<byte>, i: nat)
    requires i < |a| && i < |b|
    ensures XorSeq(a[..i + 1], b[..i + 1]) == XorSeq(a[..i], b[..i]) + [Xor(a[i], b[i])]
  {
    hide Xor;
  }

  lemma XorSeqTwice(a: seq<byte>, b: seq<byte>)
    requires |a| == |b|
    ensures XorSeq(XorSeq(a, b), b) == a
  {
    forall k | 0 <= k < |a| ensures XorSeq(XorSeq(a, b), b)[k] == a[k] {
      XorTwice(a[k], b[k]);
    }
  }

  lemma XorSeqCommutes(a: seq<byte>, b: seq<byte>)
    requires |a| == |b|
    ensures XorSeq(a, b) == XorSeq(b, a)
  {
    forall k | 0 <= k < |a| ensures XorSeq(a, b)[k] == XorSeq(b, a)[k] {
      XorCommutes(a[k], b[k]);
    }
  }

  function ZeroBytes(n: nat): (s: seq<byte>)
    ensures |s| == n && forall k :: 0 <= k < n ==> s[k] == 0
  {
    seq(n, _ => 0)
  }

  /** Zero bytes up to the next block boundary. */
  function Pad(data: seq<byte>): (p: seq<byte>)
    ensures |p| % 16 == 0 && |data| <= |p| < |data| + 16 && p[..|data|] == data
  {
    data + ZeroBytes((16 - |data| % 16) % 16)
  }

  /** D undoes E. */
  ghost predicate Inverse(E: Block -> Block, D: Block -> Block) {
    forall b :: D(E(b)) == b
  }

  // ---------- chaining ----------

  /** The CBC-MAC chain over whole blocks: what is left of the chain value y after `data`. */
  function Chain(E: Block -> Block, y: Block, data: seq<byte>): Block
    requires |data| % 16 == 0
    decreases |data|
  {
    if |data| == 0 then y else E(XorSeq(Chain(E, y, data[..|data| - 16]), data[|data| - 16..]))
  }

  lemma ChainNone(E: Block -> Block, y: Block)
    ensures Chain(E, y, []) == y
  {
  }

  lemma ChainOne(E: Block -> Block, y: Block, b: Block)
    ensures Chain(E, y, b) == E(XorSeq(y, b))
  {
    assert b[..0] == [] && b[0..] == b;
  }

  lemma {:induction false} ChainAppend(E: Block -> Block, y: Block, a: seq<byte>, b: seq<byte>)
    requires |a| % 16 == 0 && |b| % 16 == 0
    ensures Chain(E, y, a + b) == Chain(E, Chain(E, y, a), b)
    decreases |b|
  {
    if |b| == 0 {
      assert a + b == a;
    } else {
      ChainAppend(E, y, a, b[..|b| - 16]);
      assert (a + b)[..|a + b| - 16] == a + b[..|b| - 16];
      assert (a + b)[|a + b| - 16..] == b[|b| - 16..];
    }
  }

  /** What the chain is: every block goes through the cipher together with the result for the block before it. */
  lemma {:induction false} ChainIs(E: Block -> Block, y: Block, data: seq<byte>, c: seq<Block>)
    requires |data| == 16 * |c| && 0 < |c| && c[0] == E(XorSeq(y, BlockAt(data, 0)))
    requires forall i :: 0 < i < |c| ==> c[i] == E(XorSeq(c[i - 1], BlockAt(data, i)))
    ensures Chain(E, y, data) == c[|c| - 1]
  {
    hide XorSeq;
    var n := |c| - 1;
    var head := data[..16 * n];
    assert data[..|data| - 16] == head && data[|data| - 16..] == BlockAt(data, n);
    if n == 0 {
      assert head == [];
    } else {
      forall i | 0 <= i < n ensures BlockAt(head, i) == BlockAt(data, i) {
        BlockOfPrefix(data, 16 * n, i);
      }
      ChainIs(E, y, head, c[..n]);
    }
  }

  /**
    The same chain fed byte by byte, from position `off` of the stream on: a byte is added to its place in the
    block, and the block is encrypted as soon as it is full.
   */
  function Feed(E: Block -> Block, y: Block, off: nat, data: seq<byte>): Block
    decreases |data|
  {
    if |data| == 0 then y
    else FeedByte(E, Feed(E, y, off, data[..|data| - 1]), off + |data| - 1, data[|data| - 1])
  }

  function FeedByte(E: Block -> Block, z: Block, p: nat, x: byte): Block {
    var z' := z[p % 16 := Xor(z[p % 16], x)];
    if p % 16 == 15 then E(z') else z'
  }

  lemma {:induction false} FeedAppend(E: Block -> Block, y: Block, off: nat, a: seq<byte>, b: seq<byte>)
    ensures Feed(E, y, off, a + b) == Feed(E, Feed(E, y, off, a), off + |a|, b)
    decreases |b|
  {
    if |b| == 0 {
      assert a + b == a;
    } else {
      FeedAppend(E, y, off, a, b[..|b| - 1]);
      assert (a + b)[..|a + b| - 1] == a + b[..|b| - 1];
    }
  }

  lemma FeedSame(E: Block -> Block, z: Block, p: nat, q: nat, x: byte)
    requires p % 16 == q % 16
    ensures FeedByte(E, z, p, x) == FeedByte(E, z, q, x)
  {
    hide Xor;
  }

  lemma SamePlace(a: nat, b: nat, n: nat)
    requires a % 16 == b % 16
    ensures (a + n) % 16 == (b + n) % 16
  {
    DivModUnique(a + n, 16, a / 16 - b / 16 + (b + n) / 16, (b + n) % 16);
  }

  /** Only the position within the block matters. */
  lemma {:induction false} FeedOffset(E: Block -> Block, y: Block, off: nat, off': nat, data: seq<byte>)
    requires off % 16 == off' % 16
    ensures Feed(E, y, off, data) == Feed(E, y, off', data)
    decreases |data|
  {
    hide FeedByte;
    if |data| > 0 {
      FeedOffset(E, y, off, off', data[..|data| - 1]);
      SamePlace(off, off', |data| - 1);
      FeedSame(E, Feed(E, y, off, data[..|data| - 1]), off + |data| - 1, off' + |data| - 1, data[|data| - 1]);
    }
  }

  /** A chunk added to a block from position `off` on. */
  function XorAt(y: seq<byte>, off: nat, data: seq<byte>): (z: seq<byte>)
    requires off + |data| <= |y|
    ensures |z| == |y|
  {
    seq(|y|, k requires 0 <= k < |y| => if off <= k < off + |data| then Xor(y[k], data[k - off]) else y[k])
  }

  /** Feeding a chunk that stays within one block. */
  lemma {:induction false} FeedChunk(E: Block -> Block, y: Block, off: nat, data: seq<byte>)
    requires off + |data| <= 16 && off < 16
    ensures Feed(E, y, off, data) == if off + |data| == 16 then E(XorAt(y, off, data)) else XorAt(y, off, data)
    decreases |data|
  {
    hide Xor, FeedByte, XorAt;
    if |data| == 0 {
      EmptyChunk(y, off);
    } else {
      var n := |data| - 1;
      FeedChunk(E, y, off, data[..n]);
      var z := XorAt(y, off, data[..n]);
      OneMore(y, off, data, n);
      FeedOne(E, z, off + n, data[n]);
    }
  }

  lemma EmptyChunk(y: seq<byte>, off: nat)
    requires off <= |y|
    ensures XorAt(y, off, []) == y
  {
  }

  lemma OneMore(y: seq<byte>, off: nat, data: seq<byte>, n: nat)
    requires n + 1 == |data| && off + |data| <= |y|
    ensures XorAt(y, off, data[..n])[off + n := Xor(XorAt(y, off, data[..n])[off + n], data[n])] == XorAt(y, off, data)
  {
    hide Xor;
  }

  lemma FeedOne(E: Block -> Block, z: Block, p: nat, x: byte)
    requires p < 16
    ensures FeedByte(E, z, p, x) == if p == 15 then E(z[p := Xor(z[p], x)]) else z[p := Xor(z[p], x)]
  {
    hide Xor;
  }

  /** Ends a stream of n bytes: an incomplete last block is encrypted as it is. */
  function Flush(E: Block -> Block, y: Block, n: nat): Block {
    if n % 16 == 0 then y else E(y)
  }

  /** The byte-wise chain with its flush is the chain over the padded blocks. */
  lemma {:induction false} FeedIsChain(E: Block -> Block, y: Block, data: seq<byte>)
    ensures Flush(E, Feed(E, y, 0, data), |data|) == Chain(E, y, Pad(data))
    decreases |data|
  {
    hide Feed, Chain, XorSeq, XorAt, Pad;
    var n := |data|;
    if n < 16 {
      FeedShort(E, y, data);
    } else {
      var a, b := data[..16], data[16..];
      assert data == a + b;
      FeedAppend(E, y, 0, a, b);
      FeedOffset(E, Feed(E, y, 0, a), 16, 0, b);
      FeedShort(E, y, a);
      PadWhole(a, b);
      FeedIsChain(E, Feed(E, y, 0, a), b);
      ChainAppend(E, y, a, Pad(b));
    }
  }

  lemma PadWhole(a: seq<byte>, b: seq<byte>)
    requires |a| == 16
    ensures Pad(a) == a && Pad(a + b) == a + Pad(b)
  {
    DivModUnique(|a + b|, 16, 1 + |b| / 16, |b| % 16);
    var fill := ZeroBytes((16 - |b| % 16) % 16);
    assert a + b + fill == a + (b + fill);
    assert a + ZeroBytes(0) == a;
  }

  lemma FeedShort(E: Block -> Block, y: Block, data: seq<byte>)
    requires |data| <= 16
    ensures Flush(E, Feed(E, y, 0, data), |data|) == Chain(E, y, Pad(data))
  {
    hide XorSeq, XorAt, Feed, Chain;
    FeedChunk(E, y, 0, data);
    if |data| == 0 {
      EmptyChunk(y, 0);
      assert Pad(data) == [];
      ChainNone(E, y);
    } else {
      PadLast(y, data);
      ChainOne(E, y, Pad(data));
    }
  }

  lemma PadLast(y: Block, data: seq<byte>)
    requires 0 < |data| <= 16
    ensures XorAt(y, 0, data) == XorSeq(y, Pad(data))
  {
    hide Xor;
    var p := Pad(data);
    forall k | 0 <= k < 16 ensures XorAt(y, 0, data)[k] == XorSeq(y, p)[k] {
      XorZero(y[k]);
      assert p[k] == if k < |data| then data[k] else 0;
    }
  }

  // ---------- numbers in blocks ----------

  /** The low n bytes of v, most significant first. */
  function BigEndian(v: nat, n: nat): (b: seq<byte>)
    ensures |b| == n
  {
    if n == 0 then [] else BigEndian(v / 256, n - 1) + [v % 256]
  }

  lemma BigEndianLast(u: nat, n: nat)
    requires n > 0
    ensures BigEndian(u, n) == BigEndian(u / 256, n - 1) + [u % 256]
  {
  }

  lemma {:induction false} BigEndianInjective(u: nat, v: nat, n: nat)
    requires BigEndianFits(u, n) && BigEndianFits(v, n) && BigEndian(u, n) == BigEndian(v, n)
    ensures u == v
  {
    if n > 0 {
      assert BigEndian(u, n)[..n - 1] == BigEndian(u / 256, n - 1) && BigEndian(v, n)[..n - 1] == BigEndian(v / 256, n - 1);
      assert BigEndian(u, n)[n - 1] == u % 256 && BigEndian(v, n)[n - 1] == v % 256;
      BigEndianInjective(u / 256, v / 256, n - 1);
    }
  }

  lemma BigEndianNone(u: nat)
    ensures BigEndian(u, 0) == []
  {
  }

  /** Whether v has no more than n bytes. */
  predicate BigEndianFits(v: nat, n: nat) {
    if n == 0 then v == 0 else BigEndianFits(v / 256, n - 1)
  }

  lemma {:induction false} FitsBound(v: nat, n: nat)
    ensures BigEndianFits(v, n) <==> v < Pow2(8 * n)
  {
    hide Pow2;
    if n > 0 {
      FitsBound(v / 256, n - 1);
      Pow2Values();
      Pow2Add(8, 8 * (n - 1));
      var q, w := v / 256, Pow2(8 * (n - 1));
      assert v < 256 * w <==> q < w;
    } else {
      Pow2Zero();
    }
  }

  // ---------- data in pieces ----------

  function Concat(pieces: seq<seq<byte>>): seq<byte> {
    if |pieces| == 0 then [] else Concat(pieces[..|pieces| - 1]) + pieces[|pieces| - 1]
  }

  lemma ConcatNext(pieces: seq<seq<byte>>, i: nat)
    requires i < |pieces|
    ensures Concat(pieces[..i + 1]) == Concat(pieces[..i]) + pieces[i]
  {
    assert pieces[..i + 1][..i] == pieces[..i];
  }

  lemma ConcatNone(pieces: seq<seq<byte>>)
    ensures Concat(pieces[..0]) == []
  {
  }

  lemma {:induction false} ConcatBelow(pieces: seq<seq<byte>>, i: nat)
    requires i <= |pieces|
    ensures |Concat(pieces[..i])| <= |Concat(pieces)|
    decreases |pieces| - i
  {
    if i == |pieces| {
      assert pieces[..i] == pieces;
    } else {
      ConcatNext(pieces, i);
      ConcatBelow(pieces, i + 1);
    }
  }

  // ---------- moving data between buffers ----------

  /** `memcpy` between different buffers. */
  method CopyBytes(from: array<byte>, foff: nat, n: nat, to: array<byte>, toff: nat)
    requires foff + n <= from.Length && toff + n <= to.Length && from != to
    modifies to
    ensures to[toff..toff + n] == from[foff..foff + n]
    ensures to[..toff] == old(to[..toff]) && to[toff + n..] == old(to[toff + n..])
    ensures to[..toff + n] == old(to[..toff]) + from[foff..foff + n]
  {
    ghost var before := to[..];
    for i := 0 to n
      invariant to[..toff + i] == before[..toff] + from[foff..foff + i] && to[toff + n..] == before[toff + n..]
    {
      to[toff + i] := from[foff + i];
      assert to[..toff + i + 1] == to[..toff + i] + [from[foff + i]];
      assert from[foff..foff + i + 1] == from[foff..foff + i] + [from[foff + i]];
    }
    SplitAt(to[..toff + n], before[..toff], from[foff..foff + n]);
    assert to[toff..toff + n] == to[..toff + n][toff..] && to[..toff] == to[..toff + n][..toff];
  }

  lemma SplitAt(s: seq<byte>, a: seq<byte>, b: seq<byte>)
    requires s == a + b
    ensures s[..|a|] == a && s[|a|..] == b
  {
  }

  lemma SliceAt(s: seq<byte>, a: nat, n: nat)
    requires a + n <= |s|
    ensures s[a..][..n] == s[a..a + n]
  {
  }

  /** What a further step of `use` bytes does to the parts of input and output, which may be the same buffer. */
  lemma SlicesOn(in0: seq<byte>, out0: seq<byte>, in1: seq<byte>, out1: seq<byte>, in2: seq<byte>, out2: seq<byte>,
                 ioff: nat, ooff: nat, len: nat, n: nat, use: nat)
    requires |in2| == |in1| == |in0| && |out2| == |out1| == |out0| && ioff + len <= |in0| && ooff + len <= |out0| && n + use <= len
    requires in1[ioff + n..] == in0[ioff + n..] && out1[..ooff] == out0[..ooff] && out1[ooff + len..] == out0[ooff + len..]
    requires out2[..ooff + n] == out1[..ooff + n] && out2[ooff + n + use..] == out1[ooff + n + use..]
    requires in2 == in1 || (in2 == out2 && in1 == out1 && ioff == ooff)
    ensures in2[ioff + n + use..] == in0[ioff + n + use..] && out2[..ooff] == out0[..ooff] && out2[ooff + len..] == out0[ooff + len..]
    ensures in0[ioff..ioff + n + use] == in0[ioff..ioff + n] + in1[ioff + n..ioff + n + use]
    ensures out2[ooff..ooff + n + use] == out1[ooff..ooff + n] + out2[ooff + n..ooff + n + use]
  {
    SliceAt(in1, ioff + n, use);
    SliceAt(in0, ioff + n, use);
    assert out2[ooff..ooff + n] == out2[..ooff + n][ooff..] == out1[ooff..ooff + n];
    assert out2[ooff + len..] == out2[ooff + n + use..][len - n - use..];
    assert out2[..ooff] == out2[..ooff + n][..ooff];
    assert in2[ioff + n + use..] == in1[ioff + n + use..] == in1[ioff + n..][use..];
  }
}
