/** CCM as the standard defines it: one shot, over whole messages. */
module CcmSpec {
  import opened Words
  import opened Products
  import opened Blocks

  datatype Mode = Encrypt | Decrypt | StarEncrypt | StarDecrypt
  {
    predicate Star() {
      StarEncrypt? || StarDecrypt?
    }
    predicate Encrypts() {
      Encrypt? || StarEncrypt?
    }
  }

  predicate NonceOk(nonce: seq<byte>) {
    7 <= |nonce| <= 13
  }

  predicate TagLengthOk(t: nat) {
    t != 2 && t <= 16 && t % 2 == 0
  }

  /** The flags of the first block.  Without a tag the subtraction of two wraps and sets all upper bits. */
  function Flags(a: nat, t: nat, q: nat): byte
    requires TagLengthOk(t) && 2 <= q <= 8
  {
    if t == 0 then 0xF8 + (q - 1) else (if a > 0 then 0x40 else 0) + 8 * ((t - 2) / 2) + (q - 1)
  }

  function FirstBlock(nonce: seq<byte>, a: nat, p: nat, t: nat): Block
    requires NonceOk(nonce) && TagLengthOk(t)
  {
    [Flags(a, t, 15 - |nonce|)] + nonce + BigEndian(p, 15 - |nonce|)
  }

  function CtrHead(nonce: seq<byte>): seq<byte>
    requires NonceOk(nonce)
  {
    [(14 - |nonce|) as byte] + nonce
  }

  function CtrBlock(nonce: seq<byte>, i: nat): Block
    requires NonceOk(nonce)
  {
    CtrHead(nonce) + BigEndian(i, 15 - |nonce|)
  }

  /** The associated data, preceded by its length. */
  function AdStream(ad: seq<byte>): seq<byte>
    requires |ad| < 0xFF00
  {
    if |ad| == 0 then [] else [|ad| / 256, |ad| % 256] + ad
  }

  /** The blocks that are authenticated. */
  function Formatted(first: Block, ad: seq<byte>, text: seq<byte>): (f: seq<byte>)
    ensures |f| % 16 == 0
  {
    WholeBlocks(|first|, |Pad(ad)|, |Pad(text)|);
    first + Pad(ad) + Pad(text)
  }

  lemma WholeBlocks(a: nat, b: nat, c: nat)
    requires a % 16 == 0 && b % 16 == 0 && c % 16 == 0
    ensures (a + b + c) % 16 == 0
  {
  }

  /** The CBC-MAC value over first block, associated data and payload, each padded with zero bytes. */
  function Mac(E: Block -> Block, nonce: seq<byte>, ad: seq<byte>, text: seq<byte>, t: nat): Block
    requires NonceOk(nonce) && TagLengthOk(t) && |ad| < 0xFF00
  {
    Chain(E, ZeroBytes(16), Formatted(FirstBlock(nonce, |ad|, if t == 0 then 0 else |text|, t), AdStream(ad), text))
  }

  function Tag(E: Block -> Block, nonce: seq<byte>, ad: seq<byte>, text: seq<byte>, t: nat): (tag: seq<byte>)
    requires NonceOk(nonce) && TagLengthOk(t) && |ad| < 0xFF00
    ensures |tag| == t
  {
    XorSeq(Mac(E, nonce, ad, text, t), E(CtrBlock(nonce, 0)))[..t]
  }

  function KeyByte(E: Block -> Block, nonce: seq<byte>, i: nat): byte
    requires NonceOk(nonce)
  {
    E(CtrBlock(nonce, 1 + i / 16))[i % 16]
  }

  /** Counter-mode encryption of the part of a message that starts at position `pos`. */
  function CtrXor(E: Block -> Block, nonce: seq<byte>, pos: nat, data: seq<byte>): (c: seq<byte>)
    requires NonceOk(nonce)
    ensures |c| == |data|
  {
    seq(|data|, k requires 0 <= k < |data| => Xor(data[k], KeyByte(E, nonce, pos + k)))
  }

  /** Decryption undoes encryption, so the tag over what was decrypted is the tag over what was encrypted. */
  lemma RoundTrip(E: Block -> Block, nonce: seq<byte>, ad: seq<byte>, text: seq<byte>, t: nat)
    requires NonceOk(nonce) && TagLengthOk(t) && |ad| < 0xFF00
    ensures var c := CtrXor(E, nonce, 0, text);
      CtrXor(E, nonce, 0, c) == text && Tag(E, nonce, ad, CtrXor(E, nonce, 0, c), t) == Tag(E, nonce, ad, text, t)
  {
    CtrTwice(E, nonce, 0, text);
  }

  lemma CtrTwice(E: Block -> Block, nonce: seq<byte>, pos: nat, data: seq<byte>)
    requires NonceOk(nonce)
    ensures CtrXor(E, nonce, pos, CtrXor(E, nonce, pos, data)) == data
  {
    hide Xor, KeyByte;
    var c := CtrXor(E, nonce, pos, data);
    forall k | 0 <= k < |data| ensures CtrXor(E, nonce, pos, c)[k] == data[k] {
      XorTwice(data[k], KeyByte(E, nonce, pos + k));
    }
  }

  lemma CtrAppend(E: Block -> Block, nonce: seq<byte>, pos: nat, a: seq<byte>, b: seq<byte>)
    requires NonceOk(nonce)
    ensures CtrXor(E, nonce, pos, a + b) == CtrXor(E, nonce, pos, a) + CtrXor(E, nonce, pos + |a|, b)
  {
    hide Xor, KeyByte;
    var l, r := CtrXor(E, nonce, pos, a + b), CtrXor(E, nonce, pos, a) + CtrXor(E, nonce, pos + |a|, b);
    forall k | 0 <= k < |l| ensures l[k] == r[k] {
      if k >= |a| {
        assert pos + |a| + (k - |a|) == pos + k;
      }
    }
  }

  // ---------- the demands of section 5.4 and appendix A of SP 800-38C ----------

  /** The fields of the first byte. */
  lemma FlagsBits(a: nat, t: nat, q: nat)
    requires TagLengthOk(t) && 4 <= t && 2 <= q <= 8
    ensures var f := Flags(a, t, q);
      && f / 128 == 0 && (f / 64 % 2 == 1 <==> a > 0) && f / 8 % 8 == (t - 2) / 2 && f % 8 == q - 1
  {
    var m, h := (t - 2) / 2, if a > 0 then 1 else 0;
    var f := 64 * h + 8 * m + (q - 1);
    DivModUnique(f, 128, 0, f);
    DivModUnique(f, 64, h, 8 * m + (q - 1));
    DivModUnique(f, 8, 8 * h + m, q - 1);
    DivModUnique(8 * h + m, 8, h, m);
  }

  lemma FirstBlockParts(nonce: seq<byte>, a: nat, p: nat, t: nat)
    requires NonceOk(nonce) && TagLengthOk(t)
    ensures var b, n := FirstBlock(nonce, a, p, t), |nonce|;
      b[0] == Flags(a, t, 15 - n) && b[1..1 + n] == nonce && b[1 + n..] == BigEndian(p, 15 - n)
  {
    hide Flags, BigEndian;
  }

  /** The first block determines the nonce. */
  lemma NonceDetermined(n1: seq<byte>, a1: nat, p1: nat, t1: nat, n2: seq<byte>, a2: nat, p2: nat, t2: nat)
    requires NonceOk(n1) && NonceOk(n2) && TagLengthOk(t1) && TagLengthOk(t2) && 4 <= t1 && 4 <= t2
    requires FirstBlock(n1, a1, p1, t1) == FirstBlock(n2, a2, p2, t2)
    ensures n1 == n2 && t1 == t2 && (a1 > 0 <==> a2 > 0)
  {
    hide Flags, BigEndian, FirstBlock;
    FirstBlockParts(n1, a1, p1, t1);
    FirstBlockParts(n2, a2, p2, t2);
    FlagsBits(a1, t1, 15 - |n1|);
    FlagsBits(a2, t2, 15 - |n2|);
  }

  /** The first block is no counter block, whatever the nonces. */
  lemma CounterApart(nonce: seq<byte>, a: nat, p: nat, t: nat, other: seq<byte>, i: nat)
    requires NonceOk(nonce) && TagLengthOk(t) && 4 <= t && NonceOk(other)
    ensures FirstBlock(nonce, a, p, t) != CtrBlock(other, i)
  {
    hide Flags, BigEndian, FirstBlock;
    FirstBlockParts(nonce, a, p, t);
    FlagsBits(a, t, 15 - |nonce|);
    assert CtrBlock(other, i)[0] == 14 - |other|;
  }

  /** Different counters have different blocks. */
  lemma CountersDiffer(nonce: seq<byte>, i: nat, j: nat)
    requires NonceOk(nonce) && BigEndianFits(i, 15 - |nonce|) && BigEndianFits(j, 15 - |nonce|) && i != j
    ensures CtrBlock(nonce, i) != CtrBlock(nonce, j)
  {
    hide BigEndian, BigEndianFits;
    var n := 1 + |nonce|;
    assert CtrBlock(nonce, i)[n..] == BigEndian(i, 16 - n) && CtrBlock(nonce, j)[n..] == BigEndian(j, 16 - n);
    if CtrBlock(nonce, i) == CtrBlock(nonce, j) {
      BigEndianInjective(i, j, 16 - n);
    }
  }

  /** Under one nonce, what is authenticated for one input is no beginning of what is for another. */
  lemma PrefixFree(nonce: seq<byte>, ad: seq<byte>, text: seq<byte>, ad': seq<byte>, text': seq<byte>, t: nat)
    requires NonceOk(nonce) && TagLengthOk(t) && 4 <= t && |ad| < 0xFF00 && |ad'| < 0xFF00
    requires BigEndianFits(|text|, 15 - |nonce|) && BigEndianFits(|text'|, 15 - |nonce|)
    requires Input(nonce, ad, text, t) <= Input(nonce, ad', text', t)
    ensures ad == ad' && text == text'
  {
    hide FirstBlock, Pad, AdStream, Input, BigEndianFits;
    SameFirst(nonce, ad, text, ad', text', t);
    SameLengths(nonce, |ad|, |text|, |ad'|, |text'|, t);
    SameAd(ad, ad', Pad(text), Pad(text'));
    SameTail(Pad(AdStream(ad)), Pad(text), Pad(text'));
    PadLength(text);
    PadLength(text');
    assert text == Pad(text)[..|text|] && text' == Pad(text')[..|text'|];
  }

  lemma SameFirst(nonce: seq<byte>, ad: seq<byte>, text: seq<byte>, ad': seq<byte>, text': seq<byte>, t: nat)
    requires NonceOk(nonce) && TagLengthOk(t) && |ad| < 0xFF00 && |ad'| < 0xFF00
    requires Input(nonce, ad, text, t) <= Input(nonce, ad', text', t)
    ensures FirstBlock(nonce, |ad|, |text|, t) == FirstBlock(nonce, |ad'|, |text'|, t)
    ensures Pad(AdStream(ad)) + Pad(text) <= Pad(AdStream(ad')) + Pad(text')
  {
    hide FirstBlock, Pad, AdStream;
    var b, b' := FirstBlock(nonce, |ad|, |text|, t), FirstBlock(nonce, |ad'|, |text'|, t);
    SameBeginning(b, Pad(AdStream(ad)), Pad(text), b', Pad(AdStream(ad')), Pad(text'));
  }

  lemma SameLengths(nonce: seq<byte>, a: nat, p: nat, a': nat, p': nat, t: nat)
    requires NonceOk(nonce) && TagLengthOk(t) && 4 <= t && FirstBlock(nonce, a, p, t) == FirstBlock(nonce, a', p', t)
    requires BigEndianFits(p, 15 - |nonce|) && BigEndianFits(p', 15 - |nonce|)
    ensures p == p' && (a > 0 <==> a' > 0)
  {
    hide FirstBlock, BigEndian, BigEndianFits, Flags;
    FirstBlockParts(nonce, a, p, t);
    FirstBlockParts(nonce, a', p', t);
    BigEndianInjective(p, p', 15 - |nonce|);
    NonceDetermined(nonce, a, p, t, nonce, a', p', t);
  }

  function Input(nonce: seq<byte>, ad: seq<byte>, text: seq<byte>, t: nat): seq<byte>
    requires NonceOk(nonce) && TagLengthOk(t) && |ad| < 0xFF00
  {
    Formatted(FirstBlock(nonce, |ad|, |text|, t), AdStream(ad), text)
  }

  lemma SameBeginning(b: Block, x: seq<byte>, y: seq<byte>, b': Block, x': seq<byte>, y': seq<byte>)
    requires b + x + y <= b' + x' + y'
    ensures b == b' && x + y <= x' + y'
  {
    assert b == (b + x + y)[..16] && b' == (b' + x' + y')[..16];
    assert b + x + y == b + (x + y) && b' + x' + y' == b' + (x' + y');
    assert (b + (x + y))[16..] == x + y && (b' + (x' + y'))[16..] == x' + y';
  }

  lemma SameTail(x: seq<byte>, y: seq<byte>, y': seq<byte>)
    requires x + y <= x + y'
    ensures y <= y'
  {
    assert y == (x + y)[|x|..] && y' == (x + y')[|x|..];
  }

  lemma PadLength(data: seq<byte>)
    ensures |Pad(data)| == (|data| + 15) / 16 * 16 && Pad(data)[..|data|] == data
  {
    var q, r := |data| / 16, |data| % 16;
    if r == 0 {
      DivModUnique(|data| + 15, 16, q, 15);
    } else {
      DivModUnique(|data| + 15, 16, q + 1, r - 1);
    }
  }

  lemma SameAd(ad: seq<byte>, ad': seq<byte>, y: seq<byte>, y': seq<byte>)
    requires |ad| < 0xFF00 && |ad'| < 0xFF00 && (|ad| > 0 <==> |ad'| > 0)
    requires Pad(AdStream(ad)) + y <= Pad(AdStream(ad')) + y'
    ensures ad == ad'
  {
    hide Pad;
    var s, s' := AdStream(ad), AdStream(ad');
    PadLength(s);
    PadLength(s');
    var x, x' := Pad(s), Pad(s');
    if |ad| > 0 {
      assert (x + y)[0] == x[0] == x[..|s|][0] == |ad| / 256 && (x + y)[1] == x[1] == x[..|s|][1] == |ad| % 256;
      assert (x' + y')[0] == x'[0] == x'[..|s'|][0] == |ad'| / 256 && (x' + y')[1] == x'[1] == x'[..|s'|][1] == |ad'| % 256;
      assert |ad| == |ad'|;
      assert x == (x + y)[..|x|] == (x' + y')[..|x|] == x';
      assert ad == s[2..] && ad' == s'[2..];
    }
  }

  /** The formatted data of Example 1 in appendix C of SP 800-38C, and its first counter block. */
  lemma Example()
    ensures var nonce := [0x10, 0x11, 0x12, 0x13, 0x14, 0x15, 0x16];
      && Input(nonce, [0, 1, 2, 3, 4, 5, 6, 7], [0x20, 0x21, 0x22, 0x23], 4)
        == [0x4F] + nonce + [0, 0, 0, 0, 0, 0, 0, 4]
          + ([0, 8, 0, 1, 2, 3, 4, 5, 6, 7] + ZeroBytes(6)) + ([0x20, 0x21, 0x22, 0x23] + ZeroBytes(12))
      && CtrBlock(nonce, 1) == [7] + nonce + [0, 0, 0, 0, 0, 0, 0, 1]
  {
    hide BigEndian;
    SmallCount(4);
    SmallCount(1);
    assert Flags(8, 4, 8) == 0x4F;
  }

  lemma SmallCount(x: byte)
    ensures BigEndian(x, 8) == [0, 0, 0, 0, 0, 0, 0, x]
  {
    assert BigEndian(x, 8) == BigEndian(0, 7) + [x];
    assert BigEndian(0, 4) == [0, 0, 0, 0];
    assert BigEndian(0, 7) == [0, 0, 0, 0, 0, 0, 0];
  }

  /** The tag: the last value of the CBC chain over the formatted data, with the key block of counter 0. */
  lemma TagIs(E: Block -> Block, nonce: seq<byte>, ad: seq<byte>, text: seq<byte>, t: nat, y: seq<Block>, i: nat)
    requires NonceOk(nonce) && TagLengthOk(t) && |ad| < 0xFF00 && i < t && 4 <= t
    requires var f := Input(nonce, ad, text, t);
      && |f| == 16 * |y| && 0 < |y| && y[0] == E(BlockAt(f, 0))
      && forall j :: 0 < j < |y| ==> y[j] == E(XorSeq(y[j - 1], BlockAt(f, j)))
    ensures Tag(E, nonce, ad, text, t)[i] == Xor(y[|y| - 1][i], E([(14 - |nonce|) as byte] + nonce + ZeroBytes(15 - |nonce|))[i])
  {
    hide Formatted, FirstBlock, AdStream, Chain, BigEndian, XorSeq, Xor;
    var f, z := Input(nonce, ad, text, t), ZeroBytes(16);
    XorSeqZero(BlockAt(f, 0));
    ChainIs(E, z, f, y);
    ZeroCounter(nonce);
    TagByte(Mac(E, nonce, ad, text, t), E(CtrBlock(nonce, 0)), t, i);
  }

  lemma TagByte(a: Block, b: Block, t: nat, i: nat)
    requires i < t <= 16
    ensures XorSeq(a, b)[..t][i] == Xor(a[i], b[i])
  {
    hide Xor;
  }

  lemma XorSeqZero(b: Block)
    ensures XorSeq(ZeroBytes(16), b) == b
  {
    hide Xor;
    forall k | 0 <= k < 16 ensures XorSeq(ZeroBytes(16), b)[k] == b[k] {
      XorZero(b[k]);
    }
  }

  lemma ZeroCounter(nonce: seq<byte>)
    requires NonceOk(nonce)
    ensures CtrBlock(nonce, 0) == [(14 - |nonce|) as byte] + nonce + ZeroBytes(15 - |nonce|)
  {
    hide BigEndian;
    ZeroDigits(15 - |nonce|);
  }

  lemma {:induction false} ZeroDigits(n: nat)
    ensures BigEndian(0, n) == ZeroBytes(n)
  {
    if n > 0 {
      ZeroDigits(n - 1);
    }
  }

  /** Counter mode: block j of the message with the key block of counter j + 1. */
  lemma CtrXorBlock(E: Block -> Block, nonce: seq<byte>, text: seq<byte>, j: nat)
    requires NonceOk(nonce) && 16 * j + 16 <= |text|
    ensures BlockAt(CtrXor(E, nonce, 0, text), j) == XorSeq(BlockAt(text, j), E(CtrBlock(nonce, j + 1)))
  {
    hide CtrBlock, CtrXor, XorSeq;
    var a, b, c := text[..16 * j], BlockAt(text, j), text[16 * j + 16..];
    assert text == a + b + c;
    CtrAppend(E, nonce, 0, a + b, c);
    CtrAppend(E, nonce, 0, a, b);
    assert BlockAt(CtrXor(E, nonce, 0, text), j) == CtrXor(E, nonce, 16 * j, b);
    KeyBlockIs(E, nonce, j, 16 * j, b);
  }

  lemma KeyBlockIs(E: Block -> Block, nonce: seq<byte>, j: nat, n: nat, b: Block)
    requires NonceOk(nonce) && n == 16 * j
    ensures CtrXor(E, nonce, n, b) == XorSeq(b, E(CtrBlock(nonce, j + 1)))
  {
    hide Xor, CtrBlock, KeyByte;
    var l, r := CtrXor(E, nonce, n, b), XorSeq(b, E(CtrBlock(nonce, j + 1)));
    forall k | 0 <= k < 16 ensures l[k] == r[k] {
      KeyByteAt(E, nonce, j, n, k);
    }
  }

  lemma KeyByteAt(E: Block -> Block, nonce: seq<byte>, j: nat, n: nat, k: nat)
    requires NonceOk(nonce) && k < 16 && n == 16 * j
    ensures KeyByte(E, nonce, n + k) == E(CtrBlock(nonce, j + 1))[k]
  {
    hide CtrBlock;
    DivModUnique(n + k, 16, j, k);
  }

  /** A counter block in numbers. */
  lemma CounterIs(nonce: seq<byte>, i: nat)
    requires NonceOk(nonce)
    ensures CtrBlock(nonce, i) == [(14 - |nonce|) as byte] + nonce + BigEndian(i, 15 - |nonce|)
  {
    hide BigEndian;
  }

  /** The stages of the chain as the streaming code computes them. */
  function AfterFirst(E: Block -> Block, nonce: seq<byte>, a: nat, p: nat, t: nat): Block
    requires NonceOk(nonce) && TagLengthOk(t)
  {
    E(FirstBlock(nonce, a, p, t))
  }

  function AfterAd(E: Block -> Block, y: Block, ad: seq<byte>): Block
    requires |ad| < 0xFF00
  {
    Chain(E, y, Pad(AdStream(ad)))
  }

  lemma Stages(E: Block -> Block, nonce: seq<byte>, ad: seq<byte>, text: seq<byte>, t: nat, p: nat)
    requires NonceOk(nonce) && TagLengthOk(t) && |ad| < 0xFF00 && p == if t == 0 then 0 else |text|
    ensures Mac(E, nonce, ad, text, t) == Chain(E, AfterAd(E, AfterFirst(E, nonce, |ad|, p, t), ad), Pad(text))
  {
    hide Chain, Flags, BigEndian, Pad, AdStream;
    var b := FirstBlock(nonce, |ad|, p, t);
    var z := ZeroBytes(16);
    ChainOne(E, z, b);
    XorSeqZero(b);
    ChainAppend(E, z, b, Pad(AdStream(ad)));
    ChainAppend(E, z, b + Pad(AdStream(ad)), Pad(text));
  }

  // ---------- streaming ----------

  /** The chain value during a stream: what has been fed, flushed when the stream is complete. */
  function StreamState(E: Block -> Block, y: Block, stream: seq<byte>, whole: bool): Block {
    if whole then Flush(E, Feed(E, y, 0, stream), |stream|) else Feed(E, y, 0, stream)
  }

  /** A chunk that stays within a block moves the stream on. */
  lemma Advance(E: Block -> Block, y: Block, stream: seq<byte>, chunk: seq<byte>, whole: bool)
    requires 0 < |chunk| && |stream| % 16 + |chunk| <= 16
    ensures var off := |stream| % 16; var z := XorAt(Feed(E, y, 0, stream), off, chunk);
      (if off + |chunk| == 16 || whole then E(z) else z) == StreamState(E, y, stream + chunk, whole)
  {
    hide Feed, XorAt;
    var off := |stream| % 16;
    var f := Feed(E, y, 0, stream);
    FeedAppend(E, y, 0, stream, chunk);
    FeedOffset(E, f, |stream|, off, chunk);
    FeedChunk(E, f, off, chunk);
    Boundary(|stream|, |chunk|);
  }

  lemma Boundary(n: nat, m: nat)
    requires 0 < m && n % 16 + m <= 16
    ensures (n + m) % 16 == 0 <==> n % 16 + m == 16
  {
  }

  /** The block that the two length bytes start. */
  lemma LengthBytes(E: Block -> Block, y: Block, hi: byte, lo: byte)
    ensures Feed(E, y, 0, [hi, lo]) == y[0 := Xor(y[0], hi)][1 := Xor(y[1], lo)]
  {
    hide Feed, Xor;
    FeedChunk(E, y, 0, [hi, lo]);
    assert XorAt(y, 0, [hi, lo]) == y[0 := Xor(y[0], hi)][1 := Xor(y[1], lo)];
  }

  /** Counting up from the last byte. */
  lemma BigEndianNext(u: nat, n: nat)
    requires n > 0
    ensures u % 256 != 255 ==> BigEndian(u + 1, n) == BigEndian(u / 256, n - 1) + [u % 256 + 1]
    ensures u % 256 == 255 ==> BigEndian(u + 1, n) == BigEndian(u / 256 + 1, n - 1) + [0]
  {
  }
}

/** The streaming implementation. */
module Ccm {
  import opened Words
  import opened Blocks
  import opened CcmSpec

  datatype CcmStatus = Ok | BadInput | AuthFailed | Corruption

  /** One call of the block cipher: 16 bytes in place. */
  method EncryptBlock(E: Block -> Block, a: array<byte>)
    requires a.Length == 16
    modifies a
    ensures a[..] == E(old(a[..]))
  {
    var b := E(a[..]);
    for i := 0 to 16
      invariant a[..i] == b[..i]
    {
      a[i] := b[i];
    }
  }

  /** `y[i + offset] ^= data[i]` */
  method XorInto(y: array<byte>, offset: nat, data: seq<byte>)
    requires offset + |data| <= y.Length
    modifies y
    ensures y[..] == XorAt(old(y[..]), offset, data)
  {
    hide Xor;
    for i := 0 to |data|
      invariant forall k :: 0 <= k < y.Length ==>
        y[k] == if offset <= k < offset + i then Xor(old(y[k]), data[k - offset]) else old(y[k])
    {
      y[i + offset] := Xor(y[i + offset], data[i]);
    }
  }

  /** `mbedtls_ccm_crypt` with the encrypted counter block in `key`: part of a block, also in place. */
  method Crypt(key: seq<byte>, input: array<byte>, ioff: nat, output: array<byte>, ooff: nat)
    requires ioff + |key| <= input.Length && ooff + |key| <= output.Length && (input == output ==> ioff == ooff)
    modifies output
    ensures output[ooff..ooff + |key|] == XorSeq(old(input[ioff..ioff + |key|]), key)
    ensures output[..ooff] == old(output[..ooff]) && output[ooff + |key|..] == old(output[ooff + |key|..])
  {
    hide Xor, XorSeq;
    ghost var in0, o := input[..], output[..];
    for i := 0 to |key|
      invariant forall k :: 0 <= k < output.Length ==>
        output[k] == if ooff <= k < ooff + i then Xor(in0[k - ooff + ioff], key[k - ooff]) else o[k]
      invariant forall k :: ioff + i <= k < input.Length ==> input[k] == in0[k]
    {
      output[ooff + i] := Xor(input[ioff + i], key[i]);
    }
    XorSlices(in0, ioff, key, output[..], ooff);
  }

  lemma XorSlices(in0: seq<byte>, ioff: nat, key: seq<byte>, out: seq<byte>, ooff: nat)
    requires ioff + |key| <= |in0| && ooff + |key| <= |out|
    requires forall k :: ooff <= k < ooff + |key| ==> out[k] == Xor(in0[k - ooff + ioff], key[k - ooff])
    ensures out[ooff..ooff + |key|] == XorSeq(in0[ioff..ioff + |key|], key)
  {
    hide Xor;
    var l, r := out[ooff..ooff + |key|], XorSeq(in0[ioff..ioff + |key|], key);
    forall k | 0 <= k < |key| ensures l[k] == r[k] {
      assert l[k] == out[ooff + k];
    }
  }

  /** Decryption goes through a local buffer, which is also what is authenticated. */
  method Decipher(key: seq<byte>, input: array<byte>, ioff: nat, output: array<byte>, ooff: nat) returns (plain: seq<byte>)
    requires |key| <= 16
    requires ioff + |key| <= input.Length && ooff + |key| <= output.Length && (input == output ==> ioff == ooff)
    modifies output
    ensures plain == output[ooff..ooff + |key|] == XorSeq(old(input[ioff..ioff + |key|]), key)
    ensures output[..ooff] == old(output[..ooff]) && output[ooff + |key|..] == old(output[ooff + |key|..])
  {
    hide XorSeq;
    var local := new byte[16](_ => 0);
    Crypt(key, input, ioff, local, 0);
    plain := local[0..|key|];
    CopyBytes(local, 0, |key|, output, ooff);
  }

  /** A chunk is added to the chain value, which is encrypted when the block is full or the stream complete. */
  method Absorb(E: Block -> Block, y: array<byte>, offset: nat, chunk: seq<byte>, whole: bool,
                ghost y0: Block, ghost seen: seq<byte>)
    requires y.Length == 16 && offset == |seen| % 16 && 0 < |chunk| && offset + |chunk| <= 16
    requires y[..] == StreamState(E, y0, seen, false)
    modifies y
    ensures y[..] == StreamState(E, y0, seen + chunk, whole)
  {
    hide Feed, XorAt, Flush;
    XorInto(y, offset, chunk);
    Advance(E, y0, seen, chunk, whole);
    if |chunk| + offset == 16 || whole {
      EncryptBlock(E, y);
    }
  }

  lemma CountOne(n: nat)
    requires 0 < n
    ensures BigEndian(1, n) == ZeroBytes(n - 1) + [1]
  {
    ZeroDigits(n - 1);
  }

  class CcmContext {
    const E: Block -> Block
    const y: array<byte>
    const ctr: array<byte>
    var plaintextLen: nat
    var addLen: nat
    var tagLen: nat
    var processed: nat
    var q: nat
    var mode: Mode
    // the bits of `state`
    var started: bool
    var lengthsSet: bool
    var adStarted: bool
    var adFinished: bool
    var error: bool
    // what the caller has supplied so far
    ghost var nonce: seq<byte>
    ghost var ad: seq<byte>
    ghost var text: seq<byte>

    ghost predicate Shape()
      reads this
    {
      y.Length == 16 && ctr.Length == 16 && y != ctr
    }

    /** A fresh context, and one whose last operation was finished. */
    ghost predicate Clean()
      reads this, y, ctr
    {
      Shape() && !started && !lengthsSet && !adStarted && !adFinished && !error && y[..] == ZeroBytes(16)
    }

    ghost predicate CounterReady()
      reads this, y, ctr
    {
      && Shape() && NonceOk(nonce) && q == 15 - |nonce| && ctr[..16 - q] == CtrHead(nonce)
    }

    /** Nonce known, lengths not. */
    ghost predicate NonceGiven()
      reads this, y, ctr
    {
      && CounterReady() && started && !lengthsSet && !adStarted && !adFinished && !error
      && ctr[..] == CtrBlock(nonce, 1) && y[..] == [0] + nonce + ZeroBytes(q)
    }

    /** Lengths known, nonce not. */
    ghost predicate LengthsGiven()
      reads this, y, ctr
    {
      && Shape() && !started && lengthsSet && !adStarted && !adFinished && !error
      && y[..] == ZeroBytes(16) && processed == 0 && TagLengthOk(tagLen) && addLen < 0xFF00
    }

    /** The chain value after the first block. */
    ghost function Y0(): Block
      reads this
      requires NonceOk(nonce) && TagLengthOk(tagLen)
    {
      AfterFirst(E, nonce, addLen, plaintextLen, tagLen)
    }

    /** Both are known, and the calls so far were in order. */
    ghost predicate Ready()
      reads this, y, ctr
    {
      && CounterReady() && started && lengthsSet && !error && TagLengthOk(tagLen)
      && |ad| <= addLen < 0xFF00
      && (tagLen == 0 ==> mode.Star() && plaintextLen == 0)
      && (tagLen != 0 ==> |text| <= plaintextLen)
      && adStarted == (|ad| > 0) && adFinished == (|ad| > 0 && |ad| == addLen)
      && (|ad| < addLen ==> text == [])
      && if |ad| < addLen then AdState() else TextState()
    }

    /** Associated data is still to come. */
    ghost predicate AdState()
      reads this, y, ctr
      requires Shape() && NonceOk(nonce) && TagLengthOk(tagLen) && addLen < 0xFF00
    {
      && processed == |ad| && ctr[..] == CtrBlock(nonce, 1)
      && y[..] == if |ad| == 0 then Y0() else Feed(E, Y0(), 0, Header() + ad)
    }

    ghost function Header(): seq<byte>
      reads this
      requires addLen < 0xFF00
    {
      [addLen / 256, addLen % 256]
    }

    /** All associated data has been seen. */
    ghost predicate TextState()
      reads this, y, ctr
      requires Shape() && NonceOk(nonce) && TagLengthOk(tagLen) && |ad| == addLen < 0xFF00
    {
      && processed == |text|
      && y[..] == StreamState(E, AfterAd(E, Y0(), ad), text, |text| == plaintextLen)
      && (|text| % 16 == 0 || |text| != plaintextLen ==> ctr[..] == CtrBlock(nonce, 1 + |text| / 16))
    }

    constructor (E: Block -> Block)
      ensures Clean() && this.E == E && fresh(y) && fresh(ctr)
    {
      this.E := E;
      y := new byte[16](_ => 0);
      ctr := new byte[16](_ => 0);
      plaintextLen, addLen, tagLen, processed, q := 0, 0, 0, 0, 0;
      mode := Encrypt;
      started, lengthsSet, adStarted, adFinished, error := false, false, false, false, false;
      nonce, ad, text := [], [], [];
    }

    /** When nonce and lengths do not contradict each other. */
    ghost predicate Accepted()
      reads this
    {
      if tagLen == 0 then mode.Star() else BigEndianFits(plaintextLen, q)
    }

    /** `ccm_calculate_first_block_if_ready`, when both are there. */
    method FirstBlockIfReady() returns (st: CcmStatus)
      requires CounterReady() && started && lengthsSet && !adStarted && !adFinished && !error
      requires ctr[..] == CtrBlock(nonce, 1) && y[..] == [0] + nonce + ZeroBytes(q)
      requires processed == 0 && TagLengthOk(tagLen) && addLen < 0xFF00
      modifies this, y
      ensures st == if old(Accepted()) then Ok else BadInput
      ensures nonce == old(nonce) && mode == old(mode) && addLen == old(addLen) && tagLen == old(tagLen)
      ensures st.Ok? ==> Ready() && ad == [] && text == [] && plaintextLen == if tagLen == 0 then 0 else old(plaintextLen)
    {
      hide Feed, Chain, Flags, BigEndian, BigEndianFits, CtrBlock, StreamState, AfterAd, FirstBlock;
      hide CcmContext.Ready;
      ad, text := [], [];
      if tagLen == 0 {
        if mode.Star() {
          plaintextLen := 0;
          FitsZero(q);
        } else {
          return BadInput;
        }
      }
      var left := WriteFirstBlock();
      if left > 0 {
        error := true;
        return BadInput;
      }
      EncryptBlock(E, y);
      ReadyAtStart();
      st := Ok;
    }

    /** The first block has been encrypted and nothing has been supplied. */
    lemma ReadyAtStart()
      requires CounterReady() && started && lengthsSet && !adStarted && !adFinished && !error
      requires ctr[..] == CtrBlock(nonce, 1) && processed == 0 && TagLengthOk(tagLen) && addLen < 0xFF00
      requires y[..] == Y0() && ad == [] && text == [] && (tagLen == 0 ==> mode.Star() && plaintextLen == 0)
      ensures Ready()
    {
      hide Feed, Chain, Flags, BigEndian, Pad, CtrBlock, StreamState, AfterAd, FirstBlock;
      NoAd(Y0());
    }

    /** Flags, nonce and length; what is left over of the length did not fit. */
    method WriteFirstBlock() returns (left: nat)
      requires Shape() && NonceOk(nonce) && q == 15 - |nonce| && y[..] == [0] + nonce + ZeroBytes(q) && TagLengthOk(tagLen)
      modifies y
      ensures y[..] == FirstBlock(nonce, addLen, plaintextLen, tagLen)
      ensures left > 0 <==> !BigEndianFits(plaintextLen, q)
      ensures 4 <= tagLen ==>
        (y[0] / 128 == 0 && (y[0] / 64 % 2 == 1 <==> addLen > 0) && y[0] / 8 % 8 == (tagLen - 2) / 2 && y[0] % 8 == q - 1)
      ensures tagLen == 0 ==> y[0] == 0xF8 + (q - 1)
    {
      hide Flags, BigEndian, BigEndianFits;
      if tagLen >= 4 {
        FlagsBits(addLen, tagLen, q);
      } else {
        FlagsWithoutTag(addLen, q);
      }
      y[0] := Flags(addLen, tagLen, q);
      ghost var b := y[..];
      assert b == [Flags(addLen, tagLen, q)] + nonce + ZeroBytes(q);
      assert b[..16 - q] == [Flags(addLen, tagLen, q)] + nonce;
      left := WriteLength(plaintextLen);
    }

    static lemma FlagsWithoutTag(a: nat, q: nat)
      requires 2 <= q <= 8
      ensures Flags(a, 0, q) == 0xF8 + (q - 1)
    {
    }

    lemma {:induction false} FitsZero(n: nat)
      ensures BigEndianFits(0, n)
    {
      if n > 0 {
        FitsZero(n - 1);
      }
    }

    /** Without associated data the payload starts right after the first block. */
    lemma NoAd(y: Block)
      ensures AfterAd(E, y, []) == y && StreamState(E, y, [], true) == StreamState(E, y, [], false) == y
    {
      assert Pad(AdStream([])) == [];
    }

    /** The loop that writes the payload length into the last q bytes; what is left over did not fit. */
    method WriteLength(p: nat) returns (left: nat)
      requires Shape() && q <= 16
      modifies y
      ensures y[..] == old(y[..])[..16 - q] + BigEndian(p, q)
      ensures left > 0 <==> !BigEndianFits(p, q)
    {
      hide BigEndian, BigEndianFits, Writing;
      left := p;
      ghost var before := y[..];
      ghost var tail: seq<byte> := [];
      NothingWritten(p, q);
      for i := 0 to q
        invariant |tail| == i && y[..] == before[..16 - i] + tail
        invariant Writing(p, q, left, q - i, tail)
      {
        LengthStep(p, q, left, q - i, tail);
        ghost var x: byte := left % 256;
        y[15 - i] := left % 256;
        tail := [x] + tail;
        assert y[..] == before[..15 - i] + tail;
        left := left / 256;
      }
      LengthEnd(p, q, left, tail);
    }

    /** The last bytes of p are in `tail`; the n bytes before them are those of `left`. */
    static ghost predicate Writing(p: nat, q: nat, left: nat, n: nat, tail: seq<byte>) {
      BigEndian(p, q) == BigEndian(left, n) + tail && BigEndianFits(p, q) == BigEndianFits(left, n)
    }

    static lemma NothingWritten(p: nat, q: nat)
      ensures Writing(p, q, p, q, [])
    {
    }

    static lemma LengthStep(p: nat, q: nat, left: nat, n: nat, tail: seq<byte>)
      requires n > 0 && Writing(p, q, left, n, tail)
      ensures Writing(p, q, left / 256, n - 1, [left % 256] + tail)
    {
    }

    static lemma LengthEnd(p: nat, q: nat, left: nat, tail: seq<byte>)
      requires Writing(p, q, left, 0, tail)
      ensures tail == BigEndian(p, q) && BigEndianFits(p, q) == (left == 0)
    {
    }

    /** `mbedtls_ccm_starts` */
    method Starts(newMode: Mode, iv: seq<byte>) returns (st: CcmStatus)
      requires Clean() || LengthsGiven()
      modifies this, y, ctr
      ensures !NonceOk(iv) ==> st.BadInput? && unchanged(this) && unchanged(y) && unchanged(ctr)
      ensures NonceOk(iv) && old(Clean()) ==> st.Ok? && NonceGiven() && nonce == iv && mode == newMode
      ensures NonceOk(iv) && old(LengthsGiven()) ==>
        (nonce == iv && mode == newMode && addLen == old(addLen) && tagLen == old(tagLen))
      ensures NonceOk(iv) && old(LengthsGiven()) ==>
        st == if (if old(tagLen) == 0 then newMode.Star() else BigEndianFits(old(plaintextLen), 15 - |iv|)) then Ok else BadInput
      ensures old(LengthsGiven()) && st.Ok? ==>
        (Ready() && ad == [] && text == [] && plaintextLen == if tagLen == 0 then 0 else old(plaintextLen))
    {
      hide CtrBlock, BigEndian, BigEndianFits, CcmContext.Ready;
      if |iv| < 7 || |iv| > 13 {
        return BadInput;
      }
      mode := newMode;
      q := 16 - 1 - |iv|;
      nonce := iv;
      WriteCounter(iv);
      WriteNonce(iv);
      HeadOfCounter(iv);
      started := true;
      if lengthsSet {
        st := FirstBlockIfReady();
      } else {
        st := Ok;
      }
    }

    lemma HeadOfCounter(iv: seq<byte>)
      requires NonceOk(iv)
      ensures CtrBlock(iv, 1)[..1 + |iv|] == CtrHead(iv)
    {
      hide BigEndian;
    }

    method WriteCounter(iv: seq<byte>)
      requires Shape() && NonceOk(iv) && q == 15 - |iv|
      modifies ctr
      ensures ctr[..] == CtrBlock(iv, 1)
    {
      forall k | 0 <= k < 16 {
        ctr[k] := 0;
      }
      ctr[0] := q - 1;
      forall k | 1 <= k < 1 + |iv| {
        ctr[k] := iv[k - 1];
      }
      ctr[15] := 1;
      CountOne(q);
      assert ctr[..] == CtrHead(iv) + (ZeroBytes(q - 1) + [1]);
    }

    method WriteNonce(iv: seq<byte>)
      requires Shape() && NonceOk(iv) && y[..] == ZeroBytes(16)
      modifies y
      ensures y[..] == [0] + iv + ZeroBytes(15 - |iv|)
    {
      forall k | 1 <= k < 1 + |iv| {
        y[k] := iv[k - 1];
      }
    }

    /** `mbedtls_ccm_set_lengths` */
    method SetLengths(totalAd: nat, total: nat, tagLength: nat) returns (st: CcmStatus)
      requires Clean() || NonceGiven()
      modifies this, y
      ensures !TagLengthOk(tagLength) || totalAd >= 0xFF00 ==> st.BadInput? && unchanged(this) && unchanged(y)
      ensures TagLengthOk(tagLength) && totalAd < 0xFF00 ==> addLen == totalAd && tagLen == tagLength && mode == old(mode)
      ensures TagLengthOk(tagLength) && totalAd < 0xFF00 && old(Clean()) ==> st.Ok? && LengthsGiven() && plaintextLen == total
      ensures TagLengthOk(tagLength) && totalAd < 0xFF00 && old(NonceGiven()) ==>
        (nonce == old(nonce) && st == if (if tagLength == 0 then mode.Star() else BigEndianFits(total, 15 - |nonce|)) then Ok else BadInput)
      ensures old(NonceGiven()) && st.Ok? ==>
        (Ready() && ad == [] && text == [] && plaintextLen == if tagLen == 0 then 0 else total)
    {
      hide CtrBlock, BigEndian, BigEndianFits, CcmContext.Ready;
      if tagLength == 2 || tagLength > 16 || tagLength % 2 != 0 {
        return BadInput;
      }
      if totalAd >= 0xFF00 {
        return BadInput;
      }
      plaintextLen := total;
      addLen := totalAd;
      tagLen := tagLength;
      processed := 0;
      lengthsSet := true;
      if started {
        st := FirstBlockIfReady();
      } else {
        st := Ok;
      }
    }

    /** `mbedtls_ccm_update_ad`: a further piece of the associated data, refused when it exceeds the total. */
    method UpdateAd(add: seq<byte>) returns (st: CcmStatus)
      requires Ready()
      modifies this, y
      ensures Ready() && nonce == old(nonce) && mode == old(mode) && text == old(text)
      ensures addLen == old(addLen) && plaintextLen == old(plaintextLen) && tagLen == old(tagLen)
      ensures st == if |old(ad)| + |add| <= addLen then Ok else BadInput
      ensures ad == if st.Ok? then old(ad) + add else old(ad)
      ensures !st.Ok? ==> unchanged(this) && unchanged(y)
    {
      hide Feed, Chain, Flags, BigEndian, Pad, CtrBlock, StreamState, AfterAd, AfterFirst;
      if error {
        return BadInput;
      }
      if |add| > 0 {
        assert Header() + [] == Header();
        if adFinished {
          return BadInput;
        }
        if !adStarted {
          if |add| > addLen {
            return BadInput;
          }
          MixLength();
          adStarted := true;
        } else if processed + |add| > addLen {
          return BadInput;
        }
        AddData(add);
      }
      st := Ok;
    }

    /** Data that has been accepted, after the length bytes. */
    method AddData(add: seq<byte>)
      requires CounterReady() && started && lengthsSet && !error && TagLengthOk(tagLen) && adStarted && !adFinished
      requires (tagLen == 0 ==> mode.Star() && plaintextLen == 0) && text == []
      requires 0 < |add| && |ad| + |add| <= addLen < 0xFF00 && processed == |ad| && ctr[..] == CtrBlock(nonce, 1)
      requires y[..] == Feed(E, Y0(), 0, Header() + ad)
      modifies this`processed, this`ad, this`adFinished, y
      ensures Ready() && ad == old(ad) + add
    {
      hide Feed, Chain, Flags, BigEndian, Pad, CtrBlock, StreamState, AfterAd, AfterFirst;
      AdLoop(add);
      ad := ad + add;
      if processed == addLen {
        adFinished := true;
        processed := 0;
        AdComplete();
      } else {
        NotFlushed(Y0(), Header() + ad);
      }
    }

    method MixLength()
      requires Shape() && addLen < 0xFF00
      modifies y
      ensures y[..] == Feed(E, old(y[..]), 0, Header())
    {
      hide Xor, Feed;
      LengthBytes(E, y[..], addLen / 256, addLen % 256);
      y[0] := Xor(y[0], addLen / 256);
      y[1] := Xor(y[1], addLen % 256);
    }

    /** The chain value at the end of the associated data. */
    lemma AdComplete()
      requires Shape() && NonceOk(nonce) && TagLengthOk(tagLen) && 0 < |ad| == addLen < 0xFF00
      ensures StreamState(E, Y0(), Header() + ad, true) == AfterAd(E, Y0(), ad)
      ensures var y := AfterAd(E, Y0(), ad); StreamState(E, y, [], true) == StreamState(E, y, [], false) == y
    {
      FeedIsChain(E, Y0(), Header() + ad);
      assert AdStream(ad) == Header() + ad;
    }

    method AdLoop(add: seq<byte>)
      requires Shape() && NonceOk(nonce) && TagLengthOk(tagLen) && addLen < 0xFF00
      requires processed == |ad| && 0 < |add| && |ad| + |add| <= addLen
      requires y[..] == Feed(E, Y0(), 0, Header() + ad)
      modifies this`processed, y
      ensures processed == |ad| + |add|
      ensures y[..] == StreamState(E, Y0(), Header() + (ad + add), processed == addLen)
    {
      hide Feed, XorAt, Flags, BigEndian, StreamState, AfterFirst;
      ghost var y0, header := Y0(), Header();
      ghost var seen: seq<byte> := [];
      var i := 0;
      assert header + (ad + seen) == header + ad;
      NotFlushed(y0, header + (ad + seen));
      while i < |add|
        invariant 0 <= i <= |add| && seen == add[..i] && processed == |ad| + i
        invariant i < |add| ==> y[..] == StreamState(E, y0, header + (ad + seen), false)
        invariant i == |add| ==> y[..] == StreamState(E, y0, header + (ad + seen), processed == addLen)
      {
        var offset := (processed + 2) % 16;
        var use := 16 - offset;
        if use > |add| - i {
          use := |add| - i;
        }
        ghost var stream := header + (ad + seen);
        var chunk := add[i..i + use];
        processed := processed + use;
        i := i + use;
        Absorb(E, y, offset, chunk, processed == addLen, y0, stream);
        assert stream + chunk == header + (ad + (seen + chunk));
        seen := seen + chunk;
        assert seen == add[..i];
      }
      assert seen == add;
    }

    lemma NotFlushed(y0: Block, stream: seq<byte>)
      ensures StreamState(E, y0, stream, false) == Feed(E, y0, 0, stream)
    {
    }

    /** Before a further byte the payload is not complete, so nothing has been flushed. */
    lemma NotComplete(y0: Block, seen: seq<byte>)
      ensures seen == [] ==> StreamState(E, y0, seen, true) == StreamState(E, y0, seen, false)
    {
    }

    lemma CounterStep(pos: nat, use: nat)
      requires 0 < use && pos % 16 + use <= 16
      ensures pos % 16 + use == 16 ==> 1 + (pos + use) / 16 == 2 + pos / 16 && (pos + use) % 16 == 0
      ensures pos % 16 + use < 16 ==> (pos + use) / 16 == pos / 16 && (pos + use) % 16 != 0
    {
    }

    lemma KeyChunk(pos: nat, data: seq<byte>)
      requires NonceOk(nonce) && pos % 16 + |data| <= 16
      ensures XorSeq(data, E(CtrBlock(nonce, 1 + pos / 16))[pos % 16..pos % 16 + |data|]) == CtrXor(E, nonce, pos, data)
    {
      hide Xor, CtrBlock;
      var l, r := XorSeq(data, E(CtrBlock(nonce, 1 + pos / 16))[pos % 16..pos % 16 + |data|]), CtrXor(E, nonce, pos, data);
      forall k | 0 <= k < |data| ensures l[k] == r[k] {
        assert (pos + k) / 16 == pos / 16 && (pos + k) % 16 == pos % 16 + k;
        assert KeyByte(E, nonce, pos + k) == E(CtrBlock(nonce, 1 + pos / 16))[pos % 16 + k];
      }
    }

    /** The counter in the last q bytes goes up by one. */
    method Increment(ghost v: nat)
      requires CounterReady() && ctr[..] == CtrBlock(nonce, v)
      modifies ctr
      ensures ctr[..] == CtrBlock(nonce, v + 1) && CounterReady()
    {
      hide BigEndian;
      ghost var u, n := v, q;
      ghost var head := CtrHead(nonce);
      var i := 0;
      assert ctr[..] == head + BigEndian(u, n) + ZeroBytes(i);
      while i < q
        invariant 0 <= i <= q && n == q - i
        invariant ctr[..] == head + BigEndian(u, n) + ZeroBytes(i)
        invariant BigEndian(v + 1, q) == BigEndian(u + 1, n) + ZeroBytes(i)
        decreases q - i
      {
        ghost var c := ctr[..];
        CarryOn(c, head, u, n, i);
        ctr[15 - i] := if ctr[15 - i] == 255 then 0 else ctr[15 - i] + 1;
        assert ctr[..] == c[15 - i := if c[15 - i] == 255 then 0 else c[15 - i] + 1];
        if ctr[15 - i] != 0 {
          CounterHead(ctr[..], head, BigEndian(v + 1, q));
          return;
        }
        u, n, i := u / 256, n - 1, i + 1;
      }
      BigEndianNone(u);
      BigEndianNone(u + 1);
      assert BigEndian(v + 1, q) == ZeroBytes(i);
      assert head + [] == head;
      CounterHead(ctr[..], head, BigEndian(v + 1, q));
    }

    static lemma CounterHead(c: seq<byte>, head: seq<byte>, tail: seq<byte>)
      requires c == head + tail
      ensures c[..|head|] == head
    {
    }

    /** One byte of the counter: it goes up, or wraps and the carry goes on. */
    static lemma CarryOn(c: seq<byte>, head: seq<byte>, u: nat, n: nat, i: nat)
      requires |c| == 16 && 0 < n && |head| + n + i == 16 && c == head + BigEndian(u, n) + ZeroBytes(i)
      ensures c[15 - i] != 255 ==> c[15 - i := c[15 - i] + 1] == head + (BigEndian(u + 1, n) + ZeroBytes(i))
      ensures c[15 - i] == 255 ==> c[15 - i := 0] == head + BigEndian(u / 256, n - 1) + ZeroBytes(i + 1)
      ensures c[15 - i] == 255 ==> BigEndian(u + 1, n) + ZeroBytes(i) == BigEndian(u / 256 + 1, n - 1) + ZeroBytes(i + 1)
    {
      hide BigEndian;
      BigEndianLast(u, n);
      BigEndianNext(u, n);
      var tail := BigEndian(u / 256, n - 1);
      assert c == head + (tail + [u % 256]) + ZeroBytes(i);
      assert c[15 - i] == u % 256;
      assert [0] + ZeroBytes(i) == ZeroBytes(i + 1);
      if u % 256 == 255 {
        assert c[15 - i := 0] == head + tail + ([0] + ZeroBytes(i));
        assert (BigEndian(u / 256 + 1, n - 1) + [0]) + ZeroBytes(i) == BigEndian(u / 256 + 1, n - 1) + ([0] + ZeroBytes(i));
      } else {
        assert c[15 - i := u % 256 + 1] == head + ((tail + [u % 256 + 1]) + ZeroBytes(i));
      }
    }

    /** Bytes of one block: chained first and encrypted, or decrypted first and chained. */
    method Transform(input: array<byte>, ioff: nat, use: nat, output: array<byte>, ooff: nat, offset: nat, whole: bool,
                     ghost y0: Block, ghost seen: seq<byte>) returns (plain: seq<byte>)
      requires Shape() && 0 < use && offset == |seen| % 16 && offset + use <= 16
      requires NonceOk(nonce) && ctr[..] == CtrBlock(nonce, 1 + |seen| / 16)
      requires y[..] == StreamState(E, y0, seen, false)
      requires input !in {y, ctr} && output !in {y, ctr} && (input == output ==> ioff == ooff)
      requires ioff + use <= input.Length && ooff + use <= output.Length
      modifies y, output
      ensures output[ooff..ooff + use] == CtrXor(E, nonce, |seen|, old(input[ioff..ioff + use]))
      ensures plain == if mode.Encrypts() then old(input[ioff..ioff + use]) else output[ooff..ooff + use]
      ensures y[..] == StreamState(E, y0, seen + plain, whole)
      ensures output[..ooff] == old(output[..ooff]) && output[ooff + use..] == old(output[ooff + use..])
    {
      hide StreamState, XorSeq, CtrBlock, CtrXor;
      if mode.Encrypts() {
        plain := EncryptChunk(use, input, ioff, output, ooff, offset, whole, y0, seen);
      } else {
        plain := DecryptChunk(use, input, ioff, output, ooff, offset, whole, y0, seen);
      }
    }

    /** The part of the encrypted counter block that the next bytes are combined with. */
    method KeyBytes(offset: nat, use: nat, ghost pos: nat) returns (key: seq<byte>)
      requires Shape() && offset == pos % 16 && offset + use <= 16
      requires NonceOk(nonce) && ctr[..] == CtrBlock(nonce, 1 + pos / 16)
      ensures |key| == use && forall data :: |data| == use ==> XorSeq(data, key) == CtrXor(E, nonce, pos, data)
    {
      hide XorSeq, CtrBlock, CtrXor;
      key := E(ctr[..])[offset..offset + use];
      forall data: seq<byte> | |data| == use ensures XorSeq(data, key) == CtrXor(E, nonce, pos, data) {
        KeyChunk(pos, data);
      }
    }

    method EncryptChunk(use: nat, input: array<byte>, ioff: nat, output: array<byte>, ooff: nat, offset: nat, whole: bool,
                        ghost y0: Block, ghost seen: seq<byte>) returns (plain: seq<byte>)
      requires Shape() && 0 < use && offset == |seen| % 16 && offset + use <= 16
      requires NonceOk(nonce) && ctr[..] == CtrBlock(nonce, 1 + |seen| / 16)
      requires y[..] == StreamState(E, y0, seen, false)
      requires input !in {y, ctr} && output !in {y, ctr} && (input == output ==> ioff == ooff)
      requires ioff + use <= input.Length && ooff + use <= output.Length
      modifies y, output
      ensures output[ooff..ooff + use] == CtrXor(E, nonce, |seen|, old(input[ioff..ioff + use]))
      ensures plain == old(input[ioff..ioff + use])
      ensures y[..] == StreamState(E, y0, seen + plain, whole)
      ensures output[..ooff] == old(output[..ooff]) && output[ooff + use..] == old(output[ooff + use..])
    {
      hide StreamState, XorSeq, CtrBlock, CtrXor;
      var key := KeyBytes(offset, use, |seen|);
      ghost var in0, out0 := input[..], output[..];
      plain := input[ioff..ioff + use];
      Absorb(E, y, offset, plain, whole, y0, seen);
      assert input[..] == in0 && output[..] == out0;
      Crypt(key, input, ioff, output, ooff);
    }

    method DecryptChunk(use: nat, input: array<byte>, ioff: nat, output: array<byte>, ooff: nat, offset: nat, whole: bool,
                        ghost y0: Block, ghost seen: seq<byte>) returns (plain: seq<byte>)
      requires Shape() && 0 < use && offset == |seen| % 16 && offset + use <= 16
      requires NonceOk(nonce) && ctr[..] == CtrBlock(nonce, 1 + |seen| / 16)
      requires y[..] == StreamState(E, y0, seen, false)
      requires input !in {y, ctr} && output !in {y, ctr} && (input == output ==> ioff == ooff)
      requires ioff + use <= input.Length && ooff + use <= output.Length
      modifies y, output
      ensures output[ooff..ooff + use] == CtrXor(E, nonce, |seen|, old(input[ioff..ioff + use]))
      ensures plain == output[ooff..ooff + use]
      ensures y[..] == StreamState(E, y0, seen + plain, whole)
      ensures output[..ooff] == old(output[..ooff]) && output[ooff + use..] == old(output[ooff + use..])
    {
      hide StreamState, XorSeq, CtrBlock, CtrXor;
      var key := KeyBytes(offset, use, |seen|);
      plain := Decipher(key, input, ioff, output, ooff);
      ghost var out := output[..];
      Absorb(E, y, offset, plain, whole, y0, seen);
      assert output[..] == out;
    }

    /** The part of the payload that lies in one block. */
    method UpdateChunk(input: array<byte>, ioff: nat, use: nat, output: array<byte>, ooff: nat)
        returns (ghost chunk: seq<byte>, ghost out: seq<byte>, ghost plain: seq<byte>)
      requires Ready() && |ad| == addLen && 0 < use && |text| % 16 + use <= 16
      requires tagLen != 0 ==> |text| + use <= plaintextLen
      requires input !in {y, ctr} && output !in {y, ctr} && (input == output ==> ioff == ooff)
      requires ioff + use <= input.Length && ooff + use <= output.Length
      modifies this`processed, this`text, y, ctr, output
      ensures Ready()
      ensures |chunk| == use && chunk == old(input[ioff..ioff + use]) && out == output[ooff..ooff + use]
      ensures out == CtrXor(E, nonce, |old(text)|, chunk)
      ensures plain == (if mode.Encrypts() then chunk else out) && text == old(text) + plain
      ensures output[..ooff] == old(output[..ooff]) && output[ooff + use..] == old(output[ooff + use..])
    {
      hide StreamState, AfterAd, AfterFirst, CtrBlock, CtrXor, CtrHead;
      var offset := processed % 16;
      ghost var y0, seen := AfterAd(E, Y0(), ad), text;
      NotComplete(y0, seen);
      processed := processed + use;
      var whole := processed == plaintextLen;
      chunk := input[ioff..ioff + use];
      plain := Transform(input, ioff, use, output, ooff, offset, whole, y0, seen);
      out := output[ooff..ooff + use];
      text := text + plain;
      NextCounter(|seen|, offset, use, whole);
    }

    /** The counter moves on when the block is full, and idly when the payload ends. */
    method NextCounter(ghost pos: nat, offset: nat, use: nat, whole: bool)
      requires CounterReady() && ctr[..] == CtrBlock(nonce, 1 + pos / 16) && processed == pos + use
      requires offset == pos % 16 && 0 < use && offset + use <= 16
      modifies ctr
      ensures CounterReady()
      ensures processed % 16 == 0 || !whole ==> ctr[..] == CtrBlock(nonce, 1 + processed / 16)
    {
      hide CtrBlock, CtrHead;
      CounterStep(pos, use);
      if use + offset == 16 || whole {
        Increment(1 + pos / 16);
      }
    }

    /** `mbedtls_ccm_update`: a further piece of the payload, of any length. */
    method Update(input: array<byte>, ioff: nat, len: nat, output: array<byte>, ooff: nat, outputSize: nat) returns (st: CcmStatus)
      requires Ready() && |ad| == addLen
      requires input !in {y, ctr} && output !in {y, ctr} && (input == output ==> ioff == ooff)
      requires ioff + len <= input.Length && ooff + outputSize <= output.Length
      modifies this`processed, this`text, y, ctr, output
      ensures Ready()
      ensures st == if (tagLen != 0 && |old(text)| + len > plaintextLen) || outputSize < len then BadInput else Ok
      ensures !st.Ok? ==> unchanged(this) && unchanged(output)
      ensures st.Ok? ==> output[ooff..ooff + len] == CtrXor(E, nonce, |old(text)|, old(input[ioff..ioff + len]))
      ensures st.Ok? ==> text == old(text) + if mode.Encrypts() then old(input[ioff..ioff + len]) else output[ooff..ooff + len]
      ensures st.Ok? ==> output[..ooff] == old(output[..ooff]) && output[ooff + len..] == old(output[ooff + len..])
    {
      hide CtrXor, StreamState, AfterAd, AfterFirst, CtrBlock, CtrHead;
      if error {
        return BadInput;
      }
      if tagLen != 0 && processed + len > plaintextLen {
        return BadInput;
      }
      if outputSize < len {
        return BadInput;
      }
      UpdateLoop(input, ioff, len, output, ooff);
      st := Ok;
    }

    method UpdateLoop(input: array<byte>, ioff: nat, len: nat, output: array<byte>, ooff: nat)
      requires Ready() && |ad| == addLen && (tagLen != 0 ==> |text| + len <= plaintextLen)
      requires input !in {y, ctr} && output !in {y, ctr} && (input == output ==> ioff == ooff)
      requires ioff + len <= input.Length && ooff + len <= output.Length
      modifies this`processed, this`text, y, ctr, output
      ensures Ready()
      ensures output[ooff..ooff + len] == CtrXor(E, nonce, |old(text)|, old(input[ioff..ioff + len]))
      ensures text == old(text) + if mode.Encrypts() then old(input[ioff..ioff + len]) else output[ooff..ooff + len]
      ensures output[..ooff] == old(output[..ooff]) && output[ooff + len..] == old(output[ooff + len..])
    {
      hide CtrXor, CcmContext.Ready, Moved;
      ReadyFacts();
      ghost var in0, out0, text0 := input[..], output[..], text;
      var n := 0;
      NothingMoved(E, nonce, mode.Encrypts(), in0, out0, ioff, ooff, len, text0);
      while n < len
        invariant 0 <= n <= len && Ready() && processed == |text| == |text0| + n
        invariant Moved(E, nonce, mode.Encrypts(), in0, out0, input[..], output[..], ioff, ooff, len, n, text0, text)
      {
        var use := UpdateRound(input, ioff, len, output, ooff, n, in0, out0, text0);
        n := n + use;
      }
      AllMoved(E, nonce, mode.Encrypts(), in0, out0, input[..], output[..], ioff, ooff, len, text0, text);
    }

    /** One round of the loop. */
    method UpdateRound(input: array<byte>, ioff: nat, len: nat, output: array<byte>, ooff: nat, n: nat,
                       ghost in0: seq<byte>, ghost out0: seq<byte>, ghost text0: seq<byte>) returns (use: nat)
      requires Ready() && NonceOk(nonce) && |ad| == addLen && n < len && (tagLen != 0 ==> |text| + (len - n) <= plaintextLen)
      requires input !in {y, ctr} && output !in {y, ctr} && (input == output ==> ioff == ooff)
      requires ioff + len <= input.Length && ooff + len <= output.Length
      requires Moved(E, nonce, mode.Encrypts(), in0, out0, input[..], output[..], ioff, ooff, len, n, text0, text)
      modifies this`processed, this`text, y, ctr, output
      ensures 0 < use <= len - n && Ready() && processed == |text| == |old(text)| + use
      ensures Moved(E, nonce, mode.Encrypts(), in0, out0, input[..], output[..], ioff, ooff, len, n + use, text0, text)
    {
      hide CtrXor, CcmContext.Ready, Moved;
      ReadyFacts();
      var offset := processed % 16;
      use := 16 - offset;
      if use > len - n {
        use := len - n;
      }
      ghost var in1, out1, text1 := input[..], output[..], text;
      ghost var chunk, out, plain;
      chunk, out, plain := UpdateChunk(input, ioff + n, use, output, ooff + n);
      ReadyFacts();
      MovedOn(E, nonce, mode.Encrypts(), in0, out0, in1, out1, input[..], output[..], ioff, ooff, len, n, use, text0, text1, chunk, out);
    }

    lemma ReadyFacts()
      requires Ready()
      ensures Shape() && NonceOk(nonce) && (|ad| == addLen ==> processed == |text|)
    {
    }

    /** The complete chain value is the one of the definition. */
    lemma Authenticated()
      requires Ready() && |ad| == addLen && tagLen != 0 && |text| == plaintextLen
      ensures y[..] == Mac(E, nonce, ad, text, tagLen)
    {
      hide Chain, Feed, Flags, BigEndian, Pad, AdStream, CtrBlock, CtrHead;
      FeedIsChain(E, AfterAd(E, Y0(), ad), text);
      Stages(E, nonce, ad, text, tagLen, plaintextLen);
    }

    method ClearCounter()
      requires CounterReady()
      modifies ctr
      ensures ctr[..] == CtrBlock(nonce, 0)
    {
      ghost var head := CtrHead(nonce);
      forall k | 16 - q <= k < 16 {
        ctr[k] := 0;
      }
      ZeroDigits(q);
      assert ctr[..] == head + ZeroBytes(q);
    }

    /** `mbedtls_ccm_clear_state` */
    method ClearState()
      requires Shape()
      modifies this, y, ctr
      ensures Clean()
    {
      started, lengthsSet, adStarted, adFinished, error := false, false, false, false, false;
      forall k | 0 <= k < 16 {
        y[k] := 0;
      }
      forall k | 0 <= k < 16 {
        ctr[k] := 0;
      }
    }

    /**
      `mbedtls_ccm_finish`: refused while data is missing.  However the data was cut into calls, the tag is the
      one of the definition, and the context is as good as new.
     */
    method Finish(tag: array?<byte>, n: nat) returns (st: CcmStatus)
      requires Ready() && n <= 16 && (tag != null ==> tag != y && tag != ctr && n <= tag.Length)
      modifies this, y, ctr, tag
      ensures st == if |old(ad)| < old(addLen) || (old(plaintextLen) > 0 && |old(text)| != old(plaintextLen)) then BadInput else Ok
      ensures !st.Ok? ==> unchanged(this) && Ready()
      ensures st.Ok? ==> Clean()
      ensures st.Ok? && old(tagLen) != 0 && tag != null ==> NonceOk(old(nonce)) && old(TagLengthOk(tagLen)) && |old(ad)| < 0xFF00
      ensures st.Ok? && old(tagLen) != 0 && tag != null ==>
        tag[..n] == XorSeq(Mac(E, old(nonce), old(ad), old(text), old(tagLen)), E(CtrBlock(old(nonce), 0)))[..n]
    {
      hide Chain, Feed, Flags, BigEndian, Pad, AdStream, CtrBlock, CtrHead, XorSeq, Mac, StreamState;
      if error {
        return Corruption;
      }
      if addLen > 0 && !adFinished {
        return BadInput;
      }
      if plaintextLen > 0 && processed != plaintextLen {
        return BadInput;
      }
      if tagLen != 0 {
        Authenticated();
      }
      ghost var mac := y[..];
      ClearCounter();
      Crypt(E(ctr[..]), y, 0, y, 0);
      assert y[..] == y[0..16];
      assert mac == mac[0..16];
      if tag != null {
        forall k | 0 <= k < n {
          tag[k] := y[k];
        }
        assert tag[..n] == y[..n];
      }
      ClearState();
      st := Ok;
    }

    /** The parameters a one-shot call accepts. */
    static predicate ParametersOk(m: Mode, iv: seq<byte>, adLength: nat, length: nat, t: nat) {
      NonceOk(iv) && TagLengthOk(t) && adLength < 0xFF00 && if t == 0 then m.Star() else BigEndianFits(length, 15 - |iv|)
    }

    /** The legal parameters in numbers (section A.1 of SP 800-38C, and the tag of length zero of CCM*). */
    static lemma ParametersAre(m: Mode, iv: seq<byte>, adLength: nat, length: nat, t: nat)
      ensures ParametersOk(m, iv, adLength, length, t) <==>
        7 <= |iv| <= 13 && t in {0, 4, 6, 8, 10, 12, 14, 16} && adLength < 0xFF00
        && if t == 0 then m.StarEncrypt? || m.StarDecrypt? else length < Pow2(8 * (15 - |iv|))
    {
      hide Pow2, BigEndianFits;
      if 7 <= |iv| <= 13 {
        FitsBound(length, 15 - |iv|);
      }
    }

    /** Nonce, lengths and associated data. */
    method StartBoth(m: Mode, length: nat, iv: seq<byte>, add: seq<byte>, t: nat) returns (st: CcmStatus)
      requires Clean()
      modifies this, y, ctr
      ensures st == if ParametersOk(m, iv, |add|, length, t) then Ok else BadInput
      ensures st.Ok? ==> Ready() && ad == add && text == [] && nonce == iv && mode == m && addLen == |add| && tagLen == t
      ensures st.Ok? ==> plaintextLen == if t == 0 then 0 else length
    {
      hide CtrXor, CcmContext.Ready, Mac, CtrBlock, XorSeq, BigEndianFits, BigEndian;
      st := Starts(m, iv);
      if !st.Ok? {
        return;
      }
      st := SetLengths(|add|, length, t);
      if !st.Ok? {
        return;
      }
      st := UpdateAd(add);
    }

    /** `ccm_auth_crypt`: one shot. */
    method AuthCrypt(m: Mode, length: nat, iv: seq<byte>, add: seq<byte>, input: array<byte>, output: array<byte>,
                     tag: array<byte>, t: nat) returns (st: CcmStatus)
      requires Clean() && length <= input.Length && length <= output.Length && (t <= 16 ==> t <= tag.Length)
      requires input !in {y, ctr} && output !in {y, ctr} && tag !in {y, ctr, output}
      modifies this, y, ctr, output, tag
      ensures st.Ok? <==> ParametersOk(m, iv, |add|, length, t)
      ensures st.Ok? || st.BadInput?
      ensures st.Ok? ==> Clean() && output[..length] == CtrXor(E, iv, 0, old(input[..length]))
      ensures st.Ok? ==> tag[..t] == Tag(E, iv, add, if m.Encrypts() then old(input[..length]) else output[..length], t)
      ensures output[length..] == old(output[length..])
    {
      hide CtrXor, CcmContext.Ready, Mac, CtrBlock, XorSeq, BigEndianFits, BigEndian;
      st := StartBoth(m, length, iv, add, t);
      if !st.Ok? {
        return;
      }
      assert input[0..0 + length] == input[..length];
      st := Update(input, 0, length, output, 0, length);
      assert output[0..0 + length] == output[..length];
      ghost var plain := text;
      assert plain == if m.Encrypts() then old(input[..length]) else output[..length];
      assert ad == add;
      ghost var out := output[..];
      st := Finish(tag, t);
      assert output[..] == out;
    }
  }

  /** `mbedtls_ccm_compare_tags`: all bytes are looked at. */
  method CompareTags(a: seq<byte>, b: seq<byte>, n: nat) returns (st: CcmStatus)
    requires n <= |a| && n <= |b|
    ensures st == if a[..n] == b[..n] then Ok else AuthFailed
  {
    hide Xor;
    var differs := false;
    for i := 0 to n
      invariant differs <==> a[..i] != b[..i]
    {
      XorIsZero(a[i], b[i]);
      differs := differs || Xor(a[i], b[i]) != 0;
      assert a[..i + 1] == a[..i] + [a[i]] && b[..i + 1] == b[..i] + [b[i]];
    }
    st := if differs then AuthFailed else Ok;
  }

  /** `ccm_auth_decrypt`: the plaintext, or zero bytes when the tag is not the one of the definition. */
  method AuthDecrypt(ctx: CcmContext, m: Mode, length: nat, iv: seq<byte>, add: seq<byte>, input: array<byte>,
                     output: array<byte>, tag: seq<byte>) returns (st: CcmStatus)
    requires ctx.Clean() && !m.Encrypts() && length <= input.Length && length <= output.Length
    requires input !in {ctx.y, ctx.ctr} && output !in {ctx.y, ctx.ctr}
    modifies ctx, ctx.y, ctx.ctr, output
    ensures st.Ok? || st.AuthFailed? <==> CcmContext.ParametersOk(m, iv, |add|, length, |tag|)
    ensures st.Ok? || st.AuthFailed? ==> ctx.Clean()
    ensures st.Ok? || st.AuthFailed? ==>
      (st.Ok? <==> tag == Tag(ctx.E, iv, add, CtrXor(ctx.E, iv, 0, old(input[..length])), |tag|))
    ensures st.Ok? ==> output[..length] == CtrXor(ctx.E, iv, 0, old(input[..length]))
    ensures st.AuthFailed? ==> output[..length] == ZeroBytes(length)
    ensures output[length..] == old(output[length..])
  {
    hide CtrXor, Tag, CcmContext.Clean;
    var check := new byte[16](_ => 0);
    st := ctx.AuthCrypt(m, length, iv, add, input, output, check, |tag|);
    if !st.Ok? {
      return;
    }
    assert tag[..|tag|] == tag;
    st := CompareTags(tag, check[..], |tag|);
    assert check[..][..|tag|] == check[..|tag|];
    if !st.Ok? {
      forall k | 0 <= k < length {
        output[k] := 0;
      }
      assert output[..length] == ZeroBytes(length);
    }
  }

  /**
    A whole run: nonce and lengths in either order, then associated data and payload cut into calls in any
    way.  Output and tag are those of the definition for the joined pieces.
   */
  method Run(ctx: CcmContext, lengthsFirst: bool, m: Mode, iv: seq<byte>, ads: seq<seq<byte>>, pieces: seq<seq<byte>>, t: nat)
      returns (st: CcmStatus, out: seq<byte>, tag: seq<byte>)
    requires ctx.Clean()
    modifies ctx, ctx.y, ctx.ctr
    ensures st.Ok? <==> CcmContext.ParametersOk(m, iv, |Concat(ads)|, |Concat(pieces)|, t)
    ensures st.Ok? ==> ctx.Clean() && out == CtrXor(ctx.E, iv, 0, Concat(pieces))
    ensures st.Ok? ==> tag == Tag(ctx.E, iv, Concat(ads), if m.Encrypts() then Concat(pieces) else out, t)
  {
    hide CtrXor, Tag, Concat, CcmContext.Ready, BigEndianFits;
    out, tag := [], [];
    st := Begin(ctx, lengthsFirst, m, iv, |Concat(ads)|, |Concat(pieces)|, t);
    if !st.Ok? {
      return;
    }
    FeedAds(ctx, ads);
    out := FeedPieces(ctx, pieces);
    var buf := new byte[16](_ => 0);
    ghost var text := ctx.text;
    st := ctx.Finish(buf, t);
    tag := buf[..t];
    TagOf(ctx.E, iv, Concat(ads), text, t, tag);
  }

  /** Nonce and lengths, in either order. */
  method Begin(ctx: CcmContext, lengthsFirst: bool, m: Mode, iv: seq<byte>, adLength: nat, length: nat, t: nat)
      returns (st: CcmStatus)
    requires ctx.Clean()
    modifies ctx, ctx.y, ctx.ctr
    ensures st.Ok? <==> CcmContext.ParametersOk(m, iv, adLength, length, t)
    ensures st.Ok? ==> ctx.Ready() && ctx.ad == [] && ctx.text == [] && ctx.nonce == iv && ctx.mode == m
    ensures st.Ok? ==> ctx.addLen == adLength && ctx.tagLen == t && ctx.plaintextLen == if t == 0 then 0 else length
  {
    hide CcmContext.Ready, BigEndianFits, BigEndian, CtrBlock;
    if lengthsFirst {
      st := ctx.SetLengths(adLength, length, t);
      if st.Ok? {
        st := ctx.Starts(m, iv);
      }
    } else {
      st := ctx.Starts(m, iv);
      if st.Ok? {
        st := ctx.SetLengths(adLength, length, t);
      }
    }
  }

  lemma TagOf(E: Block -> Block, nonce: seq<byte>, ad: seq<byte>, text: seq<byte>, t: nat, tag: seq<byte>)
    requires NonceOk(nonce) && TagLengthOk(t) && |ad| < 0xFF00 && |tag| == t
    requires t != 0 ==> tag == XorSeq(Mac(E, nonce, ad, text, t), E(CtrBlock(nonce, 0)))[..t]
    ensures tag == Tag(E, nonce, ad, text, t)
  {
  }

  method FeedAds(ctx: CcmContext, ads: seq<seq<byte>>)
    requires ctx.Ready() && ctx.ad == [] && ctx.text == [] && ctx.addLen == |Concat(ads)|
    modifies ctx, ctx.y
    ensures ctx.Ready() && ctx.ad == Concat(ads) && ctx.text == []
    ensures ctx.nonce == old(ctx.nonce) && ctx.mode == old(ctx.mode) && ctx.addLen == old(ctx.addLen)
    ensures ctx.plaintextLen == old(ctx.plaintextLen) && ctx.tagLen == old(ctx.tagLen)
  {
    hide CcmContext.Ready, Concat;
    ConcatNone(ads);
    for i := 0 to |ads|
      invariant ctx.Ready() && ctx.ad == Concat(ads[..i]) && ctx.text == []
      invariant ctx.nonce == old(ctx.nonce) && ctx.mode == old(ctx.mode) && ctx.addLen == old(ctx.addLen)
      invariant ctx.plaintextLen == old(ctx.plaintextLen) && ctx.tagLen == old(ctx.tagLen)
    {
      ConcatNext(ads, i);
      ConcatBelow(ads, i + 1);
      var st := ctx.UpdateAd(ads[i]);
    }
    assert ads[..|ads|] == ads;
  }

  method FeedPieces(ctx: CcmContext, pieces: seq<seq<byte>>) returns (out: seq<byte>)
    requires ctx.Ready() && |ctx.ad| == ctx.addLen && ctx.text == []
    requires ctx.tagLen != 0 ==> ctx.plaintextLen == |Concat(pieces)|
    modifies ctx`processed, ctx`text, ctx.y, ctx.ctr
    ensures ctx.Ready() && NonceOk(ctx.nonce) && out == CtrXor(ctx.E, ctx.nonce, 0, Concat(pieces))
    ensures ctx.text == if ctx.mode.Encrypts() then Concat(pieces) else out
  {
    hide CtrXor, CcmContext.Ready, Concat;
    ctx.ReadyFacts();
    ConcatNone(pieces);
    CtrNone(ctx.E, ctx.nonce, 0);
    out := [];
    for i := 0 to |pieces|
      invariant ctx.Ready() && out == CtrXor(ctx.E, ctx.nonce, 0, Concat(pieces[..i]))
      invariant ctx.text == if ctx.mode.Encrypts() then Concat(pieces[..i]) else out
    {
      ConcatNext(pieces, i);
      ConcatBelow(pieces, i + 1);
      var piece := FeedPiece(ctx, pieces[i]);
      CtrGrows(ctx.E, ctx.nonce, 0, Concat(pieces[..i]), out, |out|, pieces[i], piece);
      out := out + piece;
    }
    assert pieces[..|pieces|] == pieces;
  }

  method FeedPiece(ctx: CcmContext, piece: seq<byte>) returns (out: seq<byte>)
    requires ctx.Ready() && |ctx.ad| == ctx.addLen && (ctx.tagLen != 0 ==> |ctx.text| + |piece| <= ctx.plaintextLen)
    modifies ctx`processed, ctx`text, ctx.y, ctx.ctr
    ensures ctx.Ready() && NonceOk(ctx.nonce) && out == CtrXor(ctx.E, ctx.nonce, |old(ctx.text)|, piece)
    ensures ctx.text == old(ctx.text) + if ctx.mode.Encrypts() then piece else out
  {
    hide CtrXor, CcmContext.Ready;
    ctx.ReadyFacts();
    var buf := new byte[|piece|](k requires 0 <= k < |piece| => piece[k]);
    assert buf[0..|piece|] == piece;
    var st := ctx.Update(buf, 0, |piece|, buf, 0, |piece|);
    out := buf[0..|piece|];
  }

  lemma TextGrows(a: seq<byte>, b: seq<byte>, c: seq<byte>)
    ensures (a + b) + c == a + (b + c)
  {
  }

  lemma CtrNone(E: Block -> Block, nonce: seq<byte>, pos: nat)
    requires NonceOk(nonce)
    ensures CtrXor(E, nonce, pos, []) == []
  {
  }

  lemma CtrGrows(E: Block -> Block, nonce: seq<byte>, pos: nat, a: seq<byte>, ca: seq<byte>, p: nat, b: seq<byte>, cb: seq<byte>)
    requires NonceOk(nonce) && p == pos + |a| && ca == CtrXor(E, nonce, pos, a) && cb == CtrXor(E, nonce, p, b)
    ensures ca + cb == CtrXor(E, nonce, pos, a + b)
  {
    hide CtrXor;
    CtrAppend(E, nonce, pos, a, b);
  }

  /**
    n of len bytes have been taken from the input, transformed, and written to the output, which may be the same
    buffer.
   */
  ghost predicate Moved(E: Block -> Block, nonce: seq<byte>, encrypts: bool, in0: seq<byte>, out0: seq<byte>, in1: seq<byte>,
                        out1: seq<byte>, ioff: nat, ooff: nat, len: nat, n: nat, text0: seq<byte>, text1: seq<byte>)
    requires NonceOk(nonce)
  {
    && |in1| == |in0| && |out1| == |out0| && ioff + len <= |in0| && ooff + len <= |out0| && n <= len
    && in1[ioff + n..] == in0[ioff + n..] && out1[..ooff] == out0[..ooff] && out1[ooff + len..] == out0[ooff + len..]
    && out1[ooff..ooff + n] == CtrXor(E, nonce, |text0|, in0[ioff..ioff + n])
    && text1 == text0 + if encrypts then in0[ioff..ioff + n] else out1[ooff..ooff + n]
  }

  lemma NothingMoved(E: Block -> Block, nonce: seq<byte>, encrypts: bool, in0: seq<byte>, out0: seq<byte>,
                     ioff: nat, ooff: nat, len: nat, text0: seq<byte>)
    requires NonceOk(nonce) && ioff + len <= |in0| && ooff + len <= |out0|
    ensures Moved(E, nonce, encrypts, in0, out0, in0, out0, ioff, ooff, len, 0, text0, text0)
  {
  }

  lemma AllMoved(E: Block -> Block, nonce: seq<byte>, encrypts: bool, in0: seq<byte>, out0: seq<byte>, in1: seq<byte>,
                 out1: seq<byte>, ioff: nat, ooff: nat, len: nat, text0: seq<byte>, text1: seq<byte>)
    requires NonceOk(nonce) && Moved(E, nonce, encrypts, in0, out0, in1, out1, ioff, ooff, len, len, text0, text1)
    ensures ioff + len <= |in0| && ooff + len <= |out1| == |out0|
    ensures out1[..ooff] == out0[..ooff] && out1[ooff + len..] == out0[ooff + len..]
    ensures out1[ooff..ooff + len] == CtrXor(E, nonce, |text0|, in0[ioff..ioff + len])
    ensures text1 == text0 + if encrypts then in0[ioff..ioff + len] else out1[ooff..ooff + len]
  {
  }

  lemma MovedOn(E: Block -> Block, nonce: seq<byte>, encrypts: bool, in0: seq<byte>, out0: seq<byte>,
                in1: seq<byte>, out1: seq<byte>, in2: seq<byte>, out2: seq<byte>,
                ioff: nat, ooff: nat, len: nat, n: nat, use: nat,
                text0: seq<byte>, text1: seq<byte>, chunk: seq<byte>, out: seq<byte>)
    requires NonceOk(nonce) && Moved(E, nonce, encrypts, in0, out0, in1, out1, ioff, ooff, len, n, text0, text1)
    requires n + use <= len && |out2| == |out1| && |in2| == |in1|
    requires out2[..ooff + n] == out1[..ooff + n] && out2[ooff + n + use..] == out1[ooff + n + use..]
    requires in2 == in1 || (in2 == out2 && in1 == out1 && ioff == ooff)
    requires chunk == in1[ioff + n..ioff + n + use] && out == out2[ooff + n..ooff + n + use]
    requires out == CtrXor(E, nonce, |text1|, chunk)
    ensures Moved(E, nonce, encrypts, in0, out0, in2, out2, ioff, ooff, len, n + use, text0, text1 + if encrypts then chunk else out)
  {
    hide CtrXor;
    SlicesOn(in0, out0, in1, out1, in2, out2, ioff, ooff, len, n, use);
    var inDone, outDone := in0[ioff..ioff + n], out1[ooff..ooff + n];
    CtrGrows(E, nonce, |text0|, inDone, outDone, |text1|, chunk, out);
    if encrypts {
      TextGrows(text0, inDone, chunk);
    } else {
      TextGrows(text0, outDone, out);
    }
  }

  /** What was encrypted, cut in any way, is accepted and decrypted to what it was, for all legal parameters. */
  method EncryptThenDecrypt(E: Block -> Block, star: bool, lengthsFirst: bool, iv: seq<byte>, ads: seq<seq<byte>>,
                            pieces: seq<seq<byte>>, t: nat) returns (st: CcmStatus, back: seq<byte>)
    ensures st.Ok? <==> CcmContext.ParametersOk(if star then StarEncrypt else Encrypt, iv, |Concat(ads)|, |Concat(pieces)|, t)
    ensures st.Ok? ==> back == Concat(pieces)
  {
    hide CtrXor, Tag, Concat, BigEndianFits, CcmContext.Clean;
    back := [];
    var sender := new CcmContext(E);
    var c, tag;
    st, c, tag := Run(sender, lengthsFirst, if star then StarEncrypt else Encrypt, iv, ads, pieces, t);
    if !st.Ok? {
      return;
    }
    CtrTwice(E, iv, 0, Concat(pieces));
    var receiver := new CcmContext(E);
    var input := new byte[|c|](i requires 0 <= i < |c| => c[i]);
    assert input[..|c|] == c;
    var output := new byte[|c|];
    st := AuthDecrypt(receiver, if star then StarDecrypt else Decrypt, |c|, iv, Concat(ads), input, output, tag);
    back := output[..|c|];
  }
}
