/** CMAC as RFC 4493 defines it. */
module CmacSpec {
  import opened Words
  import opened Products
  import opened Blocks
  import opened MpiBinary
  import opened XtsSpec
  import DerSpec
  import Polynomials

  /** Multiplication by x of the polynomial that a block stands for, most significant bit first (section 2.3). */
  function TimesU(b: Block): Block {
    BigEndian(TimesX(Bytes(b)), 16)
  }

  function K1(E: Block -> Block): Block {
    TimesU(E(ZeroBytes(16)))
  }

  function K2(E: Block -> Block): Block {
    TimesU(K1(E))
  }

  /** Bytes that are kept until it is known whether they end the message: a whole block at most. */
  function Held(n: nat): (h: nat)
    ensures h <= n && h <= 16 && (n > 0 ==> h > 0)
  {
    if n == 0 then 0 else 1 + (n - 1) % 16
  }

  lemma HeldBlocks(n: nat)
    ensures (n - Held(n)) % 16 == 0
  {
  }

  /** An incomplete block with a one bit and zeros. */
  function PadOne(tail: seq<byte>): Block
    requires |tail| < 16
  {
    tail + [0x80] + ZeroBytes(15 - |tail|)
  }

  function LastBlock(E: Block -> Block, tail: seq<byte>): Block
    requires |tail| <= 16
  {
    if |tail| == 16 then XorSeq(tail, K1(E)) else XorSeq(PadOne(tail), K2(E))
  }

  /** The authentication code of a message (section 2.4). */
  function Cmac(E: Block -> Block, m: seq<byte>): Block {
    HeldBlocks(|m|);
    var n := |m| - Held(|m|);
    E(XorSeq(LastBlock(E, m[n..]), Chain(E, ZeroBytes(16), m[..n])))
  }

  /** A subkey is twice the block it comes from, modulo x^128 + x^7 + x^2 + x + 1. */
  ghost predicate IsSubkey(k: Block, from: Block) {
    Polynomials.IsRemainder(Bytes(k), 2 * Bytes(from))
  }

  lemma TimesUIsSubkey(b: Block)
    ensures IsSubkey(TimesU(b), b)
  {
    hide Bytes, Pow2, TimesX, BigEndian, Polynomials.Add, Polynomials.Product;
    var v, m := Bytes(b), Polynomials.MODULUS;
    var q := if v >= Pow2(127) then 1 else 0;
    BytesBound(b);
    TimesXStep(v);
    DerSpec.BytesOfBigEndian(TimesX(v), 16);
    Polynomials.ModulusIs();
    Polynomials.ProductOfZero(m);
    Polynomials.ProductNext(m, 1);
    Polynomials.AddCommutes(0, m);
    Polynomials.AddZero(m);
    assert 2 * v == Polynomials.Add(Polynomials.Product(m, q), TimesX(v));
  }

  lemma SubkeyUnique(k: Block, from: Block)
    requires IsSubkey(k, from)
    ensures k == TimesU(from)
  {
    hide Bytes, TimesU, BigEndian, Polynomials.IsRemainder;
    TimesUIsSubkey(from);
    Polynomials.RemainderUnique(Bytes(k), Bytes(TimesU(from)), 2 * Bytes(from));
    DerSpec.BigEndianOfBytes(k);
    DerSpec.BigEndianOfBytes(TimesU(from));
  }

  /** A message of n whole blocks: the first subkey goes into the last of them. */
  lemma WholeMessage(E: Block -> Block, m: seq<byte>, n: nat, k1: Block)
    requires 0 < n && |m| == 16 * n && IsSubkey(k1, E(ZeroBytes(16)))
    ensures Cmac(E, m) == E(XorSeq(XorSeq(BlockAt(m, n - 1), k1), Chain(E, ZeroBytes(16), m[..16 * n - 16])))
  {
    hide XorSeq, Chain, TimesU, IsSubkey;
    SubkeyUnique(k1, E(ZeroBytes(16)));
    DivModUnique(|m| - 1, 16, n - 1, 15);
    assert m[16 * n - 16..] == BlockAt(m, n - 1);
  }

  /** The empty message and those that end with an incomplete block: one bit, zeros, and the second subkey. */
  lemma PartMessage(E: Block -> Block, m: seq<byte>, n: nat, r: nat, k1: Block, k2: Block)
    requires |m| == 16 * n + r && r < 16 && (n > 0 ==> r > 0) && IsSubkey(k1, E(ZeroBytes(16))) && IsSubkey(k2, k1)
    ensures Cmac(E, m) == E(XorSeq(XorSeq(m[16 * n..] + [0x80] + ZeroBytes(15 - r), k2), Chain(E, ZeroBytes(16), m[..16 * n])))
  {
    hide XorSeq, Chain, TimesU, IsSubkey;
    SubkeyUnique(k1, E(ZeroBytes(16)));
    SubkeyUnique(k2, k1);
    if r > 0 {
      DivModUnique(|m| - 1, 16, n, r - 1);
    }
    assert |m| - Held(|m|) == 16 * n;
  }
}

/** The streaming implementation, which never processes the last block before the end. */
module Cmac {
  import opened Words
  import opened Products
  import opened Blocks
  import opened MpiBinary
  import opened XtsSpec
  import opened CmacSpec
  import DerSpec
  import Xts
  import Ccm

  // ---------- the subkeys ----------

  /** `out` and the bit before it are twice `low`. */
  ghost predicate Doubled(low: seq<byte>, out: seq<byte>, carry: nat) {
    Bytes(out) + carry * Pow2(8 * |out|) == 2 * Bytes(low)
  }

  /** One byte of the shift, with the bit that comes in and the one that goes out. */
  lemma ShiftByte(x: byte, low: seq<byte>, out: seq<byte>, carry: nat)
    requires carry <= 1 && |low| == |out| && Doubled(low, out, carry)
    ensures 2 * x % 256 + carry < 256 && x / 128 <= 1 && Doubled([x] + low, [2 * x % 256 + carry] + out, x / 128)
  {
    hide Bytes, Pow2;
    var y: byte := 2 * x % 256 + carry;
    var w := Pow2(8 * |out|);
    BytesPush(y, out);
    BytesPush(x, low);
    Pow2Values();
    Pow2Add(8, 8 * |out|);
    ShiftInts(x, carry, w);
  }

  lemma ShiftInts(x: nat, carry: nat, w: nat)
    requires x < 256
    ensures (2 * x % 256 + carry) * w + x / 128 * (256 * w) == 2 * (x * w) + carry * w
  {
    assert 2 * x == 256 * (x / 128) + 2 * x % 256;
    MulDist(w, 2 * x % 256, carry);
    MulAssoc(x / 128, 256, w);
    MulDist(w, x / 128 * 256, 2 * x % 256);
    MulAssoc(2, x, w);
  }

  /** Exclusive or on the last byte is exclusive or on the number. */
  lemma LastByteXor(b: seq<byte>, c: byte)
    requires |b| == 16
    ensures Bytes(b[15 := Xor(b[15], c)]) == XorBits(Bytes(b), c, 128)
  {
    hide Pow2, XorBits;
    var head, x := b[..15], b[15];
    assert b == head + [x] && b[15 := Xor(x, c)] == head + [Xor(x, c)];
    BytesSnoc(head, x);
    BytesSnoc(head, Xor(x, c));
    BytesBound(head);
    Pow2Values();
    Xts.XorLow(x, Bytes(head), c, 8, 120, 256 * Bytes(head));
  }

  /** The shift of one byte. */
  method ShiftOne(x: byte, ghost low: seq<byte>, out: seq<byte>, carry: nat) returns (shifted: seq<byte>, overflow: nat)
    requires carry <= 1 && |low| == |out| && Doubled(low, out, carry)
    ensures |shifted| == |out| + 1 && overflow == x / 128 <= 1 && Doubled([x] + low, shifted, overflow)
  {
    hide Doubled;
    ShiftByte(x, low, out, carry);
    shifted := [2 * x % 256 + carry] + out;
    overflow := x / 128;
  }

  /** The whole block shifted left by one bit. */
  method ShiftAll(input: Block) returns (out: Block, overflow: nat)
    ensures overflow == input[0] / 128 <= 1 && Doubled(input, out, overflow)
  {
    hide Doubled;
    var shifted: seq<byte> := [];
    overflow := 0;
    NoBytes(input);
    for i := 16 downto 0
      invariant |shifted| == 16 - i && overflow <= 1 && (i < 16 ==> overflow == input[i] / 128)
      invariant Doubled(input[i..], shifted, overflow)
    {
      assert input[i..] == [input[i]] + input[i + 1..];
      shifted, overflow := ShiftOne(input[i], input[i + 1..], shifted, overflow);
    }
    assert input[0..] == input;
    out := shifted;
  }

  /** `cmac_multiply_by_u`, for 16-byte blocks. */
  method MultiplyByU(input: Block) returns (output: Block)
    ensures output == TimesU(input)
  {
    hide Xor, TimesU, Doubled;
    var out, overflow := ShiftAll(input);
    var mask := if input[0] / 128 == 1 then 0xFF else 0;
    var c: byte := if mask == 0xFF then 0x87 else 0;
    output := out[15 := Xor(out[15], c)];
    Multiplied(input, out, overflow, c, output);
  }

  /** Shift and exclusive or, put together. */
  lemma Multiplied(input: Block, out: Block, overflow: nat, c: byte, output: Block)
    requires overflow <= 1 && Doubled(input, out, overflow)
    requires c == (if overflow == 1 then 0x87 else 0) && output == out[15 := Xor(out[15], c)]
    ensures output == TimesU(input)
  {
    hide Bytes, Pow2, XorBits, BigEndian;
    LastByteXor(out, c);
    ShiftedOut(input, out, overflow);
    DerSpec.BigEndianOfBytes(output);
  }

  lemma NoBytes(b: Block)
    ensures b[16..] == [] && Doubled([], [], 0)
  {
  }

  lemma ShiftedOut(input: Block, out: Block, overflow: nat)
    requires overflow <= 1 && Bytes(out) + overflow * Pow2(128) == 2 * Bytes(input)
    ensures Bytes(out) == 2 * Bytes(input) % Pow2(128) && (overflow == 1 <==> Bytes(input) >= Pow2(127))
  {
    hide Bytes, Pow2;
    BytesBound(out);
    Pow2Next(127);
    DivModUnique(2 * Bytes(input), Pow2(128), overflow, Bytes(out));
  }

  // ---------- the context ----------

  class CmacContext {
    const E: Block -> Block
    const state: array<byte>
    const unprocessed: array<byte>
    var unprocessedLen: nat
    ghost var fed: seq<byte>

    /** These blocks have gone through the chain. */
    ghost predicate Absorbed(done: seq<byte>)
      reads state
    {
      |done| % 16 == 0 && state[..] == Chain(E, ZeroBytes(16), done)
    }

    ghost predicate Valid()
      reads this, state, unprocessed
    {
      && state.Length == 16 && unprocessed.Length == 16 && state != unprocessed
      && unprocessedLen == Held(|fed|)
      && unprocessed[..unprocessedLen] == fed[|fed| - unprocessedLen..]
      && Absorbed(fed[..|fed| - unprocessedLen])
    }

    constructor (E: Block -> Block)
      ensures Valid() && fed == [] && this.E == E && fresh(state) && fresh(unprocessed)
    {
      hide Chain;
      this.E := E;
      state := new byte[16](_ => 0);
      unprocessed := new byte[16](_ => 0);
      unprocessedLen, fed := 0, [];
      new;
      assert state[..] == ZeroBytes(16) && fed[..0] == [];
      ChainNone(E, ZeroBytes(16));
    }

    /** One block through the chain; `done` is what went through before. */
    method AbsorbBlock(b: Block, ghost done: seq<byte>)
      requires state.Length == 16 && Absorbed(done)
      modifies state
      ensures Absorbed(done + b)
    {
      hide XorSeq, Chain;
      XorSeqCommutes(b, state[..]);
      var x := XorSeq(b, state[..]);
      forall k | 0 <= k < 16 {
        state[k] := x[k];
      }
      assert state[..] == x;
      Ccm.EncryptBlock(E, state);
      ChainAppend(E, ZeroBytes(16), done, b);
      ChainOne(E, Chain(E, ZeroBytes(16), done), b);
    }

    /** The cached bytes are completed to a block. */
    method FlushCached(input: seq<byte>) returns (p: nat, ghost done: seq<byte>)
      requires Valid() && 0 < unprocessedLen && |input| > 16 - unprocessedLen
      modifies this`unprocessedLen, state, unprocessed
      ensures p == 16 - old(unprocessedLen) && unprocessedLen == 0 && done == fed + input[..p] && Absorbed(done)
    {
      hide CmacContext.Absorbed;
      var n := unprocessedLen;
      p := 16 - n;
      done := fed[..|fed| - n];
      forall k | n <= k < 16 {
        unprocessed[k] := input[k - n];
      }
      assert unprocessed[..] == fed[|done|..] + input[..p];
      AbsorbBlock(unprocessed[..], done);
      unprocessedLen := 0;
      assert done + unprocessed[..] == fed + input[..p];
      done := fed + input[..p];
    }

    /** What may be the last block is cached. */
    method Keep(rest: seq<byte>)
      requires unprocessed.Length == 16 && unprocessedLen + |rest| <= 16
      modifies this`unprocessedLen, unprocessed
      ensures unprocessedLen == old(unprocessedLen) + |rest|
      ensures unprocessed[..unprocessedLen] == old(unprocessed[..unprocessedLen]) + rest
    {
      var n := unprocessedLen;
      forall k | n <= k < n + |rest| {
        unprocessed[k] := rest[k - n];
      }
      unprocessedLen := n + |rest|;
    }

    /** `mbedtls_cipher_cmac_update` */
    method Update(input: seq<byte>)
      requires Valid()
      modifies this, state, unprocessed
      ensures Valid() && fed == old(fed) + input
    {
      hide CmacContext.Absorbed, Held;
      ghost var done := fed[..|fed| - unprocessedLen];
      HeldFacts(|fed|, |input|);
      var p := 0;
      if unprocessedLen > 0 && |input| > 16 - unprocessedLen {
        p, done := FlushCached(input);
      }
      // with bytes still cached there is less than a block left, for which the loop has no rounds
      if unprocessedLen == 0 {
        AbsorbRest(input, p, done);
      } else {
        CacheAll(input);
      }
    }

    method CacheAll(input: seq<byte>)
      requires Valid() && unprocessedLen + |input| == Held(|fed| + |input|)
      modifies this`unprocessedLen, this`fed, unprocessed
      ensures Valid() && fed == old(fed) + input
    {
      hide CmacContext.Absorbed, Held;
      StillCached(fed, fed[..|fed| - unprocessedLen], unprocessed[..unprocessedLen], input);
      Keep(input);
      fed := fed + input;
    }

    /** The cache is empty: whole blocks are processed, and what may be the last one is cached. */
    method AbsorbRest(input: seq<byte>, p0: nat, ghost done0: seq<byte>)
      requires state.Length == 16 && unprocessed.Length == 16 && state != unprocessed && unprocessedLen == 0 && p0 <= |input|
      requires Absorbed(done0) && (done0 == fed + input[..p0] || (p0 == 0 && done0 == fed[..|fed|]))
      requires Held(|input| - p0) == Held(|fed| + |input|)
      modifies this`unprocessedLen, this`fed, state, unprocessed
      ensures Valid() && fed == old(fed) + input
    {
      hide CmacContext.Absorbed, Held;
      ghost var s := fed + input;
      Taken(fed, input, p0, done0);
      var p;
      ghost var done;
      p, done := AbsorbMany(input, p0, s, done0);
      Remaining(s, input, p, done);
      KeepLast(input[p..], s, done);
    }

    method KeepLast(rest: seq<byte>, ghost s: seq<byte>, ghost done: seq<byte>)
      requires state.Length == 16 && unprocessed.Length == 16 && state != unprocessed && unprocessedLen == 0
      requires |rest| == Held(|s|) && s[..|s| - |rest|] == done && s[|s| - |rest|..] == rest && Absorbed(done)
      modifies this`unprocessedLen, this`fed, unprocessed
      ensures Valid() && fed == s
    {
      hide CmacContext.Absorbed, Held;
      Keep(rest);
      assert unprocessed[..unprocessedLen] == rest;
      fed := s;
    }

    /** The loop over the blocks before the last one, which may be complete or not. */
    method AbsorbMany(input: seq<byte>, p0: nat, ghost s: seq<byte>, ghost done0: seq<byte>) returns (p: nat, ghost done: seq<byte>)
      requires state.Length == 16 && unprocessed.Length == 16 && state != unprocessed && p0 <= |input| <= |s|
      requires s[|s| - |input|..] == input && done0 == s[..|s| - |input| + p0] && Absorbed(done0)
      modifies state
      ensures p0 <= p <= |input| && |input| - p == Held(|input| - p0)
      ensures done == s[..|s| - |input| + p] && Absorbed(done)
    {
      hide CmacContext.Absorbed;
      p, done := p0, done0;
      var n := (|input| - p0 + 15) / 16;
      var j := 1;
      while j < n
        invariant 1 <= j && (j <= n || n == 0) && p == p0 + 16 * (j - 1) <= |input| && (n > 0 ==> p < |input|)
        invariant done == s[..|s| - |input| + p] && Absorbed(done)
      {
        var b := input[p..p + 16];
        ghost var base := |s| - |input|;
        assert b == s[base..][p..p + 16] == s[base + p..base + p + 16];
        AbsorbBlock(b, done);
        done := done + b;
        p := p + 16;
        j := j + 1;
      }
    }

    /** `cmac_pad` */
    method Pad() returns (padded: Block)
      requires unprocessed.Length == 16 && unprocessedLen < 16
      ensures padded == PadOne(unprocessed[..unprocessedLen])
    {
      var b: seq<byte> := [];
      for j := 0 to 16
        invariant |b| == j && forall k :: 0 <= k < j ==>
          b[k] == if k < unprocessedLen then unprocessed[k] else if k == unprocessedLen then 0x80 else 0
      {
        b := b + [if j < unprocessedLen then unprocessed[j] else if j == unprocessedLen then 0x80 else 0x00];
      }
      padded := b;
    }

    /** `mbedtls_cipher_cmac_finish`: the code of everything that was fed, however it was cut; then a fresh start. */
    method Finish() returns (output: Block)
      requires Valid()
      modifies this, state, unprocessed
      ensures output == Cmac(E, old(fed)) && Valid() && fed == []
    {
      hide Chain, XorSeq, TimesU, PadOne;
      ghost var n := |fed| - unprocessedLen;
      var zeros := ZeroBytes(16);
      var k1 := MultiplyByU(E(zeros));
      var k2 := MultiplyByU(k1);
      var last;
      if unprocessedLen < 16 {
        var padded := Pad();
        last := XorSeq(padded, k2);
      } else {
        assert unprocessed[..16] == unprocessed[..];
        last := XorSeq(unprocessed[..], k1);
      }
      assert last == LastBlock(E, fed[n..]);
      output := E(XorSeq(last, state[..]));
      unprocessedLen := 0;
      forall k | 0 <= k < 16 {
        unprocessed[k] := 0;
      }
      forall k | 0 <= k < 16 {
        state[k] := 0;
      }
      assert state[..] == zeros;
      fed := [];
      ChainNone(E, zeros);
    }
  }

  lemma Taken(fed: seq<byte>, input: seq<byte>, p: nat, done: seq<byte>)
    requires p <= |input| && (done == fed + input[..p] || (p == 0 && done == fed[..|fed|]))
    ensures var s := fed + input; s[|s| - |input|..] == input && done == s[..|s| - |input| + p]
  {
  }

  /** What has not gone through the chain is what is left of the input. */
  lemma Remaining(s: seq<byte>, input: seq<byte>, p: nat, done: seq<byte>)
    requires p <= |input| <= |s| && s[|s| - |input|..] == input && done == s[..|s| - |input| + p]
    ensures s[..|s| - |input[p..]|] == done && s[|s| - |input[p..]|..] == input[p..]
  {
    assert s[|s| - |input| + p..] == s[|s| - |input|..][p..];
  }

  lemma StillCached(fed: seq<byte>, done: seq<byte>, held: seq<byte>, input: seq<byte>)
    requires |held| <= |fed| && done == fed[..|fed| - |held|] && held == fed[|fed| - |held|..]
    ensures var s, n := fed + input, |held| + |input|; s[..|s| - n] == done && s[|s| - n..] == held + input
  {
  }

  /** How the held bytes change with more input. */
  lemma HeldFacts(n: nat, m: nat)
    ensures var h := Held(n); var total := Held(n + m);
      if h > 0 && m > 16 - h then total == Held(m - (16 - h))
      else if h == 0 then n == 0 && total == Held(m)
      else total == h + m
    ensures Held(n) == 0 <==> n == 0
  {
    hide Held;
    var h := Held(n);
    HeldZero(n);
    if n > 0 {
      HeldBlocks(n);
      var q := (n - h) / 16;
      assert n == 16 * q + h;
      if m > 16 - h {
        HeldShift(q + 1, m - (16 - h));
      } else {
        HeldShift(q, h + m);
        HeldSmall(h + m);
      }
    }
  }

  lemma HeldZero(n: nat)
    ensures Held(n) == 0 <==> n == 0
  {
  }

  lemma HeldSmall(x: nat)
    requires x <= 16
    ensures Held(x) == x
  {
  }

  lemma HeldShift(q: nat, x: nat)
    requires x > 0
    ensures Held(16 * q + x) == Held(x)
  {
    var r := x - 1;
    DivModUnique(16 * q + r, 16, q + r / 16, r % 16);
  }

  /** A whole run: any cutting into updates gives the code of the joined pieces. */
  method Run(E: Block -> Block, pieces: seq<seq<byte>>) returns (output: Block)
    ensures output == CmacSpec.Cmac(E, Concat(pieces))
  {
    hide CmacSpec.Cmac, Concat, CmacContext.Valid;
    var ctx := new CmacContext(E);
    ConcatNone(pieces);
    for i := 0 to |pieces|
      invariant ctx.Valid() && ctx.fed == Concat(pieces[..i]) && ctx.E == E
      invariant fresh(ctx) && fresh(ctx.state) && fresh(ctx.unprocessed)
    {
      ConcatNext(pieces, i);
      ctx.Update(pieces[i]);
    }
    assert pieces[..|pieces|] == pieces;
    output := ctx.Finish();
  }
}
