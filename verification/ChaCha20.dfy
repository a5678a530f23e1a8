/** ChaCha20 as a stream cipher around an arbitrary block function (section 2.4 of RFC 7539). */
module ChaCha20 {
  import opened Words
  import opened Products
  import opened Blocks
  import Ccm

  type KeyBlock = b: seq<byte> | |b| == 64 witness seq(64, _ => 0)

  /** The number of the block that holds position pos; block numbers are 32-bit words. */
  function BlockNumber(start: nat, pos: nat): nat {
    (start + pos / 64) % 0x1_0000_0000
  }

  /** Byte i of the key stream that starts with block `counter`. */
  function KeyByte(K: nat -> KeyBlock, counter: nat, i: nat): byte {
    K(BlockNumber(counter, i))[i % 64]
  }

  function StreamXor(K: nat -> KeyBlock, counter: nat, pos: nat, data: seq<byte>): (c: seq<byte>)
    ensures |c| == |data|
  {
    seq(|data|, k requires 0 <= k < |data| => Xor(data[k], KeyByte(K, counter, pos + k)))
  }

  lemma StreamAppend(K: nat -> KeyBlock, counter: nat, pos: nat, a: seq<byte>, b: seq<byte>)
    ensures StreamXor(K, counter, pos, a + b) == StreamXor(K, counter, pos, a) + StreamXor(K, counter, pos + |a|, b)
  {
    hide Xor, KeyByte;
    var l, r := StreamXor(K, counter, pos, a + b), StreamXor(K, counter, pos, a) + StreamXor(K, counter, pos + |a|, b);
    forall k | 0 <= k < |l| ensures l[k] == r[k] {
      if k >= |a| {
        assert pos + |a| + (k - |a|) == pos + k;
      }
    }
  }

  lemma StreamGrows(K: nat -> KeyBlock, counter: nat, pos: nat, a: seq<byte>, ca: seq<byte>, p: nat, b: seq<byte>, cb: seq<byte>)
    requires p == pos + |a| && ca == StreamXor(K, counter, pos, a) && cb == StreamXor(K, counter, p, b)
    ensures ca + cb == StreamXor(K, counter, pos, a + b)
  {
    hide StreamXor;
    StreamAppend(K, counter, pos, a, b);
  }

  /** The same operation decrypts. */
  lemma StreamTwice(K: nat -> KeyBlock, counter: nat, pos: nat, data: seq<byte>)
    ensures StreamXor(K, counter, pos, StreamXor(K, counter, pos, data)) == data
  {
    hide Xor, KeyByte;
    var c := StreamXor(K, counter, pos, data);
    forall k | 0 <= k < |data| ensures StreamXor(K, counter, pos, c)[k] == data[k] {
      XorTwice(data[k], KeyByte(K, counter, pos + k));
    }
  }

  /** The key stream in numbers: block j comes from the counter plus j, as a 32-bit word. */
  lemma StreamIs(K: nat -> KeyBlock, counter: nat, data: seq<byte>, j: nat, i: nat)
    requires i < 64 && 64 * j + i < |data|
    ensures StreamXor(K, counter, 0, data)[64 * j + i] == Xor(data[64 * j + i], K((counter + j) % 0x1_0000_0000)[i])
  {
    hide Xor;
    var n := 64 * j + i;
    DivModUnique(n, 64, j, i);
    assert StreamXor(K, counter, 0, data)[n] == Xor(data[n], KeyByte(K, counter, 0 + n));
  }

  /** Part of one key block, from position pos of the stream on. */
  lemma StreamChunk(K: nat -> KeyBlock, counter: nat, pos: nat, data: seq<byte>)
    requires pos % 64 + |data| <= 64
    ensures XorSeq(data, K(BlockNumber(counter, pos))[pos % 64..pos % 64 + |data|]) == StreamXor(K, counter, pos, data)
  {
    hide Xor;
    var l, r := XorSeq(data, K(BlockNumber(counter, pos))[pos % 64..pos % 64 + |data|]), StreamXor(K, counter, pos, data);
    forall k | 0 <= k < |data| ensures l[k] == r[k] {
      assert (pos + k) / 64 == pos / 64 && (pos + k) % 64 == pos % 64 + k;
    }
  }

  /** n of len bytes have been taken from the input, transformed, and written to the output, perhaps the same buffer. */
  ghost predicate Moved(K: nat -> KeyBlock, counter: nat, pos: nat, in0: seq<byte>, out0: seq<byte>, in1: seq<byte>,
                        out1: seq<byte>, ioff: nat, ooff: nat, len: nat, n: nat)
  {
    && |in1| == |in0| && |out1| == |out0| && ioff + len <= |in0| && ooff + len <= |out0| && n <= len
    && in1[ioff + n..] == in0[ioff + n..] && out1[..ooff] == out0[..ooff] && out1[ooff + len..] == out0[ooff + len..]
    && out1[ooff..ooff + n] == StreamXor(K, counter, pos, in0[ioff..ioff + n])
  }

  lemma MovedOn(K: nat -> KeyBlock, counter: nat, pos: nat, in0: seq<byte>, out0: seq<byte>, in1: seq<byte>, out1: seq<byte>,
                in2: seq<byte>, out2: seq<byte>, ioff: nat, ooff: nat, len: nat, n: nat, use: nat)
    requires Moved(K, counter, pos, in0, out0, in1, out1, ioff, ooff, len, n)
    requires n + use <= len && |out2| == |out1| && |in2| == |in1|
    requires out2[..ooff + n] == out1[..ooff + n] && out2[ooff + n + use..] == out1[ooff + n + use..]
    requires in2 == in1 || (in2 == out2 && in1 == out1 && ioff == ooff)
    requires out2[ooff + n..ooff + n + use] == StreamXor(K, counter, pos + n, in1[ioff + n..ioff + n + use])
    ensures Moved(K, counter, pos, in0, out0, in2, out2, ioff, ooff, len, n + use)
  {
    hide StreamXor;
    SlicesOn(in0, out0, in1, out1, in2, out2, ioff, ooff, len, n, use);
    StreamGrows(K, counter, pos, in0[ioff..ioff + n], out1[ooff..ooff + n],
                pos + n, in1[ioff + n..ioff + n + use], out2[ooff + n..ooff + n + use]);
  }

  class ChaCha20Context {
    // the block function with its key and nonce
    const K: nat -> KeyBlock
    var counter: nat
    var keystream: KeyBlock
    var used: nat
    // where the stream started, and how far it has come
    ghost var start: nat
    ghost var pos: nat

    ghost predicate Valid()
      reads this
    {
      && used == (if pos % 64 == 0 then 64 else pos % 64)
      && counter == BlockNumber(start, pos + 63)
      && (used < 64 ==> keystream == K(BlockNumber(start, pos)))
    }

    /** `mbedtls_chacha20_starts` on a context with a key. */
    constructor (K: nat -> KeyBlock, counter: nat)
      requires counter < 0x1_0000_0000
      ensures Valid() && this.K == K && start == counter && pos == 0
    {
      this.K := K;
      this.counter := counter;
      keystream := seq(64, _ => 0);
      used := 64;
      start, pos := counter, 0;
    }

    /** A new key block; the counter wraps around. */
    method NextBlock()
      requires counter == BlockNumber(start, pos)
      modifies this`keystream, this`counter
      ensures keystream == K(BlockNumber(start, pos))
      ensures counter == BlockNumber(start, pos + 64)
    {
      keystream := K(counter);
      counter := (counter + 1) % 0x1_0000_0000;
    }

    /** Bytes from the key block at hand. */
    method Take(from: nat, use: nat, input: array<byte>, ioff: nat, output: array<byte>, ooff: nat)
      requires from == pos % 64 && from + use <= 64 && keystream == K(BlockNumber(start, pos))
      requires ioff + use <= input.Length && ooff + use <= output.Length && (input == output ==> ioff == ooff)
      modifies this`pos, output
      ensures pos == old(pos) + use
      ensures output[ooff..ooff + use] == StreamXor(K, start, old(pos), old(input[ioff..ioff + use]))
      ensures output[..ooff] == old(output[..ooff]) && output[ooff + use..] == old(output[ooff + use..])
    {
      hide StreamXor, XorSeq, BlockNumber;
      StreamChunk(K, start, pos, input[ioff..ioff + use]);
      Ccm.Crypt(keystream[from..from + use], input, ioff, output, ooff);
      pos := pos + use;
    }

    /** `mbedtls_chacha20_update`: leftover key bytes, full blocks, and the beginning of a last one. */
    method Update(size: nat, input: array<byte>, ioff: nat, output: array<byte>, ooff: nat)
      requires Valid() && ioff + size <= input.Length && ooff + size <= output.Length && (input == output ==> ioff == ooff)
      modifies this, output
      ensures Valid() && start == old(start) && pos == old(pos) + size
      ensures output[ooff..ooff + size] == StreamXor(K, start, old(pos), old(input[ioff..ioff + size]))
      ensures output[..ooff] == old(output[..ooff]) && output[ooff + size..] == old(output[ooff + size..])
    {
      hide StreamXor, Moved, BlockNumber;
      ghost var in0, out0, pos0 := input[..], output[..], pos;
      StartMoving(K, start, pos, in0, out0, ioff, ooff, size);
      var n := 0;
      if size > 0 && used < 64 {
        n := Leftover(size, input, ioff, output, ooff, in0, out0);
      }
      while size - n >= 64
        invariant 0 <= n <= size && pos == pos0 + n && start == old(start) && Valid() && (n < size ==> used == 64)
        invariant Moved(K, start, pos0, in0, out0, input[..], output[..], ioff, ooff, size, n)
      {
        Round(64, size, input, ioff, output, ooff, n, pos0, in0, out0);
        n := n + 64;
      }
      if size - n > 0 {
        Round(size - n, size, input, ioff, output, ooff, n, pos0, in0, out0);
        used := size - n;
        n := size;
      }
      StopMoving(K, start, pos0, in0, out0, input[..], output[..], ioff, ooff, size);
    }

    /** The rest of the last key block. */
    method Leftover(size: nat, input: array<byte>, ioff: nat, output: array<byte>, ooff: nat, ghost in0: seq<byte>, ghost out0: seq<byte>)
        returns (n: nat)
      requires Valid() && 0 < size && used < 64
      requires ioff + size <= input.Length && ooff + size <= output.Length && (input == output ==> ioff == ooff)
      requires Moved(K, start, pos, in0, out0, input[..], output[..], ioff, ooff, size, 0)
      modifies this`used, this`pos, output
      ensures 0 < n <= size && Valid() && pos == old(pos) + n && (n < size ==> used == 64)
      ensures Moved(K, start, old(pos), in0, out0, input[..], output[..], ioff, ooff, size, n)
    {
      hide StreamXor, Moved, BlockNumber;
      ghost var in1, out1, pos0 := input[..], output[..], pos;
      n := if size < 64 - used then size else 64 - used;
      Within(start, pos0, n);
      Take(used, n, input, ioff, output, ooff);
      used := used + n;
      assert Valid();
      MovedOn(K, start, pos0, in0, out0, in1, out1, input[..], output[..], ioff, ooff, size, 0, n);
    }

    /** A new key block for the next `use` bytes. */
    method Round(use: nat, size: nat, input: array<byte>, ioff: nat, output: array<byte>, ooff: nat, n: nat,
                 ghost pos0: nat, ghost in0: seq<byte>, ghost out0: seq<byte>)
      requires Valid() && used == 64 && 0 < use <= 64 && n + use <= size && pos == pos0 + n
      requires ioff + size <= input.Length && ooff + size <= output.Length && (input == output ==> ioff == ooff)
      requires Moved(K, start, pos0, in0, out0, input[..], output[..], ioff, ooff, size, n)
      modifies this`keystream, this`counter, this`pos, output
      ensures pos == old(pos) + use && counter == BlockNumber(start, pos + 63) && used == 64
      ensures use == 64 ==> Valid()
      ensures use < 64 ==> pos % 64 == use && keystream == K(BlockNumber(start, pos))
      ensures Moved(K, start, pos0, in0, out0, input[..], output[..], ioff, ooff, size, n + use)
    {
      hide StreamXor, Moved, BlockNumber;
      ghost var in1, out1, pos1 := input[..], output[..], pos;
      Within(start, pos1, use);
      NextBlock();
      Take(0, use, input, ioff + n, output, ooff + n);
      MovedOn(K, start, pos0, in0, out0, in1, out1, input[..], output[..], ioff, ooff, size, n, use);
    }
  }

  lemma Within(start: nat, pos: nat, use: nat)
    requires 0 < use && pos % 64 + use <= 64
    ensures pos % 64 == 0 ==> BlockNumber(start, pos + 63) == BlockNumber(start, pos)
    ensures pos % 64 != 0 ==> BlockNumber(start, pos + 63) == BlockNumber(start, pos + 64)
    ensures BlockNumber(start, pos + use + 63) == BlockNumber(start, pos + 64)
    ensures pos % 64 + use < 64 ==> BlockNumber(start, pos + use) == BlockNumber(start, pos)
    ensures (pos + use) % 64 == if pos % 64 + use < 64 then pos % 64 + use else 0
  {
    var q, r := pos / 64, pos % 64;
    assert (pos + 63) / 64 == if r == 0 then q else q + 1;
    assert (pos + 64) / 64 == q + 1;
    assert (pos + use + 63) / 64 == q + 1;
    assert r + use < 64 ==> (pos + use) / 64 == q;
  }

  lemma StartMoving(K: nat -> KeyBlock, counter: nat, pos: nat, in0: seq<byte>, out0: seq<byte>, ioff: nat, ooff: nat, len: nat)
    requires ioff + len <= |in0| && ooff + len <= |out0|
    ensures Moved(K, counter, pos, in0, out0, in0, out0, ioff, ooff, len, 0)
  {
  }

  lemma StopMoving(K: nat -> KeyBlock, counter: nat, pos: nat, in0: seq<byte>, out0: seq<byte>, in1: seq<byte>, out1: seq<byte>,
                   ioff: nat, ooff: nat, len: nat)
    requires Moved(K, counter, pos, in0, out0, in1, out1, ioff, ooff, len, len)
    ensures ioff + len <= |in0| && ooff + len <= |out1| == |out0|
    ensures out1[..ooff] == out0[..ooff] && out1[ooff + len..] == out0[ooff + len..]
    ensures out1[ooff..ooff + len] == StreamXor(K, counter, pos, in0[ioff..ioff + len])
  {
    hide StreamXor;
  }

  /** A whole run: the pieces may be cut in any way. */
  method Run(K: nat -> KeyBlock, counter: nat, pieces: seq<seq<byte>>) returns (out: seq<byte>)
    requires counter < 0x1_0000_0000
    ensures out == StreamXor(K, counter, 0, Concat(pieces))
  {
    hide StreamXor, Concat, ChaCha20Context.Valid;
    var ctx := new ChaCha20Context(K, counter);
    ConcatNone(pieces);
    assert StreamXor(K, counter, 0, []) == [];
    out := [];
    for i := 0 to |pieces|
      invariant ctx.Valid() && ctx.K == K && ctx.start == counter && ctx.pos == |out| && fresh(ctx)
      invariant out == StreamXor(K, counter, 0, Concat(pieces[..i]))
    {
      ConcatNext(pieces, i);
      var n := |pieces[i]|;
      var buf := new byte[n](k requires 0 <= k < n => pieces[i][k]);
      assert buf[0..0 + n] == pieces[i];
      ctx.Update(n, buf, 0, buf, 0);
      StreamAppend(K, counter, 0, Concat(pieces[..i]), pieces[i]);
      out := out + buf[0..0 + n];
    }
    assert pieces[..|pieces|] == pieces;
  }
}
