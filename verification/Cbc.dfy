/** Cipher block chaining and the paddings, over whole messages. */
module CbcSpec {
  import opened Words
  import opened Blocks

  function CbcBlock(F: Block -> Block, encrypt: bool, v: Block, b: Block): Block {
    if encrypt then F(XorSeq(b, v)) else XorSeq(F(b), v)
  }

  /** The chaining value after `data` with result c: the last ciphertext block. */
  function NextIv(encrypt: bool, iv: Block, data: seq<byte>, c: seq<byte>): Block
    requires |data| == |c| && |data| % 16 == 0
  {
    if |data| == 0 then iv else if encrypt then c[|c| - 16..] else data[|data| - 16..]
  }

  function Cbc(F: Block -> Block, encrypt: bool, iv: Block, data: seq<byte>): (c: seq<byte>)
    requires |data| % 16 == 0
    ensures |c| == |data|
    decreases |data|
  {
    if |data| == 0 then []
    else
      var head := data[..|data| - 16];
      var c := Cbc(F, encrypt, iv, head);
      c + CbcBlock(F, encrypt, NextIv(encrypt, iv, head, c), data[|data| - 16..])
  }

  lemma CbcNext(F: Block -> Block, encrypt: bool, iv: Block, a: seq<byte>, b: Block)
    requires |a| % 16 == 0
    ensures var c := Cbc(F, encrypt, iv, a); var d := CbcBlock(F, encrypt, NextIv(encrypt, iv, a, c), b);
      Cbc(F, encrypt, iv, a + b) == c + d && NextIv(encrypt, iv, a + b, c + d) == if encrypt then d else b
  {
    hide CbcBlock;
    assert (a + b)[..|a + b| - 16] == a && (a + b)[|a + b| - 16..] == b;
  }

  lemma CbcNone(F: Block -> Block, encrypt: bool, iv: Block)
    ensures Cbc(F, encrypt, iv, []) == [] && NextIv(encrypt, iv, [], []) == iv
  {
  }

  /** Every block is processed with the ciphertext block before it. */
  lemma {:induction false} CbcAt(F: Block -> Block, encrypt: bool, iv: Block, m: seq<byte>, i: nat)
    requires |m| % 16 == 0 && 16 * i + 16 <= |m|
    ensures var c := Cbc(F, encrypt, iv, m);
      BlockAt(c, i) == CbcBlock(F, encrypt, if i == 0 then iv else BlockAt(if encrypt then c else m, i - 1), BlockAt(m, i))
    decreases |m|
  {
    hide Cbc, CbcBlock;
    var n := |m| - 16;
    var head, last := m[..n], m[n..];
    var d, c := Cbc(F, encrypt, iv, head), Cbc(F, encrypt, iv, m);
    assert m == head + last;
    CbcNext(F, encrypt, iv, head, last);
    assert c[..n] == d;
    if 16 * i < n {
      CbcAt(F, encrypt, iv, head, i);
      BlockOfPrefix(c, n, i);
      BlockOfPrefix(m, n, i);
      if i > 0 {
        BlockOfPrefix(c, n, i - 1);
        BlockOfPrefix(m, n, i - 1);
      }
    } else {
      assert BlockAt(c, i) == c[n..] && BlockAt(m, i) == last;
      if i > 0 {
        assert BlockAt(c, i - 1) == d[n - 16..] && BlockAt(m, i - 1) == head[n - 16..];
      }
    }
  }

  /** What chaining means: a block is encrypted together with the ciphertext block before it ... */
  lemma EncryptedBlock(E: Block -> Block, iv: Block, m: seq<byte>, i: nat)
    requires |m| % 16 == 0 && 16 * i + 16 <= |m|
    ensures var c := Cbc(E, true, iv, m);
      BlockAt(c, i) == E(XorSeq(BlockAt(m, i), if i == 0 then iv else BlockAt(c, i - 1)))
  {
    hide Cbc, XorSeq;
    CbcAt(E, true, iv, m, i);
  }

  /** ... and that block is taken off again after decryption. */
  lemma DecryptedBlock(D: Block -> Block, iv: Block, c: seq<byte>, i: nat)
    requires |c| % 16 == 0 && 16 * i + 16 <= |c|
    ensures var m := Cbc(D, false, iv, c);
      BlockAt(m, i) == XorSeq(D(BlockAt(c, i)), if i == 0 then iv else BlockAt(c, i - 1))
  {
    hide Cbc, XorSeq;
    CbcAt(D, false, iv, c, i);
  }

  lemma CbcAppendStep(F: Block -> Block, encrypt: bool, iv: Block, ab: seq<byte>, c: seq<byte>, v: Block, b: seq<byte>, d: seq<byte>, x: Block)
    requires |ab| % 16 == 0 && |b| % 16 == 0
    requires d == Cbc(F, encrypt, v, b) && Cbc(F, encrypt, iv, ab) == c + d
    requires NextIv(encrypt, iv, ab, c + d) == NextIv(encrypt, v, b, d)
    ensures |ab + x| % 16 == 0 && |b + x| % 16 == 0
    ensures var e := Cbc(F, encrypt, v, b + x);
      Cbc(F, encrypt, iv, ab + x) == c + e && NextIv(encrypt, iv, ab + x, c + e) == NextIv(encrypt, v, b + x, e)
  {
    hide CbcBlock, Cbc, NextIv;
    CbcNext(F, encrypt, iv, ab, x);
    CbcNext(F, encrypt, v, b, x);
    var y := CbcBlock(F, encrypt, NextIv(encrypt, v, b, d), x);
    assert c + (d + y) == (c + d) + y;
  }

  /** A message may be processed in parts, each with the chaining value the one before it left. */
  lemma {:induction false} CbcAppend(F: Block -> Block, encrypt: bool, iv: Block, a: seq<byte>, b: seq<byte>)
    requires |a| % 16 == 0 && |b| % 16 == 0
    ensures var c := Cbc(F, encrypt, iv, a); var v := NextIv(encrypt, iv, a, c); var d := Cbc(F, encrypt, v, b);
      Cbc(F, encrypt, iv, a + b) == c + d && NextIv(encrypt, iv, a + b, c + d) == NextIv(encrypt, v, b, d)
    decreases |b|
  {
    hide CbcBlock, Cbc, NextIv;
    var c := Cbc(F, encrypt, iv, a);
    var v := NextIv(encrypt, iv, a, c);
    if |b| == 0 {
      assert a + b == a && c + [] == c && b == [];
      CbcNone(F, encrypt, v);
    } else {
      var n := |b| - 16;
      CbcAppend(F, encrypt, iv, a, b[..n]);
      CbcAppendStep(F, encrypt, iv, a + b[..n], c, v, b[..n], Cbc(F, encrypt, v, b[..n]), b[n..]);
      assert b == b[..n] + b[n..];
      assert a + b == a + b[..n] + b[n..];
    }
  }

  lemma {:induction false} CbcInverse(E: Block -> Block, D: Block -> Block, iv: Block, data: seq<byte>)
    requires Inverse(E, D) && |data| % 16 == 0
    ensures Cbc(D, false, iv, Cbc(E, true, iv, data)) == data
    decreases |data|
  {
    hide Inverse, Cbc;
    if |data| == 0 {
      CbcNone(E, true, iv);
      CbcNone(D, false, iv);
      assert data == [];
    } else {
      var n := |data| - 16;
      CbcInverse(E, D, iv, data[..n]);
      InverseNext(E, D, iv, data[..n], data[n..]);
      assert data == data[..n] + data[n..];
    }
  }

  lemma InverseNext(E: Block -> Block, D: Block -> Block, iv: Block, head: seq<byte>, b: Block)
    requires Inverse(E, D) && |head| % 16 == 0 && Cbc(D, false, iv, Cbc(E, true, iv, head)) == head
    ensures Cbc(D, false, iv, Cbc(E, true, iv, head + b)) == head + b
  {
    hide Inverse, Cbc, CbcBlock;
    var c := Cbc(E, true, iv, head);
    var v := NextIv(true, iv, head, c);
    CbcNext(E, true, iv, head, b);
    CbcNext(D, false, iv, c, CbcBlock(E, true, v, b));
    assert NextIv(false, iv, c, head) == v;
    BlockInverse(E, D, v, b);
  }

  lemma BlockInverse(E: Block -> Block, D: Block -> Block, v: Block, b: Block)
    requires Inverse(E, D)
    ensures CbcBlock(D, false, v, CbcBlock(E, true, v, b)) == b
  {
    XorSeqTwice(b, v);
  }

  // ---------- padding ----------

  datatype Padding = Pkcs7 | OneAndZeros | ZerosAndLen | Zeros | None

  /** The last block of a message that ends with an incomplete block `tail`. */
  function PadBlock(mode: Padding, tail: seq<byte>): Block
    requires |tail| < 16 && !mode.None?
  {
    var n := 16 - |tail|;
    match mode
    case Pkcs7 => tail + seq(n, _ => n)
    case OneAndZeros => tail + [0x80] + ZeroBytes(n - 1)
    case ZerosAndLen => tail + ZeroBytes(n - 1) + [n]
    case Zeros => tail + ZeroBytes(n)
  }

  function PadMessage(mode: Padding, data: seq<byte>): (m: seq<byte>)
    requires mode.None? ==> |data| % 16 == 0
    ensures |m| % 16 == 0
  {
    if mode.None? then data else data[..|data| - |data| % 16] + PadBlock(mode, data[|data| - |data| % 16..])
  }

  /** What the padding adds to a message: at least one byte and at most a block, of these values. */
  lemma PadMeans(mode: Padding, data: seq<byte>, k: nat)
    requires !mode.None? && |data| <= k < |PadMessage(mode, data)|
    ensures var m := PadMessage(mode, data); var n := |m| - |data|;
      && 1 <= n <= 16 && m[..|data|] == data
      && m[k] == match mode
        case Pkcs7 => n
        case OneAndZeros => if k == |data| then 0x80 else 0
        case ZerosAndLen => if k == |m| - 1 then n else 0
        case Zeros => 0
        case None => 0
  {
    var r := |data| % 16;
    assert data == data[..|data| - r] + data[|data| - r..];
    assert PadMessage(mode, data)[k] == PadBlock(mode, data[|data| - r..])[k - (|data| - r)];
  }

  /** The place after the last nonzero byte. */
  function Significant(b: seq<byte>): (n: nat)
    ensures n <= |b|
  {
    if |b| == 0 || b[|b| - 1] != 0 then |b| else Significant(b[..|b| - 1])
  }

  /** How many bytes of the last block are data. */
  function Unpad(mode: Padding, b: Block): (r: Option<nat>)
    ensures r.Some? ==> r.value <= 16
  {
    match mode
    case Pkcs7 => var n := b[15]; if 1 <= n <= 16 && (forall k :: 16 - n <= k < 16 ==> b[k] == n) then Some(16 - n) else Nothing
    case OneAndZeros => var n := Significant(b); if n > 0 && b[n - 1] == 0x80 then Some(n - 1) else Nothing
    case ZerosAndLen => var n := b[15]; if 1 <= n <= 16 && (forall k :: 16 - n <= k < 15 ==> b[k] == 0) then Some(16 - n) else Nothing
    case Zeros => Some(Significant(b))
    case None => Some(16)
  }

  lemma {:induction false} SignificantIs(b: seq<byte>, n: nat)
    requires n <= |b| && (n > 0 ==> b[n - 1] != 0) && forall k :: n <= k < |b| ==> b[k] == 0
    ensures Significant(b) == n
  {
    if n < |b| {
      SignificantIs(b[..|b| - 1], n);
    }
  }

  /** Padding is recognised exactly in the blocks that it makes; of zeros all that end the block are taken. */
  lemma UnpadIff(mode: Padding, b: Block, n: nat)
    requires !mode.None? && !mode.Zeros?
    ensures Unpad(mode, b) == Some(n) <==> n < 16 && PadBlock(mode, b[..n]) == b
  {
    match mode
    case Pkcs7 => UnpadPkcs(b, n);
    case OneAndZeros => UnpadOne(b, n);
    case ZerosAndLen => UnpadLen(b, n);
  }

  lemma UnpadPkcs(b: Block, n: nat)
    ensures Unpad(Pkcs7, b) == Some(n) <==> n < 16 && PadBlock(Pkcs7, b[..n]) == b
  {
    if n < 16 {
      var p := PadBlock(Pkcs7, b[..n]);
      if Unpad(Pkcs7, b) == Some(n) {
        assert forall k :: 0 <= k < 16 ==> p[k] == b[k];
      }
      if p == b {
        assert b[15] == p[15] == 16 - n;
        assert forall k :: n <= k < 16 ==> b[k] == p[k];
      }
    }
  }

  lemma UnpadOne(b: Block, n: nat)
    ensures Unpad(OneAndZeros, b) == Some(n) <==> n < 16 && PadBlock(OneAndZeros, b[..n]) == b
  {
    SignificantEnd(b);
    if n < 16 {
      var p := PadBlock(OneAndZeros, b[..n]);
      if Unpad(OneAndZeros, b) == Some(n) {
        assert forall k :: 0 <= k < 16 ==> p[k] == b[k];
      }
      if p == b {
        assert b[n] == p[n] == 0x80;
        assert forall k :: n + 1 <= k < 16 ==> b[k] == p[k] == 0;
        SignificantIs(b, n + 1);
      }
    }
  }

  lemma UnpadLen(b: Block, n: nat)
    ensures Unpad(ZerosAndLen, b) == Some(n) <==> n < 16 && PadBlock(ZerosAndLen, b[..n]) == b
  {
    if n < 16 {
      var p := PadBlock(ZerosAndLen, b[..n]);
      if Unpad(ZerosAndLen, b) == Some(n) {
        assert forall k :: 0 <= k < 16 ==> p[k] == b[k];
      }
      if p == b {
        assert b[15] == p[15] == 16 - n;
        assert forall k :: n <= k < 15 ==> b[k] == p[k] == 0;
      }
    }
  }

  /** The first of the zeros that end a row. */
  lemma {:induction false} SignificantEnd(b: seq<byte>)
    ensures var n := Significant(b); (n > 0 ==> b[n - 1] != 0) && forall k :: n <= k < |b| ==> b[k] == 0
  {
    if |b| > 0 && b[|b| - 1] == 0 {
      SignificantEnd(b[..|b| - 1]);
    }
  }

  /** The padding is found again; zero padding is when the data does not itself end in a zero byte. */
  lemma UnpadPad(mode: Padding, tail: seq<byte>)
    requires |tail| < 16 && !mode.None?
    ensures !mode.Zeros? ==> Unpad(mode, PadBlock(mode, tail)) == Some(|tail|)
    ensures mode.Zeros? ==> (Unpad(mode, PadBlock(mode, tail)) == Some(|tail|) <==> |tail| == 0 || tail[|tail| - 1] != 0)
  {
    var b := PadBlock(mode, tail);
    match mode
    case Pkcs7 =>
    case OneAndZeros =>
      assert b[|tail|] == 0x80;
      SignificantIs(b, |tail| + 1);
    case ZerosAndLen =>
    case Zeros =>
      if |tail| == 0 || tail[|tail| - 1] != 0 {
        SignificantIs(b, |tail|);
      } else {
        ZeroEnd(b, |tail|);
      }
  }

  lemma {:induction false} ZeroEnd(b: seq<byte>, n: nat)
    requires 0 < n <= |b| && forall k :: n - 1 <= k < |b| ==> b[k] == 0
    ensures Significant(b) < n
  {
    if n < |b| {
      ZeroEnd(b[..|b| - 1], n);
    }
  }
}

/** The buffering layer: partial blocks are kept between calls. */
module CipherLayer {
  import opened Words
  import opened Products
  import opened Blocks
  import opened CbcSpec

  datatype CipherStatus = Ok | BadInput | FullBlockExpected | InvalidPadding

  /** What decryption of a whole message gives; the padding is taken off the last block. */
  function Decrypted(D: Block -> Block, mode: Padding, iv: Block, data: seq<byte>): Option<seq<byte>> {
    if |data| % 16 != 0 then Nothing
    else
      var plain := Cbc(D, false, iv, data);
      if mode.None? then Some(plain)
      else if |plain| == 0 then Nothing
      else match Unpad(mode, plain[|plain| - 16..])
        case Some(n) => Some(plain[..|plain| - 16] + plain[|plain| - 16..][..n])
        case Nothing => Nothing
  }

  /**
    Decryption gives the message back, for every padding; with zero padding exactly when the incomplete last
    block does not itself end in a zero byte.
   */
  lemma RoundTrip(E: Block -> Block, D: Block -> Block, mode: Padding, iv: Block, data: seq<byte>)
    requires Inverse(E, D) && (mode.None? ==> |data| % 16 == 0)
    ensures !mode.Zeros? ==> Decrypted(D, mode, iv, Cbc(E, true, iv, PadMessage(mode, data))) == Some(data)
    ensures mode.Zeros? ==> (Decrypted(D, mode, iv, Cbc(E, true, iv, PadMessage(mode, data))) == Some(data)
      <==> |data| % 16 == 0 || data[|data| - 1] != 0)
  {
    hide Cbc, PadBlock, Unpad, Inverse;
    var m := PadMessage(mode, data);
    CbcInverse(E, D, iv, m);
    if !mode.None? {
      var n := |data| - |data| % 16;
      UnpadPad(mode, data[n..]);
      assert m[..|m| - 16] == data[..n] && m[|m| - 16..] == PadBlock(mode, data[n..]);
      PadKeeps(mode, data[n..]);
      assert data == data[..n] + data[n..];
    }
  }

  lemma PadKeeps(mode: Padding, tail: seq<byte>)
    requires |tail| < 16 && !mode.None?
    ensures PadBlock(mode, tail)[..|tail|] == tail
  {
  }

  // ---------- the padding functions ----------

  method AddPkcsPadding(output: array<byte>, dataLen: nat)
    requires output.Length == 16 && dataLen < 16
    modifies output
    ensures output[..] == PadBlock(Pkcs7, old(output[..dataLen]))
  {
    ghost var tail := output[..dataLen];
    var paddingLen := 16 - dataLen;
    for i := 0 to paddingLen
      invariant output[..dataLen + i] == tail + seq(i, _ => paddingLen)
    {
      output[dataLen + i] := paddingLen;
    }
    assert output[..] == output[..16];
  }

  method AddOneAndZerosPadding(output: array<byte>, dataLen: nat)
    requires output.Length == 16 && dataLen < 16
    modifies output
    ensures output[..] == PadBlock(OneAndZeros, old(output[..dataLen]))
  {
    ghost var tail := output[..dataLen];
    var paddingLen := 16 - dataLen;
    output[dataLen] := 0x80;
    for i := 1 to paddingLen
      invariant output[..dataLen + i] == tail + [0x80] + ZeroBytes(i - 1)
    {
      output[dataLen + i] := 0x00;
    }
    assert output[..] == output[..16];
  }

  method AddZerosAndLenPadding(output: array<byte>, dataLen: nat)
    requires output.Length == 16 && dataLen < 16
    modifies output
    ensures output[..] == PadBlock(ZerosAndLen, old(output[..dataLen]))
  {
    ghost var tail := output[..dataLen];
    var paddingLen := 16 - dataLen;
    for i := 1 to paddingLen
      invariant output[..dataLen + i - 1] == tail + ZeroBytes(i - 1)
    {
      output[dataLen + i - 1] := 0x00;
    }
    output[15] := paddingLen;
    assert output[..15] == tail + ZeroBytes(paddingLen - 1);
    assert output[..] == output[..15] + [paddingLen];
  }

  method AddZerosPadding(output: array<byte>, dataLen: nat)
    requires output.Length == 16 && dataLen < 16
    modifies output
    ensures output[..] == PadBlock(Zeros, old(output[..dataLen]))
  {
    ghost var tail := output[..dataLen];
    for i := dataLen to 16
      invariant output[..i] == tail + ZeroBytes(i - dataLen)
    {
      output[i] := 0x00;
    }
    assert output[..] == output[..16];
  }

  method AddPadding(mode: Padding, output: array<byte>, dataLen: nat)
    requires output.Length == 16 && dataLen < 16 && !mode.None?
    modifies output
    ensures output[..] == PadBlock(mode, old(output[..dataLen]))
  {
    match mode
    case Pkcs7 => AddPkcsPadding(output, dataLen);
    case OneAndZeros => AddOneAndZerosPadding(output, dataLen);
    case ZerosAndLen => AddZerosAndLenPadding(output, dataLen);
    case Zeros => AddZerosPadding(output, dataLen);
  }

  /** A length computed by unsigned subtraction: far too large when the padding is longer than the block. */
  lemma WrappedLength(n: byte)
    ensures n <= 16 ==> Wrap(16 - n) == 16 - n
    ensures n > 16 ==> Wrap(16 - n) > 16
  {
  }

  method GetPkcsPadding(input: Block) returns (st: CipherStatus, dataLen: nat)
    ensures match Unpad(Pkcs7, input) case Some(n) => st.Ok? && dataLen == n case Nothing => st.InvalidPadding?
  {
    hide Xor;
    var paddingLen: int := input[15];
    WrappedLength(paddingLen);
    dataLen := Wrap(16 - paddingLen);
    var bad := paddingLen > 16;
    bad := bad || paddingLen == 0;
    var padIdx := Wrap(16 - paddingLen);
    for i := 0 to 16
      invariant bad <==> paddingLen > 16 || paddingLen == 0 || exists k :: padIdx <= k < i && input[k] != paddingLen
    {
      XorIsZero(input[i], paddingLen);
      bad := bad || (Xor(input[i], paddingLen) != 0 && i >= padIdx);
    }
    st := if bad then InvalidPadding else Ok;
  }

  method GetOneAndZerosPadding(input: Block) returns (st: CipherStatus, dataLen: nat)
    ensures match Unpad(OneAndZeros, input) case Some(n) => st.Ok? && dataLen == n case Nothing => st.InvalidPadding?
  {
    hide Xor;
    var done := false;
    var bad: byte := 0x80;
    dataLen := 0;
    for i := 16 downto 0
      invariant forall k :: i <= k < 16 && !done ==> input[k] == 0
      invariant !done ==> dataLen == 0 && bad == 0x80
      invariant done ==> Significant(input) == dataLen + 1 && bad == Xor(0x80, input[dataLen])
    {
      var prevDone := done;
      done := done || input[i] != 0;
      if done != prevDone {
        SignificantIs(input, i + 1);
        dataLen := i;
        bad := Xor(bad, input[i]);
      }
    }
    if !done {
      SignificantIs(input, 0);
    } else {
      XorIsZero(0x80, input[dataLen]);
    }
    st := if bad != 0 then InvalidPadding else Ok;
  }

  method GetZerosAndLenPadding(input: Block) returns (st: CipherStatus, dataLen: nat)
    ensures match Unpad(ZerosAndLen, input) case Some(n) => st.Ok? && dataLen == n case Nothing => st.InvalidPadding?
  {
    var paddingLen: int := input[15];
    WrappedLength(paddingLen);
    dataLen := Wrap(16 - paddingLen);
    var bad := paddingLen > 16;
    bad := bad || paddingLen == 0;
    var padIdx := Wrap(16 - paddingLen);
    for i := 0 to 15
      invariant bad <==> paddingLen > 16 || paddingLen == 0 || exists k :: padIdx <= k < i && input[k] != 0
    {
      bad := bad || (input[i] != 0 && i >= padIdx);
    }
    st := if bad then InvalidPadding else Ok;
  }

  method GetZerosPadding(input: Block) returns (st: CipherStatus, dataLen: nat)
    ensures st.Ok? && Unpad(Zeros, input) == Some(dataLen)
  {
    var done := false;
    dataLen := 0;
    for i := 16 downto 0
      invariant forall k :: i <= k < 16 && !done ==> input[k] == 0
      invariant if done then Significant(input) == dataLen else dataLen == 0
    {
      var prevDone := done;
      done := done || input[i] != 0;
      if done != prevDone {
        SignificantIs(input, i + 1);
        dataLen := i + 1;
      }
    }
    if !done {
      SignificantIs(input, 0);
    }
    st := Ok;
  }

  method GetPadding(mode: Padding, input: Block) returns (st: CipherStatus, dataLen: nat)
    ensures match Unpad(mode, input) case Some(n) => st.Ok? && dataLen == n case Nothing => st.InvalidPadding?
  {
    match mode
    case Pkcs7 => st, dataLen := GetPkcsPadding(input);
    case OneAndZeros => st, dataLen := GetOneAndZerosPadding(input);
    case ZerosAndLen => st, dataLen := GetZerosAndLenPadding(input);
    case Zeros => st, dataLen := GetZerosPadding(input);
    case None => st, dataLen := Ok, 16;
  }

  // ---------- the context ----------

  /** How many of the last bytes of n are held back: decryption with padding always keeps a whole block. */
  function HeldBack(encrypt: bool, padding: Padding, n: nat): (h: nat)
    ensures h <= n && h <= 16
  {
    if encrypt || padding.None? then n % 16 else if n == 0 then 0 else 1 + (n - 1) % 16
  }

  method WriteBlock(b: Block, output: array<byte>, o: nat)
    requires o + 16 <= output.Length
    modifies output
    ensures output[o..o + 16] == b
    ensures output[..o] == old(output[..o]) && output[o + 16..] == old(output[o + 16..])
  {
    forall i | 0 <= i < 16 {
      output[o + i] := b[i];
    }
    assert output[o..o + 16] == b;
  }

  lemma HeldMore(fed: seq<byte>, n: nat, more: seq<byte>)
    requires n <= |fed|
    ensures (fed + more)[..n] == fed[..n] && (fed + more)[n..] == fed[n..] + more
  {
  }

  lemma HeldNone(encrypt: bool, padding: Padding)
    ensures HeldBack(encrypt, padding, 0) == 0
  {
  }

  lemma FedParts(fed: seq<byte>, blocks: seq<byte>, tail: seq<byte>)
    ensures var s := fed + blocks + tail;
      s == fed + (blocks + tail) && s[..|s| - |tail|] == fed + blocks && s[|s| - |tail|..] == tail
  {
  }

  lemma Halves(a: seq<byte>, row: seq<byte>, m: nat, n: nat)
    requires m <= n <= |row|
    ensures a + row[..m] + row[m..n] == a + row[..n]
  {
    assert row[..m] + row[m..n] == row[..n];
  }

  lemma HeldBlocks(encrypt: bool, padding: Padding, n: nat)
    ensures (n - HeldBack(encrypt, padding, n)) % 16 == 0
  {
  }

  lemma HeldAfterBlocks(encrypt: bool, padding: Padding, n: nat, rest: nat)
    requires n % 16 == 0 && (rest == 0 ==> encrypt || padding.None?)
    ensures HeldBack(encrypt, padding, n + rest) == HeldBack(encrypt, padding, rest)
  {
    WholeBlocksAway(n, rest);
    if rest > 0 {
      WholeBlocksAway(n, rest - 1);
    }
  }

  lemma WholeBlocksAway(n: nat, r: nat)
    requires n % 16 == 0
    ensures (n + r) % 16 == r % 16
  {
    DivModUnique(n + r, 16, n / 16 + r / 16, r % 16);
  }

  /** When everything is cached, and how much is kept otherwise. */
  lemma CutFacts(encrypt: bool, padding: Padding, n: nat, ilen: nat)
    ensures var h := HeldBack(encrypt, padding, n);
      var small := if encrypt || padding.None? then ilen < 16 - h else ilen <= 16 - h;
      if small then HeldBack(encrypt, padding, n + ilen) == h + ilen <= 16
      else var copy := if h != 0 then 16 - h else 0;
        copy <= ilen && HeldBack(encrypt, padding, n + ilen) == HeldBack(encrypt, padding, ilen - copy)
        && (ilen == copy ==> encrypt || padding.None?)
  {
    hide HeldBack;
    var h := HeldBack(encrypt, padding, n);
    HeldBound(encrypt, padding, n);
    HeldBlocks(encrypt, padding, n);
    var copy := if h != 0 then 16 - h else 0;
    if if encrypt || padding.None? then ilen < 16 - h else ilen <= 16 - h {
      if h + ilen > 0 {
        HeldAfterBlocks(encrypt, padding, n - h, h + ilen);
      }
      HeldSmall(encrypt, padding, h + ilen);
    } else if ilen > copy || encrypt || padding.None? {
      assert (n + copy) % 16 == 0;
      HeldAfterBlocks(encrypt, padding, n + copy, ilen - copy);
    }
  }

  lemma HeldBound(encrypt: bool, padding: Padding, n: nat)
    ensures encrypt || padding.None? ==> HeldBack(encrypt, padding, n) < 16
    ensures !encrypt && !padding.None? && n > 0 ==> HeldBack(encrypt, padding, n) > 0
  {
  }

  lemma HeldSmall(encrypt: bool, padding: Padding, m: nat)
    requires m < 16 || (m == 16 && !encrypt && !padding.None?)
    ensures HeldBack(encrypt, padding, m) == m
  {
  }

  /** What n of len bytes through the CBC function have done to input and output, which may be the same buffer. */
  ghost predicate Moved(F: Block -> Block, encrypt: bool, iv0: Block, in0: seq<byte>, out0: seq<byte>, in1: seq<byte>,
                        out1: seq<byte>, ioff: nat, ooff: nat, len: nat, n: nat, iv: Block)
  {
    && |in1| == |in0| && |out1| == |out0| && ioff + len <= |in0| && ooff + len <= |out0| && n <= len && n % 16 == 0
    && in1[ioff + n..] == in0[ioff + n..] && out1[..ooff] == out0[..ooff] && out1[ooff + n..] == out0[ooff + n..]
    && out1[ooff..ooff + n] == Cbc(F, encrypt, iv0, in0[ioff..ioff + n])
    && iv == NextIv(encrypt, iv0, in0[ioff..ioff + n], out1[ooff..ooff + n])
  }

  lemma NothingMoved(F: Block -> Block, encrypt: bool, iv0: Block, in0: seq<byte>, out0: seq<byte>, ioff: nat, ooff: nat, len: nat)
    requires ioff + len <= |in0| && ooff + len <= |out0|
    ensures Moved(F, encrypt, iv0, in0, out0, in0, out0, ioff, ooff, len, 0, iv0)
  {
  }

  lemma AllMoved(F: Block -> Block, encrypt: bool, iv0: Block, in0: seq<byte>, out0: seq<byte>, in1: seq<byte>,
                 out1: seq<byte>, ioff: nat, ooff: nat, len: nat, iv: Block)
    requires Moved(F, encrypt, iv0, in0, out0, in1, out1, ioff, ooff, len, len, iv)
    ensures |in1| == |in0| && |out1| == |out0| && ioff + len <= |in0| && ooff + len <= |out0| && len % 16 == 0
    ensures out1[..ooff] == out0[..ooff] && out1[ooff + len..] == out0[ooff + len..]
    ensures out1[ooff..ooff + len] == Cbc(F, encrypt, iv0, in0[ioff..ioff + len])
    ensures iv == NextIv(encrypt, iv0, in0[ioff..ioff + len], out1[ooff..ooff + len])
  {
    hide Cbc, NextIv;
  }

  lemma MovedOn(F: Block -> Block, encrypt: bool, iv0: Block, in0: seq<byte>, out0: seq<byte>, in1: seq<byte>, out1: seq<byte>,
                in2: seq<byte>, out2: seq<byte>, ioff: nat, ooff: nat, len: nat, n: nat, iv: Block, b: Block, c: Block)
    requires Moved(F, encrypt, iv0, in0, out0, in1, out1, ioff, ooff, len, n, iv)
    requires n + 16 <= len && |out2| == |out1| && |in2| == |in1|
    requires out2[..ooff + n] == out1[..ooff + n] && out2[ooff + n + 16..] == out1[ooff + n + 16..]
    requires in2 == in1 || (in2 == out2 && in1 == out1 && ioff == ooff)
    requires b == in1[ioff + n..ioff + n + 16] && c == out2[ooff + n..ooff + n + 16] && c == CbcBlock(F, encrypt, iv, b)
    ensures Moved(F, encrypt, iv0, in0, out0, in2, out2, ioff, ooff, len, n + 16, if encrypt then c else b)
  {
    hide Cbc, NextIv, CbcBlock;
    var inDone, outDone := in0[ioff..ioff + n], out1[ooff..ooff + n];
    assert b == in1[ioff + n..][..16] == in0[ioff + n..ioff + n + 16];
    assert in0[ioff..ioff + n + 16] == inDone + b;
    assert out2[ooff..ooff + n] == out2[..ooff + n][ooff..] == outDone;
    assert out2[ooff..ooff + n + 16] == outDone + c;
    assert out2[ooff + n + 16..] == out1[ooff + n..][16..];
    assert out2[..ooff] == out2[..ooff + n][..ooff];
    assert in2[ioff + n + 16..] == in1[ioff + n + 16..] == in1[ioff + n..][16..];
    CbcNext(F, encrypt, iv0, inDone, b);
  }

  /**
    The block cipher's CBC function, `mbedtls_aes_crypt_cbc`: whole blocks, also in place.  It returns the
    chaining value for the next call.
   */
  method CbcBlocks(F: Block -> Block, encrypt: bool, iv0: Block, input: array<byte>, ioff: nat, len: nat,
                   output: array<byte>, ooff: nat) returns (iv: Block)
    requires len % 16 == 0
    requires ioff + len <= input.Length && ooff + len <= output.Length && (input == output ==> ioff == ooff)
    modifies output
    ensures output[ooff..ooff + len] == Cbc(F, encrypt, iv0, old(input[ioff..ioff + len]))
    ensures iv == NextIv(encrypt, iv0, old(input[ioff..ioff + len]), output[ooff..ooff + len])
    ensures output[..ooff] == old(output[..ooff]) && output[ooff + len..] == old(output[ooff + len..])
  {
    hide Cbc, NextIv, Moved, XorSeq;
    iv := iv0;
    var n := 0;
    ghost var in0, out0 := input[..], output[..];
    NothingMoved(F, encrypt, iv0, in0, out0, ioff, ooff, len);
    while n < len
      invariant 0 <= n <= len && n % 16 == 0
      invariant Moved(F, encrypt, iv0, in0, out0, input[..], output[..], ioff, ooff, len, n, iv)
    {
      ghost var in1, out1, v := input[..], output[..], iv;
      var b := input[ioff + n..ioff + n + 16];
      var c: Block;
      if encrypt {
        c := F(XorSeq(b, iv));
        iv := c;
      } else {
        c := XorSeq(F(b), iv);
        iv := b;
      }
      WriteBlock(c, output, ooff + n);
      MovedOn(F, encrypt, iv0, in0, out0, in1, out1, input[..], output[..], ioff, ooff, len, n, v, b, c);
      n := n + 16;
    }
    AllMoved(F, encrypt, iv0, in0, out0, input[..], output[..], ioff, ooff, len, iv);
  }

  class CipherContext {
    const E: Block -> Block
    const D: Block -> Block
    const unprocessed: array<byte>
    var encrypt: bool
    var padding: Padding
    var unprocessedLen: nat
    var iv: Block
    // the message so far: where it started, what came in and what went out
    ghost var iv0: Block
    ghost var fed: seq<byte>
    ghost var out: seq<byte>

    function F(): Block -> Block
      reads this
    {
      if encrypt then E else D
    }

    ghost predicate Chained(data: seq<byte>, o: seq<byte>)
      reads this
    {
      |data| % 16 == 0 && o == Cbc(F(), encrypt, iv0, data) && iv == NextIv(encrypt, iv0, data, o)
    }

    ghost predicate Valid()
      reads this, unprocessed
    {
      && unprocessed.Length == 16 && unprocessedLen == HeldBack(encrypt, padding, |fed|)
      && unprocessed[..unprocessedLen] == fed[|fed| - unprocessedLen..]
      && Chained(fed[..|fed| - unprocessedLen], out)
    }

    /** A context that is ready for a new message: operation, padding and initialisation vector are set. */
    constructor (E: Block -> Block, D: Block -> Block, encrypt: bool, padding: Padding, iv: Block)
      ensures Valid() && fresh(unprocessed) && fed == [] && out == [] && iv0 == iv
      ensures this.E == E && this.D == D && this.encrypt == encrypt && this.padding == padding
    {
      hide Cbc, NextIv, HeldBack;
      HeldNone(encrypt, padding);
      this.E, this.D, this.encrypt, this.padding, this.iv := E, D, encrypt, padding, iv;
      unprocessed := new byte[16];
      unprocessedLen := 0;
      iv0, fed, out := iv, [], [];
      CbcNone(if encrypt then E else D, encrypt, iv);
    }

    /** One call of the CBC function moves the chain on. */
    method Process(input: array<byte>, ioff: nat, len: nat, output: array<byte>, ooff: nat, ghost data: seq<byte>, ghost o: seq<byte>)
      requires Chained(data, o) && len % 16 == 0
      requires ioff + len <= input.Length && ooff + len <= output.Length && (input == output ==> ioff == ooff)
      modifies this`iv, output
      ensures Chained(data + old(input[ioff..ioff + len]), o + output[ooff..ooff + len])
      ensures output[..ooff] == old(output[..ooff]) && output[ooff + len..] == old(output[ooff + len..])
    {
      hide Cbc, NextIv;
      CbcAppend(F(), encrypt, iv0, data, input[ioff..ioff + len]);
      iv := CbcBlocks(F(), encrypt, iv, input, ioff, len, output, ooff);
    }

    /** Not enough for a block: everything is kept. */
    method Cache(input: array<byte>, ilen: nat)
      requires Valid() && ilen <= input.Length && input != unprocessed && unprocessedLen + ilen <= 16
      requires HeldBack(encrypt, padding, |fed| + ilen) == unprocessedLen + ilen
      modifies this`unprocessedLen, this`fed, unprocessed
      ensures Valid() && fed == old(fed) + input[..ilen] && unprocessedLen == old(unprocessedLen) + ilen
    {
      hide Cbc, NextIv, HeldBack;
      ghost var n := |fed| - unprocessedLen;
      HeldMore(fed, n, input[..ilen]);
      CopyBytes(input, 0, ilen, unprocessed, unprocessedLen);
      assert input[0..0 + ilen] == input[..ilen];
      fed := fed + input[..ilen];
      unprocessedLen := unprocessedLen + ilen;
    }

    /** Everything that came in has been processed. */
    ghost predicate Drained()
      reads this
    {
      unprocessedLen == 0 && Chained(fed, out)
    }

    /** The cached bytes are completed to a block and processed. */
    method FlushCached(input: array<byte>, output: array<byte>) returns (copyLen: nat)
      requires Valid() && unprocessedLen != 0 && 16 - unprocessedLen <= input.Length && 16 <= output.Length
      requires input != output && input != unprocessed && output != unprocessed
      modifies this`unprocessedLen, this`iv, this`fed, this`out, unprocessed, output
      ensures copyLen == 16 - old(unprocessedLen) && unprocessed.Length == 16 && Drained()
      ensures fed == old(fed) + input[..copyLen] && out == old(out) + output[..16]
      ensures output[16..] == old(output[16..])
    {
      hide Cbc, NextIv, HeldBack;
      copyLen := 16 - unprocessedLen;
      ghost var n := |fed| - unprocessedLen;
      CopyBytes(input, 0, copyLen, unprocessed, unprocessedLen);
      assert unprocessed[0..0 + 16] == fed[n..] + input[..copyLen];
      Process(unprocessed, 0, 16, output, 0, fed[..n], out);
      assert fed[..n] + (fed[n..] + input[..copyLen]) == fed + input[..copyLen];
      assert output[0..0 + 16] == output[..16];
      unprocessedLen := 0;
      fed := fed + input[..copyLen];
      out := out + output[..16];
    }

    /** What remains is cut into the bytes that are kept and the blocks that are processed. */
    method ProcessRest(input: array<byte>, ip: nat, rest: nat, output: array<byte>, op: nat) returns (taken: nat)
      requires unprocessed.Length == 16 && Drained() && ip + rest <= input.Length && op + rest - HeldBack(encrypt, padding, rest) <= output.Length
      requires input != unprocessed && output != unprocessed && (input == output ==> ip == op)
      requires rest == 0 ==> encrypt || padding.None?
      modifies this`unprocessedLen, this`iv, this`fed, this`out, unprocessed, output
      ensures Valid() && fed == old(fed) + old(input[ip..ip + rest])
      ensures taken == rest - HeldBack(encrypt, padding, rest) && op + taken <= output.Length && unprocessedLen == HeldBack(encrypt, padding, rest)
      ensures out == old(out) + output[op..op + taken]
      ensures output[..op] == old(output[..op]) && output[op + taken..] == old(output[op + taken..])
    {
      hide Cbc, NextIv, HeldBack;
      HeldAfterBlocks(encrypt, padding, |fed|, rest);
      HeldBlocks(encrypt, padding, rest);
      var copyLen := KeepTail(input, ip, rest);
      taken := rest - copyLen;
      ghost var tail, blocks := unprocessed[..copyLen], input[ip..ip + taken];
      assert input[ip..ip + rest] == blocks + tail;
      ProcessBlocks(input, ip, taken, output, op);
      FedParts(fed, blocks, tail);
      out := out + output[op..op + taken];
      fed := fed + blocks + tail;
    }

    /** The full blocks, if there are any. */
    method ProcessBlocks(input: array<byte>, ip: nat, len: nat, output: array<byte>, op: nat)
      requires Chained(fed, out) && len % 16 == 0
      requires ip + len <= input.Length && op + len <= output.Length && (input == output ==> ip == op)
      modifies this`iv, output
      ensures Chained(fed + old(input[ip..ip + len]), out + output[op..op + len])
      ensures output[..op] == old(output[..op]) && output[op + len..] == old(output[op + len..])
    {
      hide Cbc, NextIv;
      if len != 0 {
        Process(input, ip, len, output, op, fed, out);
      } else {
        assert fed + input[ip..ip + len] == fed && out + output[op..op + len] == out;
      }
    }

    /** The bytes that are kept for the next call. */
    method KeepTail(input: array<byte>, ip: nat, rest: nat) returns (copyLen: nat)
      requires unprocessed.Length == 16 && unprocessedLen == 0 && ip + rest <= input.Length && input != unprocessed
      modifies this`unprocessedLen, unprocessed
      ensures copyLen == HeldBack(encrypt, padding, rest) == unprocessedLen && unprocessed[..copyLen] == input[ip + rest - copyLen..ip + rest]
    {
      copyLen := 0;
      if rest != 0 {
        copyLen := rest % 16;
        if copyLen == 0 && !encrypt && !padding.None? {
          copyLen := 16;
        }
        CopyBytes(input, ip + rest - copyLen, copyLen, unprocessed, 0);
        unprocessedLen := unprocessedLen + copyLen;
      }
    }

    /** The CBC branch of `mbedtls_cipher_update`. */
    method Update(input: array<byte>, ilen: nat, output: array<byte>) returns (st: CipherStatus, olen: nat)
      requires Valid() && ilen <= input.Length && input != unprocessed && output != unprocessed
      requires unprocessedLen + ilen - HeldBack(encrypt, padding, |fed| + ilen) <= output.Length
      modifies this`unprocessedLen, this`iv, this`fed, this`out, unprocessed, output
      ensures Valid()
      ensures st == if input == output && (old(unprocessedLen) != 0 || ilen % 16 != 0) then BadInput else Ok
      ensures st.BadInput? ==> unchanged(this) && unchanged(unprocessed) && unchanged(output) && olen == 0
      ensures st.Ok? ==> fed == old(fed) + old(input[..ilen])
      ensures st.Ok? ==> olen == old(unprocessedLen) + ilen - unprocessedLen && olen <= output.Length
      ensures st.Ok? ==> out == old(out) + output[..olen]
      ensures st.Ok? ==> output[olen..] == old(output[olen..])
    {
      hide Cbc, NextIv, HeldBack, CipherContext.Chained;
      olen := 0;
      CutFacts(encrypt, padding, |fed|, ilen);
      if input == output && (unprocessedLen != 0 || ilen % 16 != 0) {
        return BadInput, 0;
      }
      if (!encrypt && !padding.None? && ilen <= 16 - unprocessedLen)
        || (!encrypt && padding.None? && ilen < 16 - unprocessedLen)
        || (encrypt && ilen < 16 - unprocessedLen)
      {
        Cache(input, ilen);
        return Ok, 0;
      }
      olen := ProcessAll(input, ilen, output);
      st := Ok;
    }

    /** More than can be held back: the cached block, the full blocks, and a new tail. */
    method ProcessAll(input: array<byte>, ilen: nat, output: array<byte>) returns (olen: nat)
      requires Valid() && ilen <= input.Length && input != unprocessed && output != unprocessed
      requires unprocessedLen + ilen - HeldBack(encrypt, padding, |fed| + ilen) <= output.Length
      requires input == output ==> unprocessedLen == 0 && ilen % 16 == 0
      requires if encrypt || padding.None? then ilen >= 16 - unprocessedLen else ilen > 16 - unprocessedLen
      modifies this`unprocessedLen, this`iv, this`fed, this`out, unprocessed, output
      ensures Valid() && fed == old(fed) + old(input[..ilen])
      ensures olen == old(unprocessedLen) + ilen - unprocessedLen && olen <= output.Length
      ensures out == old(out) + output[..olen] && output[olen..] == old(output[olen..])
    {
      hide Cbc, NextIv, HeldBack, CipherContext.Chained;
      CutFacts(encrypt, padding, |fed|, ilen);
      olen := 0;
      var copyLen := 0;
      if unprocessedLen != 0 {
        copyLen := FlushCached(input, output);
        olen := 16;
      } else {
        assert fed[..|fed|] == fed;
      }
      ghost var first, middle := output[..olen], output[olen..];
      Halves(old(fed), input[..], copyLen, ilen);
      assert fed == old(fed) + input[..copyLen] && out == old(out) + first;
      assert olen == 16 ==> output[16..] == middle;
      var taken := ProcessRest(input, copyLen, ilen - copyLen, output, olen);
      Halves(old(out), output[..], olen, olen + taken);
      assert middle[taken..] == output[olen + taken..];
      olen := olen + taken;
    }

    /**
      The CBC branch of `mbedtls_cipher_finish`: encryption pads the last block, decryption takes the padding
      off the block that was held back.
     */
    method Finish(output: array<byte>) returns (st: CipherStatus, olen: nat)
      requires Valid() && 16 <= output.Length && output != unprocessed
      modifies this`iv, unprocessed, output
      ensures st.Ok? ==> olen <= 16
      ensures encrypt ==> st == if padding.None? && |fed| % 16 != 0 then FullBlockExpected else Ok
      ensures encrypt && st.Ok? ==> out + output[..olen] == Cbc(E, true, iv0, PadMessage(padding, fed))
      ensures !encrypt ==> match Decrypted(D, padding, iv0, fed)
        case Some(data) => st.Ok? && out + output[..olen] == data
        case Nothing => st.FullBlockExpected? || st.InvalidPadding?
    {
      hide Cbc, NextIv, PadBlock, Unpad, Decrypted;
      olen := 0;
      if encrypt {
        if padding.None? {
          NothingHeld();
          if unprocessedLen != 0 {
            return FullBlockExpected, 0;
          }
          assert out + output[..0] == out;
          return Ok, 0;
        }
        AddPadding(padding, unprocessed, unprocessedLen);
      } else if unprocessedLen != 16 {
        NothingHeld();
        NotDecrypted();
        if padding.None? && unprocessedLen == 0 {
          assert out + output[..0] == out;
          return Ok, 0;
        }
        return FullBlockExpected, 0;
      }
      ghost var head, last := fed[..|fed| - unprocessedLen], unprocessed[..];
      if !encrypt {
        assert fed == head + last;
      }
      FinalBlock(output, head, last);
      if !encrypt {
        HeldIsLast(head, last, output[..16]);
        st, olen := GetPadding(padding, output[..16]);
        assert st.Ok? ==> output[..16][..olen] == output[..olen];
        return;
      }
      assert PadMessage(padding, fed) == head + last;
      return Ok, 16;
    }

    method FinalBlock(output: array<byte>, ghost head: seq<byte>, ghost last: seq<byte>)
      requires Chained(head, out) && unprocessed.Length == 16 && last == unprocessed[..]
      requires 16 <= output.Length && output != unprocessed
      modifies this`iv, output
      ensures out + output[..16] == Cbc(F(), encrypt, iv0, head + last) && |out| == |head|
    {
      hide Cbc, NextIv;
      assert unprocessed[0..0 + 16] == unprocessed[..];
      Process(unprocessed, 0, 16, output, 0, head, out);
      assert output[0..0 + 16] == output[..16];
    }

    lemma NothingHeld()
      requires Valid()
      ensures unprocessedLen == 0 ==> |fed| % 16 == 0 && out == Cbc(F(), encrypt, iv0, fed)
    {
      if unprocessedLen == 0 {
        assert fed[..|fed|] == fed;
      }
    }

    lemma NotDecrypted()
      requires Valid() && !encrypt && unprocessedLen != 16
      ensures Decrypted(D, padding, iv0, fed) == if padding.None? && unprocessedLen == 0 then Some(Cbc(D, false, iv0, fed)) else Nothing
    {
      hide Cbc, NextIv;
    }

    /** The block that was held back, decrypted, is the last one of the plaintext. */
    lemma HeldIsLast(head: seq<byte>, last: Block, o: Block)
      requires !encrypt && !padding.None? && fed == head + last && |head| % 16 == 0 && |out| == |head|
      requires out + o == Cbc(D, false, iv0, fed)
      ensures Decrypted(D, padding, iv0, fed) ==
        match Unpad(padding, o) case Some(n) => Some(out + o[..n]) case Nothing => Nothing
    {
      hide Cbc, NextIv, Unpad;
      var plain := out + o;
      assert plain[..|plain| - 16] == out && plain[|plain| - 16..] == o;
    }
  }

  /** A whole run: a message cut into updates in any way, then the end. */
  method Run(E: Block -> Block, D: Block -> Block, encrypt: bool, padding: Padding, iv: Block, pieces: seq<seq<byte>>)
      returns (st: CipherStatus, result: seq<byte>)
    ensures encrypt ==> st == if padding.None? && |Concat(pieces)| % 16 != 0 then FullBlockExpected else Ok
    ensures encrypt && st.Ok? ==> result == Cbc(E, true, iv, PadMessage(padding, Concat(pieces)))
    ensures !encrypt ==> match Decrypted(D, padding, iv, Concat(pieces))
      case Some(data) => st.Ok? && result == data
      case Nothing => st.FullBlockExpected? || st.InvalidPadding?
  {
    hide Cbc, Decrypted, PadMessage, Concat, CipherContext.Valid;
    var ctx := new CipherContext(E, D, encrypt, padding, iv);
    ConcatNone(pieces);
    result := [];
    for i := 0 to |pieces|
      invariant ctx.Valid() && ctx.fed == Concat(pieces[..i]) && ctx.out == result
      invariant ctx.iv0 == iv && ctx.encrypt == encrypt && ctx.padding == padding
      invariant fresh(ctx) && fresh(ctx.unprocessed)
    {
      ConcatNext(pieces, i);
      var part := Piece(ctx, pieces[i]);
      result := result + part;
    }
    assert pieces[..|pieces|] == pieces;
    var output := new byte[16](_ => 0);
    var olen;
    st, olen := ctx.Finish(output);
    if st.Ok? {
      result := result + output[..olen];
    }
  }

  method Piece(ctx: CipherContext, piece: seq<byte>) returns (part: seq<byte>)
    requires ctx.Valid()
    modifies ctx`unprocessedLen, ctx`iv, ctx`fed, ctx`out, ctx.unprocessed
    ensures ctx.Valid() && ctx.fed == old(ctx.fed) + piece && ctx.out == old(ctx.out) + part
  {
    hide CipherContext.Chained;
    var input := new byte[|piece|](k requires 0 <= k < |piece| => piece[k]);
    var output := new byte[|piece| + 16](_ => 0);
    assert input[..|piece|] == piece;
    var st, olen := ctx.Update(input, |piece|, output);
    part := output[..olen];
  }
}
