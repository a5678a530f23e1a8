/** Big numbers as byte strings, comparison without branches, and random numbers. */
module MpiBinary {
  import opened Words
  import opened Products
  import opened Limbs
  import opened Status
  import opened MpiModule
  import opened MpiBits
  import opened Numerals
  import MpiString
  import ConstantTime

  /** The number that a row of bytes denotes, most significant first. */
  function Bytes(b: seq<byte>): nat {
    Value(b, 256)
  }

  lemma BytesBound(b: seq<byte>)
    ensures Bytes(b) < Pow2(8 * |b|)
  {
    hide Value, Pow2;
    Pow2Values();
    ValueBound(b, 8);
  }

  lemma BytesSnoc(b: seq<byte>, x: byte)
    ensures Bytes(b + [x]) == 256 * Bytes(b) + x
  {
    hide Value;
    ValueSnoc(b, x, 256);
  }

  lemma BytesPush(x: byte, b: seq<byte>)
    ensures Bytes([x] + b) == x * Pow2(8 * |b|) + Bytes(b)
  {
    hide Value, Pow2;
    Pow2Values();
    ValuePush(x, b, 8);
  }

  /** `CHARS_TO_LIMBS` */
  function CharsToLimbs(n: nat): (l: nat)
    ensures n <= l * CIL < n + CIL
  {
    n / CIL + if n % CIL != 0 then 1 else 0
  }

  /** `mbedtls_mpi_size` */
  method Size(X: Mpi) returns (n: nat)
    ensures n == (BitCount(Val(X.p)) + 7) / 8
  {
    var bits := BitLen(X);
    n := (bits + 7) / 8;
  }

  /** The size is the least number of bytes that hold the value. */
  lemma SizeBounds(v: nat)
    ensures var n := (BitCount(v) + 7) / 8; v < Pow2(8 * n) && (n > 0 ==> Pow2(8 * (n - 1)) <= v)
  {
    hide Pow2, BitCount, IsBitLen;
    BitCountIs(v);
    WholeBytes(v, BitCount(v), (BitCount(v) + 7) / 8);
  }

  lemma WholeBytes(v: nat, bits: nat, n: nat)
    requires IsBitLen(v, bits) && n == (bits + 7) / 8
    ensures v < Pow2(8 * n) && (n > 0 ==> Pow2(8 * (n - 1)) <= v)
  {
    hide Pow2;
    Pow2Monotonic(bits, 8 * n);
    if n > 0 {
      Pow2Monotonic(8 * (n - 1), bits - 1);
    }
  }

  /** `mbedtls_mpi_resize_clear` */
  method ResizeClear(X: Mpi, limbs: nat) returns (r: Status)
    modifies X
    ensures r.Ok? || r.AllocFailed?
    ensures r.Ok? ==> X.p == Zeros(limbs) && X.s == 1
  {
    if limbs == 0 {
      X.s, X.p := 1, [];
      return Ok;
    } else if |X.p| == limbs {
      X.s, X.p := 1, Zeros(limbs);
      return Ok;
    }
    X.s, X.p := 1, [];
    r := X.Grow(limbs);
    assert r.Ok? ==> X.p == Zeros(limbs);
  }

  /** Byte i of the row, `GET_BYTE`. */
  function GetByte(p: seq<limb>, i: nat): (c: byte)
    requires i < |p| * CIL
  {
    InRow(|p|, i);
    p[i / CIL] / Pow2(8 * (i % CIL)) % 256
  }

  lemma InRow(n: nat, i: nat)
    requires i < n * CIL
    ensures i / CIL < n
  {
    var k := i / CIL;
    assert i == CIL * k + i % CIL;
    if k >= n {
      MulMono(n, k, CIL);
    }
  }

  lemma ByteOfValue(p: seq<limb>, i: nat)
    requires i < |p| * CIL
    ensures Val(p) / Pow2(8 * i) == 256 * (Val(p) / Pow2(8 * (i + 1))) + GetByte(p, i)
  {
    hide Val, Pow2;
    InRow(|p|, i);
    MpiString.BytePosition(p, i / CIL, i % CIL);
    assert i == CIL * (i / CIL) + i % CIL;
  }

  /** Above the last stored byte there is nothing. */
  lemma AboveRow(p: seq<limb>)
    ensures Val(p) < Pow2(8 * (|p| * CIL)) && Val(p) / Pow2(8 * (|p| * CIL)) == 0
  {
    hide Val, Pow2;
    ValBound(p);
    BPowIsPow2(|p|);
    MulAssoc(|p|, CIL, 8);
    DivModUnique(Val(p), BPow(|p|), 0, Val(p));
  }

  /** Zero bytes from i on mean that the value needs only i bytes. */
  lemma {:induction false} ZeroBytesAbove(p: seq<limb>, i: nat)
    requires i <= |p| * CIL && forall k :: i <= k < |p| * CIL ==> GetByte(p, k) == 0
    ensures Val(p) < Pow2(8 * i) && Val(p) / Pow2(8 * i) == 0
    decreases |p| * CIL - i
  {
    hide Val, Pow2, GetByte;
    if i == |p| * CIL {
      AboveRow(p);
    } else {
      ByteOfValue(p, i);
      ZeroBytesAbove(p, i + 1);
      QuotientZero(Val(p), Pow2(8 * i));
    }
  }

  lemma QuotientZero(v: nat, d: nat)
    requires 0 < d
    ensures v / d == 0 <==> v < d
  {
    if v < d {
      DivModUnique(v, d, 0, v);
    }
  }

  lemma NonzeroByte(p: seq<limb>, i: nat, len: nat)
    requires len <= i < |p| * CIL && GetByte(p, i) != 0
    ensures Val(p) >= Pow2(8 * len)
  {
    hide Val, Pow2, GetByte;
    ByteOfValue(p, i);
    QuotientZero(Val(p), Pow2(8 * i));
    Pow2Monotonic(8 * len, 8 * i);
  }

  /** The bytes below i, and what is above them. */
  lemma ByteStep(p: seq<limb>, i: nat, low: seq<byte>)
    requires i < |p| * CIL && |low| == i && Val(p) == Pow2(8 * i) * (Val(p) / Pow2(8 * i)) + Bytes(low)
    ensures Val(p) == Pow2(8 * (i + 1)) * (Val(p) / Pow2(8 * (i + 1))) + Bytes([GetByte(p, i)] + low)
  {
    hide Val, Pow2, GetByte, Bytes;
    var c := GetByte(p, i);
    ByteOfValue(p, i);
    BytesPush(c, low);
    Pow2Values();
    Pow2Add(8 * i, 8);
    var w, q := Pow2(8 * i), Val(p) / Pow2(8 * (i + 1));
    assert Pow2(8 * (i + 1)) == w * 256;
    ByteStepInts(Val(p), w, q, c, Bytes(low));
  }

  lemma ByteStepInts(v: int, w: int, q: int, c: int, low: int)
    requires v == w * (256 * q + c) + low
    ensures v == (w * 256) * q + (c * w + low)
  {
    MulDist(w, 256 * q, c);
    MulAssoc(w, 256, q);
  }

  /**
    `mbedtls_mpi_write_binary` into the len bytes at `off`: the magnitude, most significant byte first.  It
    fails exactly when the magnitude does not fit.
   */
  method WriteBinary(X: Mpi, buf: array<byte>, off: nat, len: nat) returns (st: Status)
    requires off + len <= buf.Length
    modifies buf
    ensures st.Ok? || st.BufferTooSmall?
    ensures st.Ok? <==> Val(X.p) < Pow2(8 * len)
    ensures st.Ok? ==> Bytes(buf[off..off + len]) == Val(X.p)
    ensures st.Ok? ==> buf[..off] == old(buf[..off]) && buf[off + len..] == old(buf[off + len..])
  {
    hide Val, Pow2, Value, GetByte;
    var stored := |X.p| * CIL;
    var copy, p := stored, off;
    AboveRow(X.p);
    if stored < len {
      p := off + len - stored;
      Pow2Monotonic(8 * stored, 8 * len);
      for i := off to p
        invariant buf[off..i] == seq(i - off, _ => 0)
        invariant buf[..off] == old(buf[..off]) && buf[off + len..] == old(buf[off + len..])
      {
        buf[i] := 0;
      }
    } else {
      copy := len;
      for i := copy to stored
        invariant forall k :: copy <= k < i ==> GetByte(X.p, k) == 0
      {
        if GetByte(X.p, i) != 0 {
          NonzeroByte(X.p, i, len);
          return BufferTooSmall;
        }
      }
      ZeroBytesAbove(X.p, copy);
    }
    WriteBytes(X.p, buf, p, copy);
    assert buf[off..p] == seq(p - off, _ => 0);
    ValueLeadingZeros(p - off, buf[p..p + copy], 256);
    assert buf[off..off + len] == seq(p - off, _ => 0) + buf[p..p + copy];
    st := Ok;
  }

  /** The copying loop. */
  method WriteBytes(x: seq<limb>, buf: array<byte>, p: nat, copy: nat)
    requires p + copy <= buf.Length && copy <= |x| * CIL && Val(x) / Pow2(8 * copy) == 0
    modifies buf
    ensures Bytes(buf[p..p + copy]) == Val(x)
    ensures buf[..p] == old(buf[..p]) && buf[p + copy..] == old(buf[p + copy..])
  {
    hide Val, Pow2, Value, GetByte;
    Pow2Zero();
    DivByOne(Val(x));
    assert buf[p + copy..p + copy] == [];
    MpiString.EmptyValue([], 256);
    for i := 0 to copy
      invariant Val(x) == Pow2(8 * i) * (Val(x) / Pow2(8 * i)) + Bytes(buf[p + copy - i..p + copy])
      invariant buf[..p] == old(buf[..p]) && buf[p + copy..] == old(buf[p + copy..])
    {
      ghost var low: seq<byte> := buf[p + copy - i..p + copy];
      ByteStep(x, i, low);
      buf[p + (copy - i - 1)] := GetByte(x, i);
      assert buf[p + copy - (i + 1)..p + copy] == [GetByte(x, i)] + low;
    }
    assert buf[p + copy - copy..p + copy] == buf[p..p + copy];
  }

  /** The limb held by ciL bytes, most significant first (`mpi_uint_bigendian_to_host`). */
  method LoadLimb(b: seq<byte>) returns (x: limb)
    requires |b| == CIL
    ensures x == Bytes(b)
  {
    hide Value, Pow2;
    BaseIsPow2();
    var tmp: nat := 0;
    MpiString.EmptyValue(b, 256);
    assert b[..0] == [];
    for i := 0 to CIL
      invariant tmp == Bytes(b[..i])
    {
      assert b[..i + 1] == b[..i] + [b[i]];
      ValueSnoc(b[..i], b[i], 256);
      tmp := tmp * 256 + b[i];
    }
    assert b[..CIL] == b;
    BytesBound(b);
    x := tmp;
  }

  lemma {:induction false} BytesAppend(a: seq<byte>, b: seq<byte>)
    ensures Bytes(a + b) == Bytes(a) * Pow2(8 * |b|) + Bytes(b)
  {
    if |a| == 0 {
      assert a + b == b;
    } else {
      BytesAppend(a[1..], b);
      BytesPush(a[0], a[1..]);
      BytesPush(a[0], a[1..] + b);
      assert a == [a[0]] + a[1..] && a + b == [a[0]] + (a[1..] + b);
      Pow2Add(8 * (|a| - 1), 8 * |b|);
      MulAssoc(a[0], Pow2(8 * (|a| - 1)), Pow2(8 * |b|));
      MulDist(Pow2(8 * |b|), a[0] * Pow2(8 * (|a| - 1)), Bytes(a[1..]));
    }
  }

  /** The limbs, last chunk first, that a row of whole limbs in big-endian order denotes (`mpi_bigendian_to_host`). */
  method LoadLimbs(b: seq<byte>, limbs: nat) returns (p: seq<limb>)
    requires |b| == limbs * CIL
    ensures |p| == limbs && Val(p) == Bytes(b)
  {
    hide Val, Value, Pow2;
    p := [];
    ValNone(p);
    MpiString.EmptyValue(b, 256);
    MulNonNeg(limbs, CIL);
    assert b[|b|..] == [];
    for i := 0 to limbs
      invariant |p| == i && i * CIL <= |b| && Val(p) == Bytes(b[|b| - i * CIL..])
    {
      MulMono(i + 1, limbs, CIL);
      MulDist(CIL, i, 1);
      MulNonNeg(i, CIL);
      var m := |b| - (i + 1) * CIL;
      var x := LoadLimb(b[m..m + CIL]);
      assert b[m..] == b[m..m + CIL] + b[m + CIL..];
      BytesAppend(b[m..m + CIL], b[m + CIL..]);
      ValPush(p, x);
      BPowIsPow2(i);
      MulAssoc(i, CIL, 8);
      p := p + [x];
    }
    assert b[|b| - limbs * CIL..] == b;
  }

  /** `mbedtls_mpi_read_binary`: never negative, and as many limbs as the bytes need. */
  method ReadBinary(X: Mpi, buf: seq<byte>) returns (st: Status)
    modifies X
    ensures st.Ok? || st.AllocFailed?
    ensures st.Ok? ==> X.Int() == Val(X.p) == Bytes(buf) && X.s == 1 && |X.p| == CharsToLimbs(|buf|)
  {
    hide Val, Value;
    var limbs := CharsToLimbs(|buf|);
    var overhead := limbs * CIL - |buf|;
    :- ResizeClear(X, limbs);
    if |buf| != 0 {
      X.p := LoadLimbs(seq(overhead, _ => 0) + buf, limbs);
      ValueLeadingZeros(overhead, buf, 256);
    } else {
      ValZeros(limbs);
      assert buf == buf[..0];
      MpiString.EmptyValue(buf, 256);
    }
    return Ok;
  }

  /** The order in which `mbedtls_mpi_lt_mpi_ct` sees signed numbers: a negative zero is below zero. */
  ghost predicate SignedLess(s: sign, a: nat, t: sign, b: nat) {
    if s != t then s == -1 else Signed(s, a) < Signed(t, b)
  }

  /** That is the order of the values but for this one pair. */
  lemma SignedLessIff(s: sign, a: nat, t: sign, b: nat)
    ensures SignedLess(s, a, t, b) == (Signed(s, a) < Signed(t, b)) <==> !(s == -1 && t == 1 && a == 0 && b == 0)
  {
  }

  /** `mbedtls_ct_mpi_uint_lt`, by bit operations. */
  method LimbLess(x: limb, y: limb) returns (less: bool)
    ensures less == (x < y)
  {
    BaseIsPow2();
    ConstantTime.LtIs(x, y, BIL);
    less := ConstantTime.Lt(x, y, BIL) == 1;
  }

  /** `mbedtls_mpi_lt_mpi_ct`: every limb is looked at, the most significant difference decides. */
  method LtMpiCt(X: Mpi, Y: Mpi) returns (st: Status, ret: bool)
    ensures st.Ok? || st.BadInputData?
    ensures st.Ok? <==> |X.p| == |Y.p|
    ensures st.Ok? ==> ret == SignedLess(X.s, Val(X.p), Y.s, Val(Y.p))
    ensures st.Ok? ==> (ret == (X.Int() < Y.Int()) <==> !(X.s == -1 && Y.s == 1 && X.Int() == 0 && Y.Int() == 0))
  {
    hide Val;
    if |X.p| != |Y.p| {
      return BadInputData, false;
    }
    var xNegative, yNegative := X.s == -1, Y.s == -1;
    var cond := xNegative != yNegative;
    ret := cond && xNegative;
    var done := cond;
    assert X.p[|X.p|..] == Y.p[|X.p|..];
    for i := |X.p| downto 0
      invariant X.s != Y.s ==> done && ret == (X.s == -1)
      invariant X.s == Y.s && !done ==> !ret && X.p[i..] == Y.p[i..]
      invariant X.s == Y.s && done ==> Val(X.p) != Val(Y.p) && ret == (Signed(X.s, Val(X.p)) < Signed(Y.s, Val(Y.p)))
    {
      if !done {
        assert X.p[i..] == [X.p[i]] + X.p[i + 1..] && Y.p[i..] == [Y.p[i]] + Y.p[i + 1..];
        if Y.p[i] < X.p[i] {
          ValCompare(Y.p, X.p, i);
        } else if X.p[i] < Y.p[i] {
          ValCompare(X.p, Y.p, i);
        }
      }
      cond := LimbLess(Y.p[i], X.p[i]);
      ret := ret || (cond && !done && xNegative);
      done := done || cond;
      cond := LimbLess(X.p[i], Y.p[i]);
      ret := ret || (cond && !done && !xNegative);
      done := done || cond;
    }
    assert X.p[0..] == X.p && Y.p[0..] == Y.p;
    SignedLessIff(X.s, Val(X.p), Y.s, Val(Y.p));
    st := Ok;
  }

  /**
    `mpi_fill_random_internal`: the random generator is an arbitrary source of bytes, and it may fail.  The
    size and the sign of X stay.
   */
  method FillRandomBytes(X: Mpi, n: nat) returns (st: Status)
    modifies X
    ensures st.Ok? || st.BadInputData? || st.RngFailed?
    ensures st.BadInputData? <==> |X.p| < CharsToLimbs(n)
    ensures X.s == old(X.s) && |X.p| == old(|X.p|)
    ensures st.Ok? ==> Val(X.p) < Pow2(8 * n)
  {
    hide Val, Value, Pow2;
    var limbs := CharsToLimbs(n);
    var overhead := limbs * CIL - n;
    if |X.p| < limbs {
      return BadInputData;
    }
    if * {
      return RngFailed;
    }
    ghost var some: seq<byte> := seq(n, _ => 0);
    assert |some| == n;
    var bytes: seq<byte> :| |bytes| == n;
    var low := LoadLimbs(seq(overhead, _ => 0) + bytes, limbs);
    ValueLeadingZeros(overhead, bytes, 256);
    BytesBound(bytes);
    ValGrow(low, |X.p| - limbs);
    X.p := low + Zeros(|X.p| - limbs);
    st := Ok;
  }

  /** `mbedtls_mpi_fill_random` */
  method FillRandom(X: Mpi, size: nat) returns (st: Status)
    modifies X
    ensures st.Ok? || st.AllocFailed? || st.RngFailed?
    ensures st.Ok? ==> X.s == 1 && X.Int() == Val(X.p) < Pow2(8 * size)
  {
    hide Val, Pow2;
    :- ResizeClear(X, CharsToLimbs(size));
    if size == 0 {
      ValNone(X.p);
      return Ok;
    }
    st := FillRandomBytes(X, size);
  }

  /** One try of `mbedtls_mpi_random`: as many random bits as the bound has. */
  method RandomBits(X: Mpi, N: Mpi, bits: nat, bytes: nat) returns (st: Status)
    requires X != N && X.s == 1 && 0 < |X.p| == |N.p| && bits <= 8 * bytes < bits + 8 && bytes <= |N.p| * CIL
    modifies X
    ensures st.Ok? || st.RngFailed?
    ensures X.s == 1 && |X.p| == |N.p| && (st.Ok? ==> Val(X.p) < Pow2(bits))
  {
    hide Val, Pow2;
    LimbsSuffice(bytes, |N.p|);
    st := FillRandomBytes(X, bytes);
    if st.Ok? {
      ghost var v := Val(X.p);
      assert (8 * bytes - bits) / BIL == 0;
      st := ShiftR(X, 8 * bytes - bits);
      TopBits(v, bits, 8 * bytes - bits);
    }
  }

  lemma LimbsSuffice(n: nat, limbs: nat)
    requires n <= limbs * CIL
    ensures CharsToLimbs(n) <= limbs
  {
    if CharsToLimbs(n) > limbs {
      MulMono(limbs + 1, CharsToLimbs(n), CIL);
    }
  }

  lemma TopBits(v: nat, a: nat, b: nat)
    requires v < Pow2(a + b)
    ensures v / Pow2(b) < Pow2(a)
  {
    hide Pow2;
    Pow2Add(a, b);
    var q := v / Pow2(b);
    DivModBounds(v, Pow2(b));
    if q >= Pow2(a) {
      MulMono(Pow2(a), q, Pow2(b));
    }
  }

  /** The bytes of a number fit its row. */
  lemma BytesInRow(p: seq<limb>, bits: nat)
    requires IsBitLen(Val(p), bits)
    ensures (bits + 7) / 8 <= |p| * CIL
  {
    hide Val, Pow2, BPow;
    ValBound(p);
    BPowIsPow2(|p|);
    if bits > |p| * BIL {
      Pow2Monotonic(|p| * BIL, bits - 1);
    }
    MulAssoc(|p|, CIL, 8);
  }

  /** How often `mbedtls_mpi_random` draws, for a bound of n bytes; the last draw is not looked at any more. */
  function Attempts(n: nat): nat {
    if n > 4 then 30 else 250
  }

  predicate InRange(v: nat, min: int, bound: int) {
    min <= v < bound
  }

  /** The generator has delivered as many numbers as are drawn at most, and those that were looked at are out of range. */
  ghost predicate Exhausted(drawn: seq<nat>, min: int, bound: nat) {
    && |drawn| == Attempts((BitCount(bound) + 7) / 8)
    && forall k :: 0 <= k < |drawn| - 1 ==> !InRange(drawn[k], min, bound)
  }

  lemma ExhaustedIs(drawn: seq<nat>, min: int, bound: nat)
    ensures Exhausted(drawn, min, bound) <==>
      |drawn| == (if BitCount(bound) > 32 then 30 else 250) && forall k :: 0 <= k < |drawn| - 1 ==> drawn[k] < min || bound <= drawn[k]
  {
  }

  /**
    `mbedtls_mpi_random`: whatever the generator delivers, an accepted result is in [min, N).  It is the first
    number drawn that is in range; the function gives up exactly when all draws but the last were not.
   */
  method Random(X: Mpi, min: sint, N: Mpi) returns (st: Status, ghost drawn: seq<nat>)
    requires X != N
    modifies X
    ensures st.Ok? || st.BadInputData? || st.AllocFailed? || st.RngFailed? || st.NotAcceptable?
    ensures st.BadInputData? <==> min < 0 || N.Int() <= min
    ensures st.Ok? ==> X.s == 1 && min <= X.Int() == Val(X.p) < N.Int()
    ensures forall k :: 0 <= k < |drawn| ==> drawn[k] < Pow2(BitCount(Val(N.p)))
    ensures forall k :: 0 <= k < |drawn| - 1 ==> drawn[k] < min || N.Int() <= drawn[k]
    ensures st.Ok? ==> 0 < |drawn| && X.Int() == drawn[|drawn| - 1]
    ensures |drawn| <= if (BitCount(Val(N.p)) + 7) / 8 > 4 then 30 else 250
    ensures st.NotAcceptable? <==> |drawn| == if (BitCount(Val(N.p)) + 7) / 8 > 4 then 30 else 250
  {
    hide Val, Pow2, BitCount, IsBitLen;
    drawn := [];
    var n_bits := BitLen(N);
    var n_bytes := (n_bits + 7) / 8;
    if min < 0 {
      return BadInputData, drawn;
    }
    var c := N.CmpInt(min);
    if c <= 0 {
      return BadInputData, drawn;
    }
    ValNone(N.p);
    BytesInRow(N.p, n_bits);
    var lower := new Mpi();
    :- ResizeClear(X, |N.p|);
    :- lower.Grow(|N.p|);
    :- lower.Lset(min);
    st, drawn := Draw(X, min, N, lower, n_bits, n_bytes);
  }

  /** The loop: draw until a number is in range. */
  method Draw(X: Mpi, min: sint, N: Mpi, lower: Mpi, n_bits: nat, n_bytes: nat) returns (st: Status, ghost drawn: seq<nat>)
    requires X != N && X != lower && X.s == 1 && 0 < |X.p| == |N.p| == |lower.p| && lower.s == 1 && 0 <= lower.Int() == min
    requires N.s == 1 && n_bits <= 8 * n_bytes < n_bits + 8 && n_bytes <= |N.p| * CIL
    modifies X
    ensures st.Ok? || st.RngFailed? || st.NotAcceptable?
    ensures st.Ok? ==> X.s == 1 && min <= X.Int() == Val(X.p) < N.Int()
    ensures forall k :: 0 <= k < |drawn| ==> drawn[k] < Pow2(n_bits)
    ensures forall k :: 0 <= k < |drawn| - 1 ==> !InRange(drawn[k], min, N.Int())
    ensures st.Ok? ==> 0 < |drawn| < Attempts(n_bytes) && X.Int() == drawn[|drawn| - 1]
    ensures st.NotAcceptable? <==> |drawn| == Attempts(n_bytes)
    ensures |drawn| <= Attempts(n_bytes)
  {
    hide Val, Pow2;
    drawn := [];
    var count := if n_bytes > 4 then 30 else 250;
    while true
      invariant X.s == 1 && |X.p| == |N.p| == |lower.p| && lower.s == 1 && lower.Int() == min
      invariant count > 0 && |drawn| + count == Attempts(n_bytes)
      invariant forall k :: 0 <= k < |drawn| ==> drawn[k] < Pow2(n_bits)
      invariant forall k :: 0 <= k < |drawn| ==> !InRange(drawn[k], min, N.Int())
      decreases count
    {
      :- RandomBits(X, N, n_bits, n_bytes);
      drawn := drawn + [Val(X.p)];
      count := count - 1;
      if count == 0 {
        return NotAcceptable, drawn;
      }
      var ltLower, ltUpper;
      st, ltLower := LtMpiCt(X, lower);
      st, ltUpper := LtMpiCt(X, N);
      if !ltLower && ltUpper {
        return Ok, drawn;
      }
    }
  }
}
