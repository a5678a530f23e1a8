/** DER (ITU-T X.690) as far as signatures need it: what the encodings are. */
module DerSpec {
  import opened Words
  import opened Products
  import opened Blocks
  import opened Numerals
  import opened MpiBits
  import opened MpiBinary

  const INTEGER: byte := 0x02
  const SEQUENCE: byte := 0x30

  /** How many length bytes follow the first one. */
  function LengthBytes(n: nat): (k: nat)
    requires n < 0x1_0000_0000
    ensures k <= 4
  {
    if n < 0x80 then 0 else if n <= 0xFF then 1 else if n <= 0xFFFF then 2 else if n <= 0xFF_FFFF then 3 else 4
  }

  /** The shortest length encoding (section 8.1.3). */
  function Length(n: nat): (b: seq<byte>)
    requires n < 0x1_0000_0000
    ensures |b| == 1 + LengthBytes(n)
  {
    var k := LengthBytes(n);
    if k == 0 then [n] else [0x80 + k] + BigEndian(n, k)
  }

  function Tlv(tag: byte, content: seq<byte>): seq<byte>
    requires |content| < 0x1_0000_0000
  {
    [tag] + Length(|content|) + content
  }

  ghost function ByteCount(v: nat): nat {
    (BitCount(v) + 7) / 8
  }

  /** A positive number with as few bytes as leave the sign bit clear (section 8.3). */
  ghost function Content(v: nat): seq<byte> {
    var b := BigEndian(v, ByteCount(v));
    if |b| > 0 && b[0] >= 0x80 then [0] + b else b
  }

  ghost predicate Encodable(r: nat, s: nat) {
    && |Content(r)| < 0x1_0000_0000 && |Content(s)| < 0x1_0000_0000
    && |Tlv(INTEGER, Content(r)) + Tlv(INTEGER, Content(s))| < 0x1_0000_0000
  }

  ghost function Signature(r: nat, s: nat): seq<byte>
    requires Encodable(r, s)
  {
    Tlv(SEQUENCE, Tlv(INTEGER, Content(r)) + Tlv(INTEGER, Content(s)))
  }

  /** The forms of a length. */
  lemma LengthForms(n: nat)
    requires n < 0x1_0000
    ensures n < 0x80 ==> Length(n) == [n]
    ensures 0x80 <= n < 0x100 ==> Length(n) == [0x81, n]
    ensures 0x100 <= n ==> Length(n) == [0x82, n / 256, n % 256]
  {
    if 0x80 <= n < 0x100 {
      assert BigEndian(n, 1) == BigEndian(n / 256, 0) + [n % 256] == [n];
    } else if 0x100 <= n {
      assert BigEndian(n, 2) == BigEndian(n / 256, 1) + [n % 256];
      assert BigEndian(n / 256, 1) == BigEndian(n / 256 / 256, 0) + [n / 256];
    }
  }

  function Found(n: nat, used: nat): Option<(nat, nat)> {
    Some((n, used))
  }

  /** Reading accepts a length of up to four bytes, shortest or not, when its content is there. */
  lemma ParseLengthLong(k: nat, v: nat, tail: seq<byte>)
    requires 1 <= k <= 4 && v < Pow2(8 * k)
    ensures ParseLength([(0x80 + k) as byte] + BigEndian(v, k) + tail) == if v <= |tail| then Found(v, 1 + k) else Nothing
  {
    hide Bytes, BigEndian, Pow2;
    BytesOfBigEndian(v, k);
    var b := [(0x80 + k) as byte] + BigEndian(v, k) + tail;
    assert b[1..1 + k] == BigEndian(v, k);
  }

  /** One byte below 128 is the length itself; no length starts with a byte of 128, or of 133 and more. */
  lemma ParseLengthShort(x: byte, tail: seq<byte>)
    ensures x < 0x80 ==> ParseLength([x] + tail) == if x <= |tail| then Found(x, 1) else Nothing
    ensures x == 0x80 || x > 0x84 ==> ParseLength([x] + tail) == Nothing
  {
  }

  /** A signature as bytes: 128 needs a zero byte in front. */
  lemma Example()
    ensures Encodable(1, 128) && Signature(1, 128) == [0x30, 7, 2, 1, 1, 2, 2, 0, 0x80]
  {
    hide Content, BigEndian, Length;
    SmallContent();
    LengthForms(1);
    LengthForms(2);
    LengthForms(7);
  }

  lemma SmallContent()
    ensures Content(1) == [1] && Content(128) == [0, 128]
  {
    hide BitCount;
    EightBits();
    assert BigEndian(1, 1) == BigEndian(0, 0) + [1];
    assert BigEndian(128, 1) == BigEndian(0, 0) + [128];
  }

  lemma EightBits()
    ensures BitCount(1) == 1 && BitCount(128) == 8
  {
    assert BitCount(2) == 2;
    assert BitCount(4) == 3;
    assert BitCount(8) == 4;
    assert BitCount(16) == 5;
    assert BitCount(32) == 6;
    assert BitCount(64) == 7;
  }

  // ---------- reading ----------

  /** The value of a length encoding, and how many bytes it takes; the content must be there. */
  function ParseLength(b: seq<byte>): Option<(nat, nat)> {
    if |b| < 1 then Nothing
    else if b[0] < 0x80 then if b[0] <= |b| - 1 then Some((b[0], 1)) else Nothing
    else
      var k := b[0] - 0x80;
      if k < 1 || k > 4 || |b| < 1 + k then Nothing
      else var n := Bytes(b[1..1 + k]); if n <= |b| - (1 + k) then Some((n, 1 + k)) else Nothing
  }

  /** Content and rest of an element with the given tag. */
  function ParseTlv(tag: byte, b: seq<byte>): Option<(seq<byte>, seq<byte>)> {
    if |b| < 1 || b[0] != tag then Nothing
    else match ParseLength(b[1..])
      case Nothing => Nothing
      case Some((n, used)) => Some((b[1 + used..1 + used + n], b[1 + used + n..]))
  }

  /** Two unsigned integers in a sequence that is the whole of b, and what follows them in it. */
  function ParsePair(b: seq<byte>): Option<(nat, nat, seq<byte>)> {
    match ParseTlv(SEQUENCE, b)
    case Nothing => Nothing
    case Some((content, rest)) =>
      if rest != [] then Nothing
      else match ParseTlv(INTEGER, content)
        case Nothing => Nothing
        case Some((r, more)) =>
          match ParseTlv(INTEGER, more)
          case Nothing => Nothing
          case Some((s, end)) => Some((Bytes(r), Bytes(s), end))
  }

  // ---------- reading undoes writing ----------

  lemma {:induction false} BytesOfBigEndian(v: nat, n: nat)
    requires v < Pow2(8 * n)
    ensures Bytes(BigEndian(v, n)) == v
  {
    hide Pow2, Value;
    if n == 0 {
      Pow2Zero();
      NoBytes();
    } else {
      Pow2Values();
      Pow2Add(8, 8 * (n - 1));
      var q, w := v / 256, Pow2(8 * (n - 1));
      assert v < 256 * w ==> q < w;
      BytesOfBigEndian(q, n - 1);
      ValueSnoc(BigEndian(q, n - 1), v % 256, 256);
    }
  }

  lemma NoBytes()
    ensures Bytes([]) == 0
  {
  }

  lemma {:induction false} BigEndianOfBytes(b: seq<byte>)
    ensures BigEndian(Bytes(b), |b|) == b
  {
    hide Bytes, BigEndian;
    if |b| == 0 {
      BigEndianNone(Bytes(b));
    } else {
      var n := |b| - 1;
      var v := Bytes(b[..n]);
      BigEndianOfBytes(b[..n]);
      assert b == b[..n] + [b[n]];
      BytesSnoc(b[..n], b[n]);
      DivModUnique(256 * v + b[n], 256, v, b[n]);
      BigEndianLast(256 * v + b[n], |b|);
    }
  }

  lemma LengthFits(n: nat)
    requires n < 0x1_0000_0000
    ensures n < Pow2(8 * LengthBytes(n)) || n < 0x80
  {
    hide Pow2;
    Pow2Values();
    Pow2Add(16, 8);
  }

  /** Forward reading of what was written backwards. */
  lemma LengthInverse(n: nat, rest: seq<byte>)
    requires n < 0x1_0000_0000 && n <= |rest|
    ensures ParseLength(Length(n) + rest) == Some((n, |Length(n)|))
  {
    hide Bytes, BigEndian, LengthBytes, Pow2;
    var k := LengthBytes(n);
    var b := Length(n) + rest;
    LengthFits(n);
    SmallLength(n);
    if k > 0 {
      assert b[1..1 + k] == BigEndian(n, k);
      BytesOfBigEndian(n, k);
    }
  }

  lemma SmallLength(n: nat)
    requires n < 0x1_0000_0000
    ensures LengthBytes(n) == 0 <==> n < 0x80
  {
  }

  lemma TlvInverse(tag: byte, content: seq<byte>, rest: seq<byte>)
    requires |content| < 0x1_0000_0000
    ensures ParseTlv(tag, Tlv(tag, content) + rest) == Some((content, rest))
  {
    hide ParseLength, Length;
    var n := |content|;
    var b := Tlv(tag, content) + rest;
    assert b[1..] == Length(n) + (content + rest);
    LengthInverse(n, content + rest);
    var used := |Length(n)|;
    assert b[1 + used..1 + used + n] == content && b[1 + used + n..] == rest;
  }

  lemma ContentInverse(v: nat)
    ensures Bytes(Content(v)) == v
  {
    hide BitCount, Pow2, BigEndian, Value;
    SizeBounds(v);
    var n := ByteCount(v);
    var b := BigEndian(v, n);
    BytesOfBigEndian(v, n);
    if |b| > 0 && b[0] >= 0x80 {
      BytesPush(0, b);
    }
  }

  /** Parsing a signature that was written gives the two numbers back and consumes everything. */
  /** Any two integers in a sequence are read, with what follows them in it; nothing may follow the sequence. */
  lemma PairParsed(x: seq<byte>, y: seq<byte>, more: seq<byte>, behind: seq<byte>)
    requires |x| < 0x1000_0000 && |y| < 0x1000_0000 && |more| < 0x1000_0000
    ensures ParsePair(Tlv(SEQUENCE, Tlv(INTEGER, x) + Tlv(INTEGER, y) + more) + behind) ==
      if behind == [] then Pair(Bytes(x), Bytes(y), more) else Nothing
  {
    hide Tlv, ParseTlv, Bytes;
    var a, b := Tlv(INTEGER, x), Tlv(INTEGER, y);
    TlvSize(INTEGER, x);
    TlvSize(INTEGER, y);
    TlvInverse(SEQUENCE, a + b + more, behind);
    assert a + b + more == a + (b + more);
    TlvInverse(INTEGER, x, b + more);
    TlvInverse(INTEGER, y, more);
  }

  function Pair(r: nat, s: nat, rest: seq<byte>): Option<(nat, nat, seq<byte>)> {
    Some((r, s, rest))
  }

  lemma TlvSize(tag: byte, content: seq<byte>)
    requires |content| < 0x1000_0000
    ensures |Tlv(tag, content)| <= |content| + 6
  {
  }

  lemma SignatureInverse(r: nat, s: nat)
    requires Encodable(r, s)
    ensures ParsePair(Signature(r, s)) == Some((r, s, []))
  {
    hide Content, Tlv, ParseTlv, Bytes;
    var a, b := Tlv(INTEGER, Content(r)), Tlv(INTEGER, Content(s));
    TlvInverse(SEQUENCE, a + b, []);
    assert Tlv(SEQUENCE, a + b) + [] == Tlv(SEQUENCE, a + b);
    TlvInverse(INTEGER, Content(r), b);
    TlvInverse(INTEGER, Content(s), []);
    assert b + [] == b;
    ContentInverse(r);
    ContentInverse(s);
  }
}

/** The writer, which fills a buffer from its end, and the reader. */
module Der {
  import opened Words
  import opened Products
  import opened Limbs
  import opened Status
  import opened MpiModule
  import opened MpiBits
  import opened MpiBinary
  import opened Blocks
  import opened Numerals
  import opened DerSpec

  datatype DerStatus = Good | BufTooSmall | InvalidLength | OutOfData | UnexpectedTag | LengthMismatch | Trailing | Failed(why: Status)
  {
    predicate IsFailure() {
      !Good?
    }

    function PropagateFailure(): DerStatus {
      this
    }
  }

  /** `buf[p..q]` holds b, and nothing from q on has changed since `before`. */
  ghost predicate Wrote(before: seq<byte>, now: seq<byte>, p: nat, q: nat, b: seq<byte>) {
    |now| == |before| && p + |b| == q <= |now| && now[p..q] == b && now[q..] == before[q..]
  }

  /** Something put in front of what has been written. */
  lemma WroteMore(a: seq<byte>, b: seq<byte>, c: seq<byte>, p: nat, m: nat, q: nat, x: seq<byte>, y: seq<byte>)
    requires Wrote(a, b, m, q, y) && Wrote(b, c, p, m, x)
    ensures Wrote(a, c, p, q, x + y)
  {
    assert c[p..q] == c[p..m] + c[m..][..q - m];
    assert b[m..][..q - m] == b[m..q];
    assert c[q..] == c[m..][q - m..] == b[m..][q - m..] == b[q..];
  }

  /** `*--(*p) = x` */
  method Push(buf: array<byte>, p: nat, x: byte) returns (p': nat)
    requires 0 < p <= buf.Length
    modifies buf
    ensures p' == p - 1 && Wrote(old(buf[..]), buf[..], p', p, [x])
  {
    p' := p - 1;
    buf[p'] := x;
  }

  lemma BigEndianParts(n: nat)
    ensures BigEndian(n, 1) == [n % 256]
    ensures BigEndian(n, 2) == [n / 256 % 256, n % 256]
    ensures BigEndian(n, 3) == [n / 0x1_0000 % 256, n / 256 % 256, n % 256]
    ensures BigEndian(n, 4) == [n / 0x100_0000 % 256, n / 0x1_0000 % 256, n / 256 % 256, n % 256]
  {
    hide BigEndian;
    var a, b, c := n / 256, n / 0x1_0000, n / 0x100_0000;
    DivTwice(n, 256, 256);
    DivTwice(n, 0x1_0000, 256);
    BigEndianFour(n, a, b, c);
  }

  lemma BigEndianFour(n: nat, a: nat, b: nat, c: nat)
    requires a == n / 256 && b == a / 256 && c == b / 256
    ensures BigEndian(n, 1) == [n % 256]
    ensures BigEndian(n, 2) == [a % 256, n % 256]
    ensures BigEndian(n, 3) == [b % 256, a % 256, n % 256]
    ensures BigEndian(n, 4) == [c % 256, b % 256, a % 256, n % 256]
  {
    hide BigEndian;
    BigEndianOne(n);
    BigEndianOne(a);
    BigEndianOne(b);
    BigEndianOne(c);
    BigEndianMore(n, 1);
    BigEndianMore(a, 1);
    BigEndianMore(b, 1);
    BigEndianMore(n, 2);
    BigEndianMore(a, 2);
    BigEndianMore(n, 3);
  }

  lemma BigEndianOne(n: nat)
    ensures BigEndian(n, 1) == [n % 256]
  {
    assert BigEndian(n / 256, 0) == [];
  }

  lemma BigEndianMore(n: nat, k: nat)
    ensures BigEndian(n, k + 1) == BigEndian(n / 256, k) + [n % 256]
  {
  }

  /** `mbedtls_asn1_write_len` */
  method WriteLen(buf: array<byte>, p: nat, start: nat, len: nat) returns (st: DerStatus, p': nat)
    requires start <= p <= buf.Length
    modifies buf
    ensures st.InvalidLength? <==> len > 0xFFFF_FFFF
    ensures st.Good? <==> len <= 0xFFFF_FFFF && |Length(len)| <= p - start
    ensures st.Good? || st.BufTooSmall? || st.InvalidLength?
    ensures st.Good? ==> start <= p' && Wrote(old(buf[..]), buf[..], p', p, Length(len))
  {
    hide BigEndian, Wrote;
    p' := p;
    ghost var b0 := buf[..];
    if len > 0xFFFF_FFFF {
      return InvalidLength, p;
    }
    BigEndianParts(len);
    SmallLength(len);
    if len < 0x80 {
      if p - start < 1 {
        return BufTooSmall, p;
      }
      p' := Push(buf, p, len);
      return Good, p';
    }
    var k := if len <= 0xFF then 1 else if len <= 0xFFFF then 2 else if len <= 0xFF_FFFF then 3 else 4;
    if p - start < 1 + k {
      return BufTooSmall, p;
    }
    p' := PushNumber(buf, p, len, k);
    ghost var b1, m := buf[..], p';
    p' := Push(buf, p', 0x80 + k);
    WroteMore(b0, b1, buf[..], p', m, p, [0x80 + k], BigEndian(len, k));
    st := Good;
  }

  /** The value bytes, least significant first, going down. */
  method PushNumber(buf: array<byte>, p: nat, len: nat, k: nat) returns (p': nat)
    requires 1 <= k <= 4 && k <= p <= buf.Length
    modifies buf
    ensures p' == p - k && Wrote(old(buf[..]), buf[..], p', p, BigEndian(len, k))
  {
    hide BigEndian, Wrote;
    ghost var b0 := buf[..];
    BigEndianParts(len);
    p' := Push(buf, p, len % 256);
    if k > 1 {
      ghost var b1, m := buf[..], p';
      p' := Push(buf, p', len / 256 % 256);
      WroteMore(b0, b1, buf[..], p', m, p, [len / 256 % 256], [len % 256]);
    }
    if k == 2 {
      assert [len / 256 % 256] + [len % 256] == BigEndian(len, 2);
    }
    if k > 2 {
      ghost var b1, m := buf[..], p';
      p' := Push(buf, p', len / 0x1_0000 % 256);
      WroteMore(b0, b1, buf[..], p', m, p, [len / 0x1_0000 % 256], [len / 256 % 256] + [len % 256]);
    }
    if k == 3 {
      assert [len / 0x1_0000 % 256] + ([len / 256 % 256] + [len % 256]) == BigEndian(len, 3);
    }
    if k > 3 {
      ghost var b1, m := buf[..], p';
      p' := Push(buf, p', len / 0x100_0000 % 256);
      WroteMore(b0, b1, buf[..], p', m, p, [len / 0x100_0000 % 256], [len / 0x1_0000 % 256] + ([len / 256 % 256] + [len % 256]));
      assert [len / 0x100_0000 % 256] + ([len / 0x1_0000 % 256] + ([len / 256 % 256] + [len % 256])) == BigEndian(len, 4);
    }
  }

  /** `mbedtls_asn1_write_tag` */
  method WriteTag(buf: array<byte>, p: nat, start: nat, tag: byte) returns (st: DerStatus, p': nat)
    requires start <= p <= buf.Length
    modifies buf
    ensures st == if p > start then Good else BufTooSmall
    ensures st.Good? ==> start <= p' && Wrote(old(buf[..]), buf[..], p', p, [tag])
  {
    if p - start < 1 {
      return BufTooSmall, p;
    }
    p' := Push(buf, p, tag);
    st := Good;
  }

  /** Length and tag in front of the content that is already there. */
  method WriteHeader(buf: array<byte>, p: nat, start: nat, tag: byte, len: nat, ghost q: nat, ghost before: seq<byte>, ghost content: seq<byte>)
      returns (st: DerStatus, p': nat)
    requires start <= p <= buf.Length && Wrote(before, buf[..], p, q, content) && len == |content|
    modifies buf
    ensures st.Good? || st.BufTooSmall? || st.InvalidLength?
    ensures st.Good? <==> len < 0x1_0000_0000 && 1 + |Length(len)| <= p - start
    ensures st.Good? ==> start <= p' && Wrote(before, buf[..], p', q, Tlv(tag, content))
  {
    hide Wrote, Length;
    ghost var b1 := buf[..];
    st, p' := WriteLen(buf, p, start, len);
    if !st.Good? {
      return;
    }
    ghost var b2, m := buf[..], p';
    WroteMore(before, b1, b2, m, p, q, Length(len), content);
    WroteLength(b1, b2, m, p, Length(len));
    st, p' := WriteTag(buf, p', start, tag);
    if st.Good? {
      WroteMore(before, b2, buf[..], p', m, q, [tag], Length(len) + content);
      assert [tag] + (Length(len) + content) == Tlv(tag, content);
    }
  }

  lemma WroteLength(before: seq<byte>, now: seq<byte>, p: nat, q: nat, b: seq<byte>)
    requires Wrote(before, now, p, q, b)
    ensures p + |b| == q <= |now| == |before|
  {
  }

  /** The magnitude, and a zero byte in front when the sign bit would be set. */
  method WriteContent(buf: array<byte>, p: nat, start: nat, X: Mpi) returns (st: DerStatus, p': nat, len: nat)
    requires start <= p <= buf.Length && X.s == 1 && Val(X.p) > 0
    modifies buf
    ensures st == if |Content(Val(X.p))| <= p - start then Good else BufTooSmall
    ensures st.Good? ==> start <= p' && len == |Content(Val(X.p))| && Wrote(old(buf[..]), buf[..], p', p, Content(Val(X.p)))
  {
    hide Val, BitCount, BigEndian, Value, Pow2;
    ghost var b0, v := buf[..], Val(X.p);
    SizeBounds(v);
    Pow2Zero();
    len := Size(X);
    p' := p;
    if p - start < len {
      return BufTooSmall, p, len;
    }
    p' := p - len;
    var written := WriteBinary(X, buf, p', len);
    BigEndianOfBytes(buf[p'..p' + len]);
    ghost var b1, m := buf[..], p';
    assert buf[p'..p] == BigEndian(v, len);
    assert Wrote(b0, b1, m, p, BigEndian(v, len));
    assert buf[p'] == BigEndian(v, len)[0];
    if X.s == 1 && buf[p'] >= 0x80 {
      if p' - start < 1 {
        return BufTooSmall, p', len;
      }
      p' := Push(buf, p', 0x00);
      WroteMore(b0, b1, buf[..], p', m, p, [0], BigEndian(v, len));
      len := len + 1;
    }
    st := Good;
  }

  /** `mbedtls_asn1_write_mpi`, for positive numbers. */
  method WriteMpi(buf: array<byte>, p: nat, start: nat, X: Mpi) returns (st: DerStatus, p': nat)
    requires start <= p <= buf.Length && X.s == 1 && Val(X.p) > 0
    modifies buf
    ensures st.Good? || st.BufTooSmall? || st.InvalidLength?
    ensures st.Good? <==> |Content(Val(X.p))| < 0x1_0000_0000 && |Tlv(INTEGER, Content(Val(X.p)))| <= p - start
    ensures st.Good? ==> start <= p' && Wrote(old(buf[..]), buf[..], p', p, Tlv(INTEGER, Content(Val(X.p))))
  {
    hide Val, Content, Wrote, Length;
    ghost var b0, content := buf[..], Content(Val(X.p));
    var len;
    st, p', len := WriteContent(buf, p, start, X);
    if !st.Good? {
      return;
    }
    WroteLength(b0, buf[..], p', p, content);
    st, p' := WriteHeader(buf, p', start, INTEGER, len, p, b0, content);
  }

  /** `ecdsa_signature_to_asn1`, with the size of its internal buffer as a parameter. */
  method SignatureToAsn1(r: Mpi, s: Mpi, sig: array<byte>, sigSize: nat, maxLen: nat) returns (st: DerStatus, slen: nat)
    requires r.s == 1 && s.s == 1 && Val(r.p) > 0 && Val(s.p) > 0 && sigSize <= sig.Length
    modifies sig
    ensures st.Good? || st.BufTooSmall? || st.InvalidLength?
    ensures st.Good? <==> Fits(Val(r.p), Val(s.p), maxLen) && Fits(Val(r.p), Val(s.p), sigSize)
    ensures st.Good? ==> slen <= sigSize && sig[..slen] == Signature(Val(r.p), Val(s.p))
    ensures !st.Good? ==> unchanged(sig)
  {
    hide Val, Content, Wrote, Tlv, Length;
    slen := 0;
    var buf := new byte[maxLen](_ => 0);
    ghost var b0 := buf[..];
    var p, m;
    PartsFit(Val(r.p), Val(s.p), maxLen);
    st, m := WriteMpi(buf, maxLen, 0, s);
    if !st.Good? {
      return;
    }
    ghost var b1, y := buf[..], Tlv(INTEGER, Content(Val(s.p)));
    WroteLength(b0, b1, m, maxLen, y);
    st, p := WriteMpi(buf, m, 0, r);
    if !st.Good? {
      return;
    }
    ghost var x := Tlv(INTEGER, Content(Val(r.p)));
    WroteLength(b1, buf[..], p, m, x);
    WroteMore(b0, b1, buf[..], p, m, maxLen, x, y);
    st, m := WriteHeader(buf, p, 0, SEQUENCE, maxLen - p, maxLen, b0, x + y);
    if !st.Good? {
      return;
    }
    WroteAll(b0, buf[..], m, maxLen, Tlv(SEQUENCE, x + y));
    slen := maxLen - m;
    if slen > sigSize {
      return BufTooSmall, slen;
    }
    forall k | 0 <= k < slen {
      sig[k] := buf[m + k];
    }
    assert sig[..slen] == buf[m..maxLen];
  }

  ghost predicate Fits(r: nat, s: nat, n: nat) {
    Encodable(r, s) && |Signature(r, s)| <= n
  }

  /** `MBEDTLS_ECDSA_MAX_SIG_LEN` */
  function MaxSigLen(bits: nat): nat {
    (if bits >= 61 * 8 then 3 else 2) + 2 * ((if bits >= 127 * 8 then 3 else 2) + (bits + 8) / 8)
  }

  lemma Pow2Seven()
    ensures Pow2(7) == 0x80
  {
  }

  /** The first byte tells whether the top bit of the bytes is set. */
  lemma SignByte(v: nat, n: nat)
    requires v > 0 && n == ByteCount(v)
    ensures n > 0 && (BigEndian(v, n)[0] >= 0x80 <==> v >= Pow2(8 * n - 1))
  {
    hide BigEndian, Bytes, Pow2, BitCount;
    SizeBounds(v);
    Pow2Zero();
    var b := BigEndian(v, n);
    BytesOfBigEndian(v, n);
    assert b == [b[0]] + b[1..];
    BytesPush(b[0], b[1..]);
    BytesBound(b[1..]);
    var w := Pow2(8 * (n - 1));
    assert Pow2(7) == 0x80 by { Pow2Seven(); }
    Pow2Add(7, 8 * (n - 1));
    if b[0] >= 0x80 {
      MulMono(0x80, b[0], w);
    } else {
      MulMono(b[0] + 1, 0x80, w);
      MulDist(w, b[0], 1);
    }
  }

  /** A number takes one byte more than its bit length has whole bytes. */
  lemma ContentSize(v: nat)
    requires v > 0
    ensures |Content(v)| == BitCount(v) / 8 + 1
  {
    hide Pow2, BitCount, BigEndian;
    var n, bits := ByteCount(v), BitCount(v);
    SignByte(v, n);
    BitCountIs(v);
    if bits == 8 * n {
      assert v >= Pow2(8 * n - 1);
    } else {
      Pow2Monotonic(bits, 8 * n - 1);
    }
  }

  ghost function SizeOf(a: nat, b: nat): nat {
    var n := a + b + (if a < 0x80 then 2 else 3) + if b < 0x80 then 2 else 3;
    n + if n < 0x80 then 2 else if n <= 0xFF then 3 else 4
  }

  lemma SignatureSize(r: nat, s: nat)
    requires |Content(r)| <= 0xFF && |Content(s)| <= 0xFF
    ensures Encodable(r, s) && |Signature(r, s)| == SizeOf(|Content(r)|, |Content(s)|)
  {
    hide Content;
  }

  /** The buffer size that the library announces is enough for numbers of fewer than 1000 bits, and only for those. */
  lemma MaxSigLenIff(bits: nat)
    requires 0 < bits
    ensures bits < 1000 <==> forall r: nat, s: nat :: 0 < r < Pow2(bits) && 0 < s < Pow2(bits) ==> Fits(r, s, MaxSigLen(bits))
  {
    hide Pow2, Fits, Content;
    if bits < 1000 {
      forall r: nat, s: nat | 0 < r < Pow2(bits) && 0 < s < Pow2(bits) ensures Fits(r, s, MaxSigLen(bits)) {
        AnnouncedFits(r, s, bits);
      }
    } else {
      Pow2StrictlyMonotonic(0, bits);
      Pow2Zero();
      LargestFails(Pow2(bits) - 1, bits);
    }
  }

  lemma AnnouncedFits(r: nat, s: nat, bits: nat)
    requires 0 < r < Pow2(bits) && 0 < s < Pow2(bits) && bits < 1000
    ensures Fits(r, s, MaxSigLen(bits))
  {
    hide Pow2, BitCount, Content, Signature;
    BitCountMonotonic(r, bits);
    BitCountMonotonic(s, bits);
    ContentSize(r);
    ContentSize(s);
    SignatureSize(r, s);
  }

  lemma LargestFails(v: nat, bits: nat)
    requires bits >= 1000 && v == Pow2(bits) - 1
    ensures v > 0 && !Fits(v, v, MaxSigLen(bits))
  {
    hide Pow2, BitCount, Content;
    Pow2StrictlyMonotonic(0, bits);
    Pow2StrictlyMonotonic(bits - 1, bits);
    Pow2Zero();
    BitCountOf(v, bits);
    ContentSize(v);
  }

  lemma SignatureSafe(r: nat, s: nat, n: nat, bits: nat)
    requires 0 < r < n && 0 < s < n && bits == BitCount(n) < 1000
    ensures forall m: nat :: MaxSigLen(bits) <= m ==> Fits(r, s, m)
  {
    hide Pow2, BitCount, MaxSigLen;
    BitCountIs(n);
    AnnouncedFits(r, s, bits);
  }

  /** A signature fits when each step of writing it does. */
  lemma PartsFit(r: nat, s: nat, n: nat)
    ensures Fits(r, s, n) <==>
      (Encodable(r, s) && |Tlv(INTEGER, Content(s))| <= n && |Tlv(INTEGER, Content(r))| <= n - |Tlv(INTEGER, Content(s))|
      && 1 + |Length(|Tlv(INTEGER, Content(r)) + Tlv(INTEGER, Content(s))|)| <=
        n - |Tlv(INTEGER, Content(s))| - |Tlv(INTEGER, Content(r))|)
  {
    hide Content, Length;
  }

  lemma WroteAll(before: seq<byte>, now: seq<byte>, p: nat, q: nat, b: seq<byte>)
    requires Wrote(before, now, p, q, b)
    ensures p + |b| == q <= |now| && now[p..q] == b
  {
  }

  // ---------- the reader ----------

  /** Big-endian bytes assembled by shifts. */
  lemma BytesOf(b: seq<byte>)
    ensures |b| == 1 ==> Bytes(b) == b[0]
    ensures |b| == 2 ==> Bytes(b) == (b[0] as int) * 0x100 + b[1]
    ensures |b| == 3 ==> Bytes(b) == (b[0] as int) * 0x1_0000 + (b[1] as int) * 0x100 + b[2]
    ensures |b| == 4 ==> Bytes(b) == (b[0] as int) * 0x100_0000 + (b[1] as int) * 0x1_0000 + (b[2] as int) * 0x100 + b[3]
  {
    hide Value;
    BytesNone();
    assert |b| > 0 ==> b[|b| - 1..][1..] == [];
    if 1 <= |b| <= 4 {
      BytesFirst(b);
    }
    if 2 <= |b| <= 4 {
      BytesFirst(b[1..]);
    }
    if 3 <= |b| <= 4 {
      assert b[1..][1..] == b[2..];
      BytesFirst(b[2..]);
    }
    if |b| == 4 {
      assert b[2..][1..] == b[3..];
      BytesFirst(b[3..]);
    }
  }

  lemma BytesNone()
    ensures Bytes([]) == 0
  {
  }

  lemma BytesFirst(b: seq<byte>)
    requires 0 < |b| <= 4
    ensures Bytes(b) == b[0] * (if |b| == 1 then 1 else if |b| == 2 then 0x100 else if |b| == 3 then 0x1_0000 else 0x100_0000) + Bytes(b[1..])
  {
    hide Value, Pow2;
    assert b == [b[0]] + b[1..];
    BytesPush(b[0], b[1..]);
    Pow2Values();
    Pow2Zero();
    Pow2Add(16, 8);
  }

  /** `mbedtls_asn1_get_len` */
  method GetLen(b: seq<byte>, p: nat, end: nat) returns (st: DerStatus, p': nat, len: nat)
    requires p <= end <= |b|
    ensures match ParseLength(b[p..end])
      case Some((n, used)) => st.Good? && len == n && p' == p + used && p' + len <= end
      case Nothing => st.OutOfData? || st.InvalidLength?
  {
    hide Value;
    p', len := p, 0;
    ghost var d := b[p..end];
    if end - p < 1 {
      return OutOfData, p, 0;
    }
    assert d[0] == b[p];
    if b[p] < 0x80 {
      len := b[p];
      p' := p + 1;
    } else {
      var k := b[p] - 0x80;
      if k < 1 || k > 4 {
        return InvalidLength, p, 0;
      }
      if end - p < 1 + k {
        return OutOfData, p, 0;
      }
      ghost var v := d[1..1 + k];
      BytesOf(v);
      assert forall i :: 0 <= i < k ==> v[i] == b[p + 1 + i];
      if k == 1 {
        len := b[p + 1];
      } else if k == 2 {
        len := (b[p + 1] as int) * 0x100 + b[p + 2];
      } else if k == 3 {
        len := (b[p + 1] as int) * 0x1_0000 + (b[p + 2] as int) * 0x100 + b[p + 3];
      } else {
        len := (b[p + 1] as int) * 0x100_0000 + (b[p + 2] as int) * 0x1_0000 + (b[p + 3] as int) * 0x100 + b[p + 4];
      }
      assert len == Bytes(v);
      p' := p + 1 + k;
    }
    if len > end - p' {
      return OutOfData, p', len;
    }
    st := Good;
  }

  lemma Slices(b: seq<byte>, p: nat, end: nat, u: nat, n: nat)
    requires p + u + n <= end <= |b|
    ensures b[p..end][u..u + n] == b[p + u..p + u + n] && b[p..end][u + n..] == b[p + u + n..end]
  {
    var l, r := b[p..end][u..u + n], b[p + u..p + u + n];
    forall k | 0 <= k < n ensures l[k] == r[k] {
      assert l[k] == b[p..end][u + k] == b[p + (u + k)];
    }
    assert l == r;
  }

  /** `mbedtls_asn1_get_tag` */
  method GetTag(b: seq<byte>, p: nat, end: nat, tag: byte) returns (st: DerStatus, p': nat, len: nat)
    requires p <= end <= |b|
    ensures match ParseTlv(tag, b[p..end])
      case Some((content, rest)) => st.Good? && p' + len <= end && b[p'..p' + len] == content && b[p' + len..end] == rest
      case Nothing => st.OutOfData? || st.InvalidLength? || st.UnexpectedTag?
  {
    hide ParseLength;
    p', len := p, 0;
    if end - p < 1 {
      return OutOfData, p, 0;
    }
    assert b[p..end][0] == b[p];
    if b[p] != tag {
      return UnexpectedTag, p, 0;
    }
    ghost var d := b[p..end];
    assert d[1..] == b[p + 1..end];
    st, p', len := GetLen(b, p + 1, end);
    if st.Good? {
      Slices(b, p, end, p' - p, len);
    }
  }

  /** `mbedtls_asn1_get_mpi`: the sign bit is not looked at. */
  method GetMpi(b: seq<byte>, p: nat, end: nat, X: Mpi) returns (st: DerStatus, p': nat)
    requires p <= end <= |b|
    modifies X
    ensures match ParseTlv(INTEGER, b[p..end])
      case Some((content, rest)) => (st == Failed(AllocFailed) || st.Good?)
        && (st.Good? ==> X.Int() == Bytes(content) && X.s == 1 && p' <= end && b[p'..end] == rest)
      case Nothing => st.OutOfData? || st.InvalidLength? || st.UnexpectedTag?
  {
    hide Value, ParseTlv, Val;
    var len;
    st, p', len := GetTag(b, p, end, INTEGER);
    if !st.Good? {
      return;
    }
    var r := ReadBinary(X, b[p'..p' + len]);
    p' := p' + len;
    st := if r.Ok? then Good else Failed(r);
  }

  /** The parsing part of `mbedtls_ecdsa_read_signature_restartable`; p is where the second integer ends. */
  method ReadPair(sig: seq<byte>, r: Mpi, s: Mpi) returns (st: DerStatus, p: nat)
    requires r != s
    modifies r, s
    ensures match ParsePair(sig)
      case Some((x, y, rest)) => (st == Failed(AllocFailed) || st.Good?)
        && (st.Good? ==> r.Int() == x && s.Int() == y && r.s == 1 && s.s == 1 && p <= |sig| && sig[p..] == rest)
      case Nothing => !st.Good? && !st.Trailing? && (!st.Failed? || st == Failed(AllocFailed))
  {
    hide Value, ParseTlv, Val;
    p := 0;
    var end := |sig|;
    assert sig[0..|sig|] == sig;
    var len;
    st, p, len := GetTag(sig, p, end, SEQUENCE);
    if !st.Good? {
      return;
    }
    if p + len != end {
      return LengthMismatch, p;
    }
    st, p := GetMpi(sig, p, end, r);
    if !st.Good? {
      return;
    }
    st, p := GetMpi(sig, p, end, s);
    assert st.Good? ==> sig[p..end] == sig[p..];
  }
}

/** Signatures as byte strings: `mbedtls_ecdsa_write_signature` and `mbedtls_ecdsa_read_signature`. */
module EcdsaDer {
  import opened Words
  import opened Limbs
  import opened Status
  import opened MpiModule
  import opened MpiBits
  import opened CurveGroup
  import opened Ecdsa
  import opened DerSpec
  import opened Der

  /** A byte string that carries a good signature and nothing else. */
  ghost predicate GoodSignature<P(!new)>(c: Curve<P>, e: nat, q: P, sig: seq<byte>)
    requires c.n > 0
  {
    match ParsePair(sig)
    case Some((r, s, rest)) => rest == [] && Accepts(c, e, q, r, s)
    case Nothing => false
  }

  /** A byte string whose sequence carries a good signature and more data behind it. */
  ghost predicate FollowedSignature<P(!new)>(c: Curve<P>, e: nat, q: P, sig: seq<byte>)
    requires c.n > 0
  {
    match ParsePair(sig)
    case Some((r, s, rest)) => rest != [] && Accepts(c, e, q, r, s)
    case Nothing => false
  }

  /** The bytes of a pair are good exactly when signing with the key can produce the pair. */
  lemma GoodIff<P(!new)>(c: Curve<P>, e: nat, d: nat, r: nat, s: nat)
    requires IsGroup(c) && Encodable(r, s)
    ensures c.n > 0
    ensures GoodSignature(c, e, c.Multiple(d, c.generator), Signature(r, s)) <==> Signs(c, e, d, r, s)
  {
    hide IsGroup, Accepts, Signs, ParsePair, Encodable, Signature;
    Order(c, 0);
    SignatureInverse(r, s);
    AcceptsIff(c, e, d, r, s);
  }

  /** Nothing else is good: it has to be a sequence of two integers. */
  lemma GoodParses<P(!new)>(c: Curve<P>, e: nat, d: nat, sig: seq<byte>)
    requires IsGroup(c)
    ensures c.n > 0
    ensures GoodSignature(c, e, c.Multiple(d, c.generator), sig) ==>
      ParsePair(sig).Some? && var (r, s, rest) := ParsePair(sig).value; rest == [] && Signs(c, e, d, r, s)
  {
    hide IsGroup, Accepts, Signs, ParsePair;
    Order(c, 0);
    if ParsePair(sig).Some? {
      AcceptsIff(c, e, d, ParsePair(sig).value.0, ParsePair(sig).value.1);
    }
  }

  /** Signing; what comes out is good for the public key d G. */
  method WriteSignature<P(!new)>(c: Curve<P>, N: Mpi, nbits: nat, d: Mpi, hash: seq<byte>, sig: array<byte>, sigSize: nat, maxLen: nat)
      returns (st: DerStatus, slen: nat)
    requires IsGroup(c) && N.Int() == c.n && nbits == BitCount(c.n) && N != d && sigSize <= sig.Length
    modifies sig
    ensures c.n > 0
    ensures st == Failed(BadInputData) <==> !c.canDo
    ensures st == Failed(InvalidKey) <==> c.canDo && !(1 <= d.Int() < c.n)
    ensures st.Failed? ==> st.why.BadInputData? || st.why.InvalidKey? || NoLuck(st.why)
    ensures st.Good? || st.Failed? || st.BufTooSmall? || st.InvalidLength?
    ensures nbits < 1000 && MaxSigLen(nbits) <= maxLen && MaxSigLen(nbits) <= sigSize ==> st.Good? || st.Failed?
    ensures st.Good? ==> slen <= sigSize
    ensures st.Good? ==> GoodSignature(c, HashValue(hash, c.n), c.Multiple(d.Int(), c.generator), sig[..slen])
  {
    hide Val, IsGroup, Accepts, BitCount, HashValue, ParsePair, Encodable, Signature;
    Order(c, 0);
    slen := 0;
    var r := new Mpi();
    var s := new Mpi();
    var signed := Sign(c, N, nbits, r, s, d, hash);
    if !signed.Ok? {
      return Failed(signed), 0;
    }
    st, slen := SignatureToAsn1(r, s, sig, sigSize, maxLen);
    if nbits < 1000 {
      SignatureSafe(Val(r.p), Val(s.p), c.n, nbits);
    }
    if st.Good? {
      SignatureInverse(Val(r.p), Val(s.p));
    }
  }

  /**
    Verification of a byte string: it succeeds exactly on good signatures, and tells a good signature that is
    followed by more data apart.
   */
  method ReadSignature<P(==,!new)>(c: Curve<P>, N: Mpi, nbits: nat, hash: seq<byte>, q: P, sig: seq<byte>) returns (st: DerStatus)
    requires IsGroup(c) && N.Int() == c.n && nbits == BitCount(c.n)
    ensures c.n > 0
    ensures !c.canDo ==> !st.Good? && !st.Trailing?
    ensures c.canDo && st != Failed(AllocFailed) ==> (st.Good? <==> GoodSignature(c, HashValue(hash, c.n), q, sig))
    ensures c.canDo && st != Failed(AllocFailed) ==> (st.Trailing? <==> FollowedSignature(c, HashValue(hash, c.n), q, sig))
  {
    hide Val, IsGroup, Accepts, BitCount, HashValue, ParsePair;
    Order(c, 0);
    var r := new Mpi();
    var s := new Mpi();
    var p;
    st, p := ReadPair(sig, r, s);
    if !st.Good? {
      return;
    }
    var verdict := Verify(c, N, nbits, hash, q, r, s);
    if !verdict.Ok? {
      return Failed(verdict);
    }
    if p != |sig| {
      st := Trailing;
    }
  }

  /** Whatever signing produced, verification accepts, unless memory runs out. */
  method SignThenVerify<P(==,!new)>(c: Curve<P>, N: Mpi, nbits: nat, d: Mpi, hash: seq<byte>, sigSize: nat, maxLen: nat)
      returns (signed: DerStatus, verdict: DerStatus)
    requires IsGroup(c) && N.Int() == c.n && nbits == BitCount(c.n) && N != d
    ensures signed.Good? ==> verdict.Good? || verdict == Failed(AllocFailed)
    ensures !c.canDo ==> signed == Failed(BadInputData)
    ensures c.canDo && !(1 <= d.Int() < c.n) ==> signed == Failed(InvalidKey)
  {
    hide Val, IsGroup, BitCount, HashValue, GoodSignature, FollowedSignature;
    var sig := new byte[sigSize];
    var slen;
    signed, slen := WriteSignature(c, N, nbits, d, hash, sig, sigSize, maxLen);
    verdict := signed;
    if signed.Good? {
      verdict := ReadSignature(c, N, nbits, hash, c.Multiple(Val(d.p), c.generator), sig[..slen]);
    }
  }
}
