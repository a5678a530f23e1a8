/** Residues modulo a prime. */
module PrimeField {
  import opened Products
  import opened Congruence
  import opened Divisibility

  ghost predicate IsPrime(n: int) {
    n > 1 && forall d: int :: 0 < d < n && Divides(d, n) ==> d == 1
  }

  lemma PrimeIff(n: int)
    ensures IsPrime(n) <==> n > 1 && forall d: int :: 1 < d < n ==> n % d != 0
  {
    if IsPrime(n) {
      forall d: int | 1 < d < n ensures n % d != 0 {
        if n % d == 0 {
          DivModBounds(n, d);
          DividesIntro(d, n, n / d);
        }
      }
    } else if n > 1 {
      var d: int :| 0 < d < n && Divides(d, n) && d != 1;
      var k := DividesElim(d, n);
      DivModUnique(n, d, k, 0);
    }
  }

  /** Everything but zero has an inverse. */
  lemma {:induction false} InverseExists(s: nat, n: nat) returns (w: int)
    requires IsPrime(n) && 0 < s < n
    ensures Cong(s * w, 1, n)
  {
    hide Cong;
    if s == 1 {
      CongRefl(1, n);
      return 1;
    }
    var q, r := n / s, n % s;
    if r == 0 {
      DividesIntro(s, n, q);
      assert false;
    }
    var v := InverseExists(r, n);
    w := 0 - q * v;
    SwapFactors(s, q, v, r, n);
    CongIntro(s * w, r * v, n, 0 - v);
    CongTrans(s * w, r * v, 1, n);
  }

  lemma SwapFactors(s: int, q: int, v: int, r: int, n: int)
    requires n == s * q + r
    ensures s * (0 - q * v) == r * v + (0 - v) * n
  {
    MulDist(v, s * q, r);
    MulAssoc(s, q, v);
  }

  lemma InverseUnique(s: int, w: int, v: int, n: int)
    requires Cong(s * w, 1, n) && Cong(s * v, 1, n)
    ensures Cong(w, v, n)
  {
    hide Cong;
    assert w * s == s * w && v * s == s * v;
    CongSym(s * v, 1, n);
    CongTrans(w * s, 1, v * s, n);
    CongCancel(w, v, s, w, n);
  }

  /** A product is zero only if a factor is. */
  lemma NoZeroDivisors(k: nat, t: nat, n: nat)
    requires IsPrime(n) && 0 < k < n && 0 < t < n
    ensures k * t % n != 0
  {
    hide Cong, IsPrime;
    if k * t % n == 0 {
      var w := InverseExists(k, n);
      var q := k * t / n;
      var j := CongElim(k * w, 1, n);
      Regroup(k, t, w, q, j, n);
      var m := w * q - t * j;
      if m < 1 {
        MulMono(m, 0, n);
      } else {
        MulMono(1, m, n);
      }
      assert false;
    }
  }

  lemma Regroup(k: int, t: int, w: int, q: int, j: int, n: int)
    requires k * t == n * q && k * w == 1 + j * n
    ensures t == (w * q - t * j) * n
  {
    assert t * (k * w) == w * (k * t);
    MulDist(t, 1, j * n);
    MulAssoc(t, j, n);
    MulAssoc(w, q, n);
    MulDist(n, w * q, t * j);
  }

  lemma Coprime(s: nat, n: nat)
    requires IsPrime(n) && 0 < s < n
    ensures IsGcd(1, s, n)
  {
    hide Cong, Divides;
    var w := InverseExists(s, n);
    DividesIntro(1, s, s);
    DividesIntro(1, n, n);
    forall d: int | Divides(d, s) && Divides(d, n) ensures Divides(d, 1) {
      var k := CongElim(s * w, 1, n);
      DividesMultiple(d, s, w);
      DividesMultiple(d, n, k);
      assert w * s == s * w;
      DividesSum(d, w * s, k * n);
    }
  }

  /** A blinded number has an inverse. */
  lemma Invertible(k: nat, t: nat, n: nat)
    requires IsPrime(n) && 0 < k < n && 0 < t < n
    ensures IsGcd(1, (k * t) % n, n)
  {
    hide IsPrime, IsGcd, Cong;
    NoZeroDivisors(k, t, n);
    DivModBounds(k * t, n);
    Coprime((k * t) % n, n);
  }
}

/** The group of the curve, known only by its laws: the arithmetic of its points is not part of this model. */
module CurveGroup {
  import opened Products
  import opened Congruence
  import opened PrimeField

  datatype Curve<!Point(!new)> = Curve(canDo: bool, n: nat, generator: Point, zero: Point,
                                     add: (Point, Point) -> Point, x: Point -> nat)
  {
    /** k times a point. */
    function Multiple(k: nat, p: Point): Point {
      if k == 0 then zero else add(Multiple(k - 1, p), p)
    }
  }

  /** A monoid in which the generator has prime order n; nothing else is used. */
  ghost predicate IsGroup<P(!new)>(c: Curve<P>) {
    && (forall a, b, d :: c.add(c.add(a, b), d) == c.add(a, c.add(b, d)))
    && (forall a :: c.add(a, c.zero) == a && c.add(c.zero, a) == a)
    && IsPrime(c.n)
    && c.Multiple(c.n, c.generator) == c.zero
    && forall k: nat :: 0 < k < c.n ==> c.Multiple(k, c.generator) != c.zero
  }

  /** The laws are consistent: the two truth values with exclusive or obey them. */
  lemma SmallestGroup()
    ensures IsGroup(Curve(true, 2, true, false, (a, b) => a != b, a => if a then 1 else 0))
  {
    var c := Curve(true, 2, true, false, (a: bool, b: bool) => a != b, (a: bool) => if a then 1 else 0);
    assert c.Multiple(0, true) == false;
    assert c.Multiple(1, true) == true;
    assert c.Multiple(2, true) == false;
  }

  lemma Laws<P(!new)>(c: Curve<P>, a: P, b: P, d: P)
    requires IsGroup(c)
    ensures c.add(c.add(a, b), d) == c.add(a, c.add(b, d))
    ensures c.add(a, c.zero) == a && c.add(c.zero, a) == a
  {
  }

  lemma Order<P(!new)>(c: Curve<P>, k: nat)
    requires IsGroup(c)
    ensures IsPrime(c.n) && c.n > 1 && c.Multiple(c.n, c.generator) == c.zero
    ensures 0 < k < c.n ==> c.Multiple(k, c.generator) != c.zero
  {
  }

  lemma {:induction false} MultipleAdd<P(!new)>(c: Curve<P>, a: nat, b: nat, p: P)
    requires IsGroup(c)
    ensures c.add(c.Multiple(a, p), c.Multiple(b, p)) == c.Multiple(a + b, p)
  {
    hide IsGroup;
    if b > 0 {
      MultipleAdd(c, a, b - 1, p);
      Laws(c, c.Multiple(a, p), c.Multiple(b - 1, p), p);
    } else {
      Laws(c, c.Multiple(a, p), p, p);
    }
  }

  lemma {:induction false} MultipleTimes<P(!new)>(c: Curve<P>, m: nat, k: nat, p: P)
    requires IsGroup(c)
    ensures c.Multiple(m, c.Multiple(k, p)) == c.Multiple(m * k, p)
  {
    hide IsGroup;
    if m == 0 {
      assert m * k == 0;
    } else {
      MultipleTimes(c, m - 1, k, p);
      MulDist(k, m, 1);
      MulNonNeg(m - 1, k);
      MultipleAdd(c, (m - 1) * k, k, p);
    }
  }

  lemma {:induction false} MultipleOfZero<P(!new)>(c: Curve<P>, m: nat)
    requires IsGroup(c)
    ensures c.Multiple(m, c.zero) == c.zero
  {
    hide IsGroup;
    if m > 0 {
      MultipleOfZero(c, m - 1);
      Laws(c, c.zero, c.zero, c.zero);
    }
  }

  /** Only the residue of the factor matters. */
  lemma MultipleCong<P(!new)>(c: Curve<P>, a: nat, b: nat)
    requires IsGroup(c) && Cong(a, b, c.n)
    ensures c.Multiple(a, c.generator) == c.Multiple(b, c.generator)
  {
    hide IsGroup, Cong;
    Order(c, 0);
    CongIsMod(a, b, c.n);
    MultipleResidue(c, a);
    MultipleResidue(c, b);
  }

  lemma MultipleResidue<P(!new)>(c: Curve<P>, a: nat)
    requires IsGroup(c)
    ensures c.Multiple(a, c.generator) == c.Multiple(a % c.n, c.generator)
  {
    hide IsGroup;
    Order(c, 0);
    var q, r := a / c.n, a % c.n;
    assert a == q * c.n + r;
    MulNonNeg(q, c.n);
    MultipleAdd(c, q * c.n, r, c.generator);
    MultipleTimes(c, q, c.n, c.generator);
    MultipleOfZero(c, q);
    Laws(c, c.Multiple(r, c.generator), c.zero, c.zero);
  }
}

/** Signing and verifying with the curve group as a parameter. */
module Ecdsa {
  import opened Words
  import opened Products
  import opened Limbs
  import opened Status
  import opened MpiModule
  import opened MpiBits
  import opened MpiDiv
  import opened MpiBinary
  import opened Congruence
  import opened Divisibility
  import opened PrimeField
  import opened CurveGroup
  import opened Numerals
  import MpiGcd

  // ---------- the integer derived from a hash ----------

  /** The leftmost `bits` bits of a byte string, all of it when it is shorter. */
  function LeftmostBits(buf: seq<byte>, bits: nat): nat {
    if 8 * |buf| > bits then Quotient(Bytes(buf), Pow2(8 * |buf| - bits)) else Bytes(buf)
  }

  function Quotient(a: nat, b: nat): nat
    requires b > 0
  {
    a / b
  }

  lemma LeftmostBound(buf: seq<byte>, bits: nat)
    ensures LeftmostBits(buf, bits) < Pow2(bits)
  {
    hide Pow2, Value;
    BytesBound(buf);
    if 8 * |buf| > bits {
      var k := 8 * |buf| - bits;
      Pow2Add(bits, k);
      QuotientBelow(Bytes(buf), Pow2(k), Pow2(k), Pow2(bits));
    } else {
      Pow2Monotonic(8 * |buf|, bits);
    }
  }

  /** They are the number whose multiple by the right power of two is the last one not above the string. */
  lemma LeftmostMeans(buf: seq<byte>, bits: nat)
    requires 8 * |buf| > bits
    ensures var t, w := LeftmostBits(buf, bits), Pow2(8 * |buf| - bits); t * w <= Bytes(buf) < (t + 1) * w
  {
    hide Pow2, Bytes;
    var w := Pow2(8 * |buf| - bits);
    DivModBounds(Bytes(buf), w);
    MulDist(w, Bytes(buf) / w, 1);
  }

  /** Cutting whole bytes first makes no difference. */
  lemma CutFirst(buf: seq<byte>, n: nat, bits: nat)
    requires n == (bits + 7) / 8 && n < |buf|
    ensures LeftmostBits(buf[..n], bits) == LeftmostBits(buf, bits)
  {
    hide Pow2, Value;
    var m := |buf| - n;
    assert buf == buf[..n] + buf[n..];
    BytesAppend(buf[..n], buf[n..]);
    BytesBound(buf[n..]);
    var a := Bytes(buf[..n]);
    DivModUnique(Bytes(buf), Pow2(8 * m), a, Bytes(buf[n..]));
    if 8 * n > bits {
      var k := 8 * n - bits;
      Pow2Add(8 * m, k);
      DivTwice(Bytes(buf), Pow2(8 * m), Pow2(k));
    } else {
      assert 8 * |buf| - bits == 8 * m;
    }
  }

  /** The hash as a number modulo n. */
  ghost function HashValue(buf: seq<byte>, n: nat): (e: nat)
    requires n > 0
  {
    LeftmostBits(buf, BitCount(n)) % n
  }

  /** In numbers: t is the string without the bits that the modulus does not have. */
  lemma HashMeans(buf: seq<byte>, n: nat, t: nat)
    requires n > 0
    requires var bits := BitCount(n);
      if 8 * |buf| > bits then t * Pow2(8 * |buf| - bits) <= Bytes(buf) < (t + 1) * Pow2(8 * |buf| - bits) else t == Bytes(buf)
    ensures HashValue(buf, n) == t % n
  {
    hide Pow2, Bytes, BitCount;
    var bits := BitCount(n);
    if 8 * |buf| > bits {
      var w := Pow2(8 * |buf| - bits);
      MulDist(w, t, 1);
      DivModUnique(Bytes(buf), w, t, Bytes(buf) - t * w);
    }
  }

  /** `derive_mpi`: after the shift one subtraction is enough. */
  method DeriveMpi(N: Mpi, nbits: nat, x: Mpi, buf: seq<byte>) returns (st: Status)
    requires x != N && N.Int() > 1 && nbits == BitCount(N.Int())
    modifies x
    ensures st.Ok? || st.AllocFailed?
    ensures st.Ok? ==> x.Int() == HashValue(buf, N.Int())
  {
    hide Val, Pow2, Bytes, BitCount, HashValue;
    var nSize := (nbits + 7) / 8;
    var use := if |buf| > nSize then nSize else |buf|;
    :- ReadBinary(x, buf[..use]);
    if use * 8 > nbits {
      :- ShiftR(x, use * 8 - nbits);
    }
    assert x.Int() == LeftmostBits(buf[..use], nbits);
    if use < |buf| {
      CutFirst(buf, use, nbits);
    } else {
      assert buf[..use] == buf;
    }
    OneSubtraction(buf, N.Int());
    var c := x.CmpMpi(N);
    if c >= 0 {
      :- x.SubMpi(x, N);
    }
    return Ok;
  }

  lemma OneSubtraction(buf: seq<byte>, n: nat)
    requires 1 < n
    ensures var t := LeftmostBits(buf, BitCount(n)); t < 2 * n && HashValue(buf, n) == if t >= n then t - n else t
  {
    hide Pow2, LeftmostBits, BitCount;
    var t := LeftmostBits(buf, BitCount(n));
    LeftmostBound(buf, BitCount(n));
    BitCountIs(n);
    if BitCount(n) > 0 {
      Pow2Next(BitCount(n) - 1);
    } else {
      Pow2Zero();
    }
    if t >= n {
      DivModUnique(t, n, 1, t - n);
    } else {
      DivModUnique(t, n, 0, t);
    }
  }

  // ---------- the two equations ----------

  /** What a verifier computes from an inverse w of s. */
  ghost predicate Passes<P(!new)>(c: Curve<P>, e: nat, q: P, r: nat, w: nat)
    requires c.n > 0
  {
    var p := c.add(c.Multiple((e * w) % c.n, c.generator), c.Multiple((r * w) % c.n, q));
    p != c.zero && c.x(p) % c.n == r
  }

  ghost predicate IsInverse(s: int, w: int, n: int) {
    0 <= w < n && Cong(s * w, 1, n)
  }

  /** The signature (r, s) of the hash value e is good for the public key q. */
  ghost predicate Accepts<P(!new)>(c: Curve<P>, e: nat, q: P, r: int, s: int)
    requires c.n > 0
  {
    1 <= r < c.n && 1 <= s < c.n && exists w :: IsInverse(s, w, c.n) && Passes(c, e, q, r, w)
  }

  /** All inverses lead to the same verdict. */
  lemma InverseIrrelevant<P(!new)>(c: Curve<P>, e: nat, q: P, r: int, s: int, w: nat)
    requires IsGroup(c) && 1 <= r < c.n && 1 <= s < c.n && IsInverse(s, w, c.n)
    ensures Accepts(c, e, q, r, s) <==> Passes(c, e, q, r, w)
  {
    hide Cong, IsGroup, Passes;
    Order(c, 0);
    if Accepts(c, e, q, r, s) {
      var v :| IsInverse(s, v, c.n) && Passes(c, e, q, r, v);
      InverseUnique(s, v, w, c.n);
      CongUnique(v, w, c.n);
    }
  }

  /** u1 + u2 d is the factor k that made r. */
  lemma FactorRecovered(e: nat, r: nat, d: nat, s: nat, k: nat, w: nat, n: nat)
    requires 0 < n && Cong(s * k, e + r * d, n) && Cong(s * w, 1, n)
    ensures Cong((e * w) % n + ((r * w) % n) * d, k, n)
  {
    hide Cong;
    CongMod(e * w, n);
    CongMod(r * w, n);
    CongScale((r * w) % n, r * w, d, n);
    CongAdd((e * w) % n, e * w, ((r * w) % n) * d, (r * w) * d, n);
    CongSym(s * k, e + r * d, n);
    CongScale(e + r * d, s * k, w, n);
    CongScale(s * w, 1, k, n);
    Regroup(e, r, d, w, s, k);
    CongTrans((e * w) % n + ((r * w) % n) * d, e * w + (r * w) * d, (s * w) * k, n);
    CongTrans((e * w) % n + ((r * w) % n) * d, (s * w) * k, k, n);
  }

  lemma Regroup(e: int, r: int, d: int, w: int, s: int, k: int)
    ensures (e + r * d) * w == e * w + (r * w) * d && (s * k) * w == (s * w) * k
  {
    MulDist(w, e, r * d);
    MulAssoc(r, d, w);
    MulAssoc(r, w, d);
    MulAssoc(s, k, w);
    MulAssoc(s, w, k);
  }

  lemma InverseInRange(s: nat, n: nat) returns (w: nat)
    requires IsPrime(n) && 0 < s < n
    ensures IsInverse(s, w, n)
  {
    hide Cong;
    var v := InverseExists(s, n);
    w := v % n;
    CongMod(v, n);
    CongScale(w, v, s, n);
    CongTrans(s * w, s * v, 1, n);
  }

  /** The verifier's point is the point of the ephemeral key. */
  lemma PointRecovered<P(!new)>(c: Curve<P>, e: nat, r: nat, d: nat, s: nat, k: nat, w: nat)
    requires IsGroup(c) && Cong(s * k, e + r * d, c.n) && IsInverse(s, w, c.n)
    ensures c.n > 0
    ensures c.add(c.Multiple((e * w) % c.n, c.generator), c.Multiple((r * w) % c.n, c.Multiple(d, c.generator)))
      == c.Multiple(k, c.generator)
  {
    hide Cong, IsGroup, Curve.Multiple;
    Order(c, 0);
    var u1, u2 := (e * w) % c.n, (r * w) % c.n;
    FactorRecovered(e, r, d, s, k, w, c.n);
    MultipleTimes(c, u2, d, c.generator);
    MulNonNeg(u2, d);
    MultipleAdd(c, u1, u2 * d, c.generator);
    MultipleCong(c, u1 + u2 * d, k);
  }

  /** A signature made with the factor k is accepted under the key d G. */
  lemma SignatureAccepted<P(!new)>(c: Curve<P>, e: nat, d: nat, k: nat, r: nat, s: nat)
    requires IsGroup(c) && 0 < k < c.n && 1 <= r < c.n && 1 <= s < c.n
    requires r == c.x(c.Multiple(k, c.generator)) % c.n
    requires Cong(s * k, e + r * d, c.n)
    ensures Accepts(c, e, c.Multiple(d, c.generator), r, s)
  {
    hide Cong, IsGroup, IsInverse, Curve.Multiple, IsPrime;
    Order(c, k);
    var w := InverseInRange(s, c.n);
    PointRecovered(c, e, r, d, s, k, w);
    assert IsInverse(s, w, c.n) && Passes(c, e, c.Multiple(d, c.generator), r, w);
  }

  /** The pairs that signing with the private key d can produce for the hash value e. */
  ghost predicate Signs<P(!new)>(c: Curve<P>, e: nat, d: nat, r: int, s: int)
    requires c.n > 0
  {
    && 1 <= r < c.n && 1 <= s < c.n
    && exists k: nat :: 0 < k < c.n && Cong(s * k, e + r * d, c.n) && r == c.x(c.Multiple(k, c.generator)) % c.n
  }

  /** Under the key d G exactly those are accepted. */
  lemma AcceptsIff<P(!new)>(c: Curve<P>, e: nat, d: nat, r: int, s: int)
    requires IsGroup(c)
    ensures Accepts(c, e, c.Multiple(d, c.generator), r, s) <==> Signs(c, e, d, r, s)
  {
    hide Cong, IsGroup, Curve.Multiple, IsPrime, Passes;
    Order(c, 0);
    if Accepts(c, e, c.Multiple(d, c.generator), r, s) {
      var w :| IsInverse(s, w, c.n) && Passes(c, e, c.Multiple(d, c.generator), r, w);
      PassedIsSigned(c, e, d, r, s, w);
    }
    if Signs(c, e, d, r, s) {
      var k: nat :| 0 < k < c.n && Cong(s * k, e + r * d, c.n) && r == c.x(c.Multiple(k, c.generator)) % c.n;
      SignatureAccepted(c, e, d, k, r, s);
    }
  }

  /** What passes was made with a factor k that the verifier cannot know. */
  lemma PassedIsSigned<P(!new)>(c: Curve<P>, e: nat, d: nat, r: nat, s: nat, w: nat)
    requires IsGroup(c) && 1 <= r < c.n && 1 <= s < c.n && IsInverse(s, w, c.n)
    requires Passes(c, e, c.Multiple(d, c.generator), r, w)
    ensures Signs(c, e, d, r, s)
  {
    hide Cong, IsGroup, Curve.Multiple, IsPrime, IsInverse;
    var z := e + r * d;
    var k := NonceOf(z, s, w, c.n);
    PointRecovered(c, e, r, d, s, k, w);
    NoMultiple(c);
    assert Cong(s * k, e + r * d, c.n) && r == c.x(c.Multiple(k, c.generator)) % c.n;
  }

  lemma OnlySigned<P(!new)>(c: Curve<P>, e: nat, q: P, r: int, s: int)
    requires IsGroup(c)
    ensures c.n > 0
    ensures forall d: nat :: q == c.Multiple(d, c.generator) ==> (Accepts(c, e, q, r, s) <==> Signs(c, e, d, r, s))
  {
    hide Accepts, Signs;
    Order(c, 0);
    forall d: nat | q == c.Multiple(d, c.generator) ensures Accepts(c, e, q, r, s) <==> Signs(c, e, d, r, s) {
      AcceptsIff(c, e, d, r, s);
    }
  }

  lemma NoMultiple<P(!new)>(c: Curve<P>)
    ensures c.Multiple(0, c.generator) == c.zero
  {
  }

  /** The only factor that can have made s. */
  lemma NonceOf(z: int, s: int, w: int, n: nat) returns (k: nat)
    requires n > 0 && IsInverse(s, w, n)
    ensures k < n && Cong(s * k, z, n)
  {
    hide Cong;
    k := (z * w) % n;
    CongMod(z * w, n);
    CongScale(k, z * w, s, n);
    CongScale(s * w, 1, z, n);
    assert s * (z * w) == z * (s * w) by {
      MulAssoc(s, z, w);
      MulAssoc(z, s, w);
    }
    CongTrans(s * k, z * (s * w), z, n);
  }

  /** The blinding by t cancels: inv ((e + r d) t), with inv the inverse of k t, times k is e + r d. */
  lemma BlindedEquation(e: nat, r: nat, d: nat, k: nat, t: nat, inv: nat, s: nat, n: nat)
    requires 0 < n && Cong(((k * t) % n) * inv, 1, n) && s == (inv * ((e + r * d) * t)) % n
    ensures Cong(s * k, e + r * d, n)
  {
    hide Cong;
    var z := e + r * d;
    CongMod(k * t, n);
    CongScale(k * t, (k * t) % n, inv, n);
    CongTrans((k * t) * inv, ((k * t) % n) * inv, 1, n);
    CongMod(inv * (z * t), n);
    CongScale(s, inv * (z * t), k, n);
    CongScale((k * t) * inv, 1, z, n);
    RegroupBlinded(inv, z, t, k);
    CongTrans(s * k, z * ((k * t) * inv), z, n);
  }

  lemma RegroupBlinded(inv: int, z: int, t: int, k: int)
    ensures (inv * (z * t)) * k == z * ((k * t) * inv)
  {
    assert (inv * (z * t)) * k == z * ((k * t) * inv);
  }

  // ---------- the functions ----------

  /** Out of memory, or the random generator failed or delivered nothing usable. */
  predicate NoLuck(st: Status) {
    st.AllocFailed? || st.RngFailed? || st.NotAcceptable?
  }

  /** `mbedtls_ecp_gen_privkey`: a random number in 1..n-1. */
  method GenPrivkey(k: Mpi, N: Mpi) returns (st: Status)
    requires k != N
    modifies k
    ensures st.Ok? || NoLuck(st) || st.BadInputData?
    ensures st.BadInputData? <==> N.Int() <= 1
    ensures st.Ok? ==> 1 <= k.Int() < N.Int()
  {
    BaseIsPow2();
    ghost var drawn;
    st, drawn := Random(k, 1, N);
  }

  /** A number as limbs, the form in which a coordinate is delivered. */
  function LimbsOf(v: nat): (p: seq<limb>)
    ensures Val(p) == v
    decreases v
  {
    if v == 0 then [] else
      var low: limb := Wrap(v);
      var rest := LimbsOf(v / BASE);
      ValFirst([low] + rest);
      assert ([low] + rest)[1..] == rest;
      [low] + rest
  }

  /** The x-coordinate of k times the generator (`mbedtls_ecp_mul` and the field `X` of its result). */
  method MulBase<P(!new)>(c: Curve<P>, k: Mpi) returns (st: Status, x: Mpi)
    requires k.Int() >= 0
    ensures st.Ok? || st.AllocFailed?
    ensures st.Ok? ==> fresh(x) && x.Int() == c.x(c.Multiple(k.Int(), c.generator))
  {
    hide Val;
    x := new Mpi();
    if * {
      return AllocFailed, x;
    }
    x.p := LimbsOf(c.x(c.Multiple(Val(k.p), c.generator)));
    return Ok, x;
  }

  /** One ephemeral key: k and r, with r not zero unless the caller must try again. */
  method EphemeralKey<P(!new)>(c: Curve<P>, N: Mpi, k: Mpi, r: Mpi) returns (st: Status)
    requires IsGroup(c) && N.Int() == c.n && k != N && r != N && k != r
    modifies k, r
    ensures st.Ok? || NoLuck(st)
    ensures st.Ok? ==> 1 <= k.Int() < c.n
    ensures st.Ok? ==> r.Int() == c.x(c.Multiple(k.Int(), c.generator)) % c.n
    ensures st.Ok? ==> 1 <= r.Int() < c.n
  {
    hide Val, IsGroup;
    Order(c, 0);
    var tries := 0;
    while true
      invariant 0 <= tries <= 11
      decreases 11 - tries
    {
      tries := tries + 1;
      if tries > 11 {
        return RngFailed;
      }
      :- GenPrivkey(k, N);
      var x;
      st, x := MulBase(c, k);
      if !st.Ok? {
        return;
      }
      :- ModMpi(r, x, N);
      var zero := r.CmpInt(0);
      if zero != 0 {
        return Ok;
      }
    }
  }

  /** One try for s: the equation, computed with the blinding factor t. */
  method BlindedS<P(!new)>(c: Curve<P>, N: Mpi, nbits: nat, k: Mpi, r: Mpi, s: Mpi, d: Mpi, e: Mpi, t: Mpi, buf: seq<byte>)
      returns (st: Status)
    requires IsGroup(c) && N.Int() == c.n && nbits == BitCount(c.n)
    requires N !in {k, r, s, d, e, t} && k !in {r, s, d, e, t} && r !in {s, d, e, t} && s !in {d, e, t} && d !in {e, t} && e != t
    requires 1 <= k.Int() < c.n && 1 <= r.Int() < c.n && 1 <= d.Int() < c.n
    modifies k, s, e, t
    ensures st.Ok? || NoLuck(st)
    ensures st.Ok? ==> 0 <= s.Int() < c.n && Cong(s.Int() * old(k.Int()), HashValue(buf, c.n) + r.Int() * d.Int(), c.n)
  {
    hide Val, IsGroup, Cong, IsGcd, BitCount, HashValue;
    Order(c, 0);
    :- BlindedNumerator(N, nbits, r, s, d, e, t, buf);
    :- k.MulMpi(k, t);
    :- ModMpi(k, k, N);
    Invertible(old(k.Int()), t.Int(), c.n);
    :- MpiGcd.InvMod(s, k, N);
    ghost var inv := s.Int();
    :- s.MulMpi(s, e);
    :- ModMpi(s, s, N);
    BlindedEquation(HashValue(buf, c.n), r.Int(), d.Int(), old(k.Int()), t.Int(), inv, s.Int(), c.n);
    return Ok;
  }

  /** e = (hash + r d) t with a fresh blinding factor t. */
  method BlindedNumerator(N: Mpi, nbits: nat, r: Mpi, s: Mpi, d: Mpi, e: Mpi, t: Mpi, buf: seq<byte>) returns (st: Status)
    requires N !in {s, e, t} && r !in {s, e, t} && d !in {s, e, t} && s != e && s != t && e != t
    requires N.Int() > 1 && nbits == BitCount(N.Int())
    modifies s, e, t
    ensures st.Ok? || NoLuck(st)
    ensures st.Ok? ==> 0 < t.Int() < N.Int() && e.Int() == (HashValue(buf, N.Int()) + r.Int() * d.Int()) * t.Int()
  {
    hide Val, BitCount, HashValue;
    :- DeriveMpi(N, nbits, e, buf);
    :- GenPrivkey(t, N);
    :- s.MulMpi(r, d);
    :- e.AddMpi(e, s);
    :- e.MulMpi(e, t);
    return Ok;
  }

  /** `ecdsa_sign_restartable` without restart: every signature it returns is accepted under the key d G. */
  method Sign<P(!new)>(c: Curve<P>, N: Mpi, nbits: nat, r: Mpi, s: Mpi, d: Mpi, buf: seq<byte>) returns (st: Status)
    requires IsGroup(c) && N.Int() == c.n && nbits == BitCount(c.n)
    requires N !in {r, s, d} && r !in {s, d} && s != d
    modifies r, s
    ensures st.BadInputData? <==> !c.canDo
    ensures st.InvalidKey? <==> c.canDo && !(1 <= d.Int() < c.n)
    ensures st.Ok? || st.BadInputData? || st.InvalidKey? || NoLuck(st)
    ensures st.Ok? ==> 1 <= r.Int() < c.n && 1 <= s.Int() < c.n
    ensures st.Ok? ==> Accepts(c, HashValue(buf, c.n), c.Multiple(d.Int(), c.generator), r.Int(), s.Int())
  {
    hide Val, IsGroup, Cong, BitCount, Accepts;
    Order(c, 0);
    if !c.canDo {
      return BadInputData;
    }
    var low := d.CmpInt(1);
    var high := d.CmpMpi(N);
    if low < 0 || high >= 0 {
      return InvalidKey;
    }
    var k := new Mpi();
    var e := new Mpi();
    var t := new Mpi();
    var tries := 0;
    while true
      invariant 0 <= tries <= 11
      decreases 11 - tries
    {
      tries := tries + 1;
      if tries > 11 {
        return RngFailed;
      }
      :- SignOnce(c, N, nbits, r, s, d, buf, k, e, t);
      var zero := s.CmpInt(0);
      if zero != 0 {
        return Ok;
      }
    }
  }

  /** One pass through the loop: what it leaves is a good signature unless s is zero. */
  method SignOnce<P(!new)>(c: Curve<P>, N: Mpi, nbits: nat, r: Mpi, s: Mpi, d: Mpi, buf: seq<byte>, k: Mpi, e: Mpi, t: Mpi)
      returns (st: Status)
    requires IsGroup(c) && N.Int() == c.n && nbits == BitCount(c.n) && 1 <= d.Int() < c.n
    requires N !in {k, r, s, d, e, t} && k !in {r, s, d, e, t} && r !in {s, d, e, t} && s !in {d, e, t} && d !in {e, t} && e != t
    modifies r, s, k, e, t
    ensures st.Ok? || NoLuck(st)
    ensures st.Ok? && s.Int() != 0 ==> 1 <= r.Int() < c.n && 1 <= s.Int() < c.n
    ensures st.Ok? && s.Int() != 0 ==> Accepts(c, HashValue(buf, c.n), c.Multiple(d.Int(), c.generator), r.Int(), s.Int())
  {
    hide Val, IsGroup, Cong, BitCount, Accepts, HashValue;
    :- EphemeralKey(c, N, k, r);
    ghost var k0 := k.Int();
    :- BlindedS(c, N, nbits, k, r, s, d, e, t, buf);
    if s.Int() != 0 {
      SignatureAccepted(c, HashValue(buf, c.n), d.Int(), k0, r.Int(), s.Int());
    }
    return Ok;
  }

  /** R = u1 G + u2 Q (`mbedtls_ecp_muladd`). */
  method MulAdd<P(!new)>(c: Curve<P>, u1: Mpi, u2: Mpi, q: P) returns (st: Status, R: P)
    requires u1.Int() >= 0 && u2.Int() >= 0
    ensures st.Ok? || st.AllocFailed?
    ensures st.Ok? ==> R == c.add(c.Multiple(u1.Int(), c.generator), c.Multiple(u2.Int(), q))
  {
    hide Val;
    R := c.zero;
    if * {
      return AllocFailed, R;
    }
    R := c.add(c.Multiple(Val(u1.p), c.generator), c.Multiple(Val(u2.p), q));
    return Ok, R;
  }

  /** u1 = e / s and u2 = r / s. */
  method Factors<P(!new)>(c: Curve<P>, N: Mpi, nbits: nat, buf: seq<byte>, r: Mpi, s: Mpi, u1: Mpi, u2: Mpi)
      returns (st: Status, ghost w: nat)
    requires IsGroup(c) && N.Int() == c.n && nbits == BitCount(c.n)
    requires 1 <= r.Int() < c.n && 1 <= s.Int() < c.n && u1 !in {u2, N, r, s} && u2 !in {N, r, s}
    modifies u1, u2
    ensures st.Ok? || st.AllocFailed?
    ensures st.Ok? ==> IsInverse(s.Int(), w, c.n)
    ensures st.Ok? ==> u1.Int() == (HashValue(buf, c.n) * w) % c.n && u2.Int() == (r.Int() * w) % c.n
  {
    hide Val, IsGroup, Cong, BitCount, IsGcd, IsPrime;
    Order(c, 0);
    w := 0;
    var e := new Mpi();
    var inv := new Mpi();
    st := DeriveMpi(N, nbits, e, buf);
    if !st.Ok? {
      return;
    }
    Coprime(s.Int(), c.n);
    st := MpiGcd.InvMod(inv, s, N);
    if !st.Ok? {
      return;
    }
    w := inv.Int();
    st := u1.MulMpi(e, inv);
    if !st.Ok? {
      return;
    }
    st := ModMpi(u1, u1, N);
    if !st.Ok? {
      return;
    }
    st := u2.MulMpi(r, inv);
    if !st.Ok? {
      return;
    }
    st := ModMpi(u2, u2, N);
  }

  /** The comparison of the x-coordinate with r. */
  method CheckPoint<P(==,!new)>(c: Curve<P>, N: Mpi, u1: Mpi, u2: Mpi, q: P, r: Mpi, ghost e: nat, ghost w: nat)
      returns (st: Status)
    requires c.n > 0 && N.Int() == c.n && r.Int() >= 0
    requires u1.Int() == (e * w) % c.n && u2.Int() == (r.Int() * w) % c.n
    ensures st.Ok? || st.VerifyFailed? || st.AllocFailed?
    ensures st.Ok? ==> Passes(c, e, q, r.Int(), w)
    ensures st.VerifyFailed? ==> !Passes(c, e, q, r.Int(), w)
  {
    hide Val;
    var R;
    st, R := MulAdd(c, u1, u2, q);
    if !st.Ok? {
      return;
    }
    if R == c.zero {
      return VerifyFailed;
    }
    var X := new Mpi();
    X.p := LimbsOf(c.x(R));
    :- ModMpi(X, X, N);
    var different := X.CmpMpi(r);
    st := if different != 0 then VerifyFailed else Ok;
  }

  /** `ecdsa_verify_restartable` without restart: accepts exactly the good signatures. */
  method Verify<P(==,!new)>(c: Curve<P>, N: Mpi, nbits: nat, buf: seq<byte>, q: P, r: Mpi, s: Mpi) returns (st: Status)
    requires IsGroup(c) && N.Int() == c.n && nbits == BitCount(c.n)
    ensures st.BadInputData? <==> !c.canDo
    ensures st.Ok? || st.VerifyFailed? || st.AllocFailed? || st.BadInputData?
    ensures st.Ok? ==> Accepts(c, HashValue(buf, c.n), q, r.Int(), s.Int())
    ensures st.VerifyFailed? ==> !Accepts(c, HashValue(buf, c.n), q, r.Int(), s.Int())
    ensures st.Ok? ==> forall d: nat :: q == c.Multiple(d, c.generator) ==> Signs(c, HashValue(buf, c.n), d, r.Int(), s.Int())
    ensures st.VerifyFailed? ==> forall d: nat :: q == c.Multiple(d, c.generator) ==> !Signs(c, HashValue(buf, c.n), d, r.Int(), s.Int())
  {
    OnlySigned(c, HashValue(buf, c.n), q, r.Int(), s.Int());
    hide Val, IsGroup, Cong, BitCount, IsGcd, IsPrime, Passes;
    Order(c, 0);
    if !c.canDo {
      return BadInputData;
    }
    var rLow := r.CmpInt(1);
    var rHigh := r.CmpMpi(N);
    var sLow := s.CmpInt(1);
    var sHigh := s.CmpMpi(N);
    if rLow < 0 || rHigh >= 0 || sLow < 0 || sHigh >= 0 {
      return VerifyFailed;
    }
    var u1 := new Mpi();
    var u2 := new Mpi();
    ghost var w;
    st, w := Factors(c, N, nbits, buf, r, s, u1, u2);
    if !st.Ok? {
      return;
    }
    InverseIrrelevant(c, HashValue(buf, c.n), q, r.Int(), s.Int(), w);
    st := CheckPoint(c, N, u1, u2, q, r, HashValue(buf, c.n), w);
  }
}
