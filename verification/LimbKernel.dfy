/**
  The limb kernels: the two C versions of the multiply-and-add step of `bn_mul.h`, and the two versions of
  the two-by-one division of `bignum.c`.  The double-width versions use a type twice as wide as a limb; the
  half-limb versions only use limbs, and every operation on them wraps around.
 */
module LimbKernel {
  import opened Words
  import opened Products

  /** Two limbs as one number, the more significant one first. */
  function Pair(hi: nat, lo: nat): nat {
    hi * BASE + lo
  }

  lemma PairUnique(hi: limb, lo: limb, hi': limb, lo': limb)
    requires Pair(hi, lo) == Pair(hi', lo')
    ensures hi == hi' && lo == lo'
  {
    DivModUnique(Pair(hi, lo), BASE, hi, lo);
    DivModUnique(Pair(hi, lo), BASE, hi', lo');
  }

  /** The largest product of two limbs still leaves room for two limbs. */
  lemma ProductRoom(s: limb, b: limb)
    ensures 0 <= s * b <= (BASE - 1) * (BASE - 1)
  {
    MulMono(s, BASE - 1, b);
    MulMono(b, BASE - 1, BASE - 1);
    MulNonNeg(s, b);
  }

  /** Addition with the carry test of the C code: the carry is "the sum came out smaller". */
  lemma CarryOut(x: limb, y: limb)
    ensures Wrap(x + y) + (if Wrap(x + y) < y then BASE else 0) == x + y
  {
    if x + y < BASE {
      DivModUnique(x + y, BASE, 0, x + y);
    } else {
      DivModUnique(x + y, BASE, 1, x + y - BASE);
    }
  }

  lemma WrapId(x: int)
    requires 0 <= x < BASE
    ensures Wrap(x) == x
  {
  }

  /** A number below b^2 whose low part is in range has a high part in range. */
  lemma TopLimb(hi: int, lo: limb, x: int)
    requires hi * BASE + lo == x
    requires 0 <= x < BASE * BASE
    ensures 0 <= hi < BASE
  {
    if hi < 0 {
      MulMono(hi, -1, BASE);
    } else if hi >= BASE {
      MulMono(BASE, hi, BASE);
    }
  }

  /** The pair `r0 += x; r1 += (r0 < x)`, both additions wrapping. */
  method AddToPair(r1: limb, r0: limb, x: limb) returns (r1': limb, r0': limb)
    requires Pair(r1, r0) + x < BASE * BASE
    ensures Pair(r1', r0') == Pair(r1, r0) + x
  {
    r0' := Wrap(r0 + x);
    CarryOut(r0, x);
    var carry := if r0' < x then 1 else 0;
    TopLimb(r1 + carry, r0', Pair(r1, r0) + x);
    r1' := Wrap(r1 + carry);
    WrapId(r1 + carry);
  }

  /** `MULADDC_CORE` with a double-width product. */
  method MulAddWide(s: limb, b: limb, c: limb, d: limb) returns (c': limb, d': limb)
    ensures Pair(c', d') == s * b + c + d
  {
    ProductRoom(s, b);
    var r := s * b;
    TopLimb(r / BASE, Wrap(r), r);
    var r0: limb, r1: limb := Wrap(r), r / BASE;
    r1, r0 := AddToPair(r1, r0, c);
    r1, r0 := AddToPair(r1, r0, d);
    c', d' := r1, r0;
  }

  /** The two halves of a limb, as `x >> biH` and `(x << biH) >> biH` compute them. */
  function HighHalf(x: limb): (h: nat)
    ensures h < HALF
  {
    x / HALF
  }

  function LowHalf(x: limb): (l: nat)
    ensures l < HALF && x == HighHalf(x) * HALF + l
  {
    LowHalfOf(x);
    Wrap(x * HALF) / HALF
  }

  lemma LowHalfOf(x: limb)
    ensures Wrap(x * HALF) / HALF == x % HALF
  {
    BaseIsPow2();
    var hi, lo := x / HALF, x % HALF;
    MulDist(HALF, hi * HALF, lo);
    MulAssoc(hi, HALF, HALF);
    DivModUnique(x * HALF, BASE, hi, lo * HALF);
    DivModUnique(lo * HALF, HALF, lo, 0);
  }

  /** Products of halves fit in a limb. */
  lemma HalfProduct(x: nat, y: nat)
    requires x < HALF && y < HALF
    ensures 0 <= x * y <= (HALF - 1) * (HALF - 1) < BASE
    ensures Wrap(x * y) == x * y
  {
    MulMono(x, HALF - 1, y);
    MulMono(y, HALF - 1, HALF - 1);
    MulNonNeg(x, y);
    WrapId(x * y);
  }

  /** Schoolbook: the product of two limbs from the four products of their halves. */
  lemma HalvesMultiply(s1: nat, s0: nat, b1: nat, b0: nat, h: nat)
    ensures (s1 * h + s0) * (b1 * h + b0) == (s1 * b1) * (h * h) + (s0 * b1 + s1 * b0) * h + s0 * b0
  {
    var x, y := s1 * h, b1 * h;
    MulDist(x + s0, y, b0);
    MulDist(y, x, s0);
    MulDist(b0, x, s0);
    MulAssoc(s1, h, y);
    assert h * y == b1 * (h * h) by {
      MulAssoc(b1, h, h);
    }
    MulAssoc(s1, b1, h * h);
    MulAssoc(s0, b1, h);
    assert x * b0 == (s1 * b0) * h by {
      MulAssoc(s1, h, b0);
      MulAssoc(s1, b0, h);
    }
    MulDist(h, s0 * b1, s1 * b0);
  }

  /** A middle product, split at the half limb: its top half belongs to r1, its low half is shifted into r0. */
  lemma MiddleProduct(rx: limb)
    ensures rx * HALF == Pair(HighHalf(rx), Wrap(rx * HALF))
  {
    BaseIsPow2();
    var hi, lo := rx / HALF, rx % HALF;
    MulDist(HALF, hi * HALF, lo);
    MulAssoc(hi, HALF, HALF);
    DivModUnique(rx * HALF, BASE, hi, lo * HALF);
  }

  /** A product of two half limbs, computed in a limb. */
  method MulHalves(x: nat, y: nat) returns (r: limb)
    requires x < HALF && y < HALF
    ensures r == x * y
  {
    HalfProduct(x, y);
    r := Wrap(x * y);
  }

  /** `r1 += (rx >> biH); r1 += (ry >> biH); rx <<= biH; ry <<= biH` on the four products of the halves. */
  method FoldMiddle(ghost s: limb, ghost b: limb, r1: limb, rx: limb, ry: limb, ghost r0: limb)
    returns (r1': limb, rx': limb, ry': limb)
    requires r1 == HighHalf(s) * HighHalf(b) && rx == LowHalf(s) * HighHalf(b)
    requires ry == HighHalf(s) * LowHalf(b) && r0 == LowHalf(s) * LowHalf(b)
    ensures Pair(r1', r0) + rx' + ry' == s * b
  {
    SumFits(s, b, r1, rx, ry);
    SumOfHalves(s, b, r1, rx, ry, r0);
    r1' := Wrap(r1 + HighHalf(rx));
    r1' := Wrap(r1' + HighHalf(ry));
    rx', ry' := Wrap(rx * HALF), Wrap(ry * HALF);
  }

  /** `MULADDC_CORE` with half-limb products only. */
  method MulAddHalf(s: limb, b: limb, c: limb, d: limb) returns (c': limb, d': limb)
    ensures Pair(c', d') == s * b + c + d
  {
    var b0, b1 := LowHalf(b), HighHalf(b);
    var s0, s1 := LowHalf(s), HighHalf(s);
    var rx := MulHalves(s0, b1);
    var r0 := MulHalves(s0, b0);
    var ry := MulHalves(s1, b0);
    var r1 := MulHalves(s1, b1);
    r1, rx, ry := FoldMiddle(s, b, r1, rx, ry, r0);
    ProductRoom(s, b);
    c', d' := AddFour(s * b, r1, r0, rx, ry, c, d);
  }

  /** The four additions with carry that finish the half-limb kernel. */
  method AddFour(ghost sb: nat, r1: limb, r0: limb, rx: limb, ry: limb, c: limb, d: limb) returns (r1': limb, r0': limb)
    requires Pair(r1, r0) + rx + ry == sb <= (BASE - 1) * (BASE - 1)
    ensures Pair(r1', r0') == sb + c + d
  {
    r1', r0' := AddToPair(r1, r0, rx);
    r1', r0' := AddToPair(r1', r0', ry);
    r1', r0' := AddToPair(r1', r0', c);
    r1', r0' := AddToPair(r1', r0', d);
  }

  lemma SumFits(s: limb, b: limb, r1: limb, rx: limb, ry: limb)
    requires r1 == HighHalf(s) * HighHalf(b)
    ensures Wrap(Wrap(r1 + HighHalf(rx)) + HighHalf(ry)) == r1 + HighHalf(rx) + HighHalf(ry)
  {
    hide Wrap, HighHalf;
    HalfProduct(HighHalf(s), HighHalf(b));
    ThreeHalvesFit(r1, HighHalf(rx), HighHalf(ry));
  }

  lemma SumOfHalves(s: limb, b: limb, r1: limb, rx: limb, ry: limb, r0: limb)
    requires r1 == HighHalf(s) * HighHalf(b) && rx == LowHalf(s) * HighHalf(b)
    requires ry == HighHalf(s) * LowHalf(b) && r0 == LowHalf(s) * LowHalf(b)
    ensures Pair(r1 + HighHalf(rx) + HighHalf(ry), r0) + Wrap(rx * HALF) + Wrap(ry * HALF) == s * b
  {
    hide Wrap, HighHalf, LowHalf, Pair;
    HalvesMultiply(HighHalf(s), LowHalf(s), HighHalf(b), LowHalf(b), HALF);
    BaseIsPow2();
    MiddleProduct(rx);
    MiddleProduct(ry);
    var hx, hy, wx, wy := HighHalf(rx), HighHalf(ry), Wrap(rx * HALF), Wrap(ry * HALF);
    PairIs(hx, wx);
    PairIs(hy, wy);
    PairIs(r1 + hx + hy, r0);
    CollectHalves(r1, rx, ry, r0, hx, hy, wx, wy, HALF, BASE, s * b);
  }

  lemma PairIs(hi: nat, lo: nat)
    ensures Pair(hi, lo) == hi * BASE + lo
  {
  }

  lemma CollectHalves(r1: int, rx: int, ry: int, r0: int, hx: int, hy: int, wx: int, wy: int, h: int, base: int, x: int)
    requires x == r1 * base + (rx + ry) * h + r0
    requires rx * h == hx * base + wx && ry * h == hy * base + wy
    ensures (r1 + hx + hy) * base + r0 + wx + wy == x
  {
  }

  lemma ThreeHalvesFit(r1: nat, hx: nat, hy: nat)
    requires r1 <= (HALF - 1) * (HALF - 1) && hx < HALF && hy < HALF
    ensures Wrap(Wrap(r1 + hx) + hy) == r1 + hx + hy
  {
    WrapId(r1 + hx);
    WrapId(r1 + hx + hy);
  }

  /** Both kernels compute the same two limbs. */
  lemma KernelsAgree(s: limb, b: limb, c: limb, d: limb, hi: limb, lo: limb, hi': limb, lo': limb)
    requires Pair(hi, lo) == s * b + c + d && Pair(hi', lo') == s * b + c + d
    ensures hi == hi' && lo == lo'
  {
    PairUnique(hi, lo, hi', lo');
  }

  // ---------- division of two limbs by one ----------

  /** The number of leading zero bits of a limb. */
  method CountLeadingZeros(x: limb) returns (j: nat)
    ensures j <= BIL
    ensures x == 0 ==> j == BIL
    ensures x != 0 ==> j < BIL && Pow2(BIL - 1 - j) <= x < Pow2(BIL - j)
  {
    BaseIsPow2();
    j := 0;
    var mask := Pow2(BIL - 1);
    while j < BIL
      invariant j <= BIL
      invariant x < Pow2(BIL - j)
      invariant j < BIL ==> mask == Pow2(BIL - 1 - j)
    {
      if x / mask % 2 != 0 {
        TestBit(x, mask);
        break;
      }
      TestBit(x, mask);
      mask := mask / 2;
      j := j + 1;
    }
  }

  /** Below twice a power of two, testing that bit is comparing with it. */
  lemma TestBit(x: nat, mask: nat)
    requires 0 < mask && x < 2 * mask
    ensures x / mask % 2 != 0 <==> x >= mask
  {
    if x >= mask {
      DivModUnique(x, mask, 1, x - mask);
    } else {
      DivModUnique(x, mask, 0, x);
    }
  }

  /** The double-width version. */
  method IntDivIntWide(u1: limb, u0: limb, d: limb) returns (q: limb, r: limb)
    ensures d == 0 || u1 >= d ==> q == BASE - 1 && r == BASE - 1
    ensures d != 0 && u1 < d ==> IsDivision(Pair(u1, u0), d, q, r)
  {
    if d == 0 || u1 >= d {
      return BASE - 1, BASE - 1;
    }
    QuotientFits(u1, u0, d, BASE);
    var dividend := Pair(u1, u0);
    var quotient := dividend / d;
    if quotient > BASE - 1 {
      quotient := BASE - 1;
    }
    assert quotient == dividend / d;
    q := quotient;
    r := Wrap(dividend - quotient * d);
    WrapId(dividend % d);
  }

  /** Division with remainder, without the division operator. */
  ghost predicate IsDivision(x: int, d: int, q: int, r: int) {
    x == q * d + r && 0 <= r < d
  }

  lemma DivisionIsUnique(x: int, d: int, q: int, r: int)
    requires IsDivision(x, d, q, r)
    ensures q == x / d && r == x % d
  {
    DivModUnique(x, d, q, r);
  }

  /** A two-digit number whose leading digit is below the divisor has a one-digit quotient. */
  lemma QuotientFits(u: nat, w: nat, d: nat, h: nat)
    requires 0 < d && u < d && w < h
    ensures 0 <= (u * h + w) / d < h
    ensures IsDivision(u * h + w, d, (u * h + w) / d, (u * h + w) % d)
  {
    var x := u * h + w;
    TwoDigitsBelow(u, w, d, h);
    MulNonNeg(u, h);
    if x / d >= h {
      MulMono(h, x / d, d);
    }
  }

  lemma TwoDigitsBelow(u: nat, w: nat, d: nat, h: nat)
    requires u < d && w < h
    ensures u * h + w < d * h
  {
    MulMono(u + 1, d, h);
    MulDist(h, u, 1);
  }

  /** A normalised divisor has its leading half normalised as well. */
  lemma LeadingHalf(d: limb)
    requires BASE <= 2 * d
    ensures HALF <= 2 * HighHalf(d) && d == HighHalf(d) * HALF + d % HALF
  {
    if HALF > 2 * HighHalf(d) {
      MulMono(HighHalf(d), HALF / 2 - 1, HALF);
    }
  }

  /** What is left of the dividend after subtracting q times the divisor, seen through the leading half. */
  lemma Remainder(u: int, w: int, d: int, d1: int, d0: int, q: int, r0: int, h: int)
    requires d == d1 * h + d0 && q * d1 + r0 == u
    ensures u * h + w - q * d == r0 * h + w - q * d0
  {
    MulDist(q, d1 * h, d0);
    MulAssoc(q, d1, h);
    MulDist(h, q * d1, r0);
  }

  /** The estimate from the leading half is never too small ... */
  lemma EstimateAtLeast(u: nat, w: nat, d: nat, d1: nat, h: nat, t: nat)
    requires 0 < d1 && w < h && d1 * h <= d && t * d <= u * h + w
    ensures t <= u / d1
  {
    MulMono(d1 * h, d, t);
    MulAssoc(t, d1, h);
    if t * d1 > u {
      MulMono(u + 1, t * d1, h);
      MulDist(h, u, 1);
    }
    if t > u / d1 {
      MulMono(u / d1 + 1, t, d1);
      MulDist(d1, u / d1, 1);
    }
  }

  /** ... and at most two too large, because the divisor is normalised. */
  lemma EstimateAtMost(u: nat, d: nat, d1: nat, d0: nat, q: nat, h: nat)
    requires u < d == d1 * h + d0 && d0 < h <= 2 * d1 && q * d1 <= u
    ensures q <= h + 1
  {
    if q >= h + 2 {
      MulMono(h + 2, q, d1);
      MulDist(d1, h, 2);
    }
  }

  /** When the loop condition holds, the estimate is too large. */
  lemma EstimateTooBig(u: nat, w: nat, d: nat, d1: nat, d0: nat, q: nat, r0: nat, t: nat, h: nat)
    requires d == d1 * h + d0 && q * d1 + r0 == u
    requires t < h && t * d <= u * h + w < t * d + d
    requires q >= h || q * d0 > h * r0 + w
    ensures t < q
  {
    if t >= q {
      Remainder(u, w, d, d1, d0, q, r0, h);
      MulMono(q, t, d);
    }
  }

  /** When the loop stops, the estimate is not too large any more. */
  lemma EstimateRight(u: nat, w: nat, d: nat, d1: nat, d0: nat, q: nat, r0: nat, h: nat)
    requires d == d1 * h + d0 && q * d1 + r0 == u && d0 < h && q <= h
    requires r0 >= h || q * d0 <= h * r0 + w
    ensures q * d <= u * h + w
  {
    Remainder(u, w, d, d1, d0, q, r0, h);
    if r0 >= h {
      MulMono(h, r0, h);
      MulMono(q, h, d0);
      MulMono(d0, h, h);
    }
  }

  lemma LargestMultiple(x: nat, d: nat, t: nat, q: nat)
    requires t * d <= x < t * d + d && t <= q && q * d <= x
    ensures q == t
  {
    if q > t {
      MulMono(t + 1, q, d);
      MulDist(d, t, 1);
    }
  }

  /** The right-hand sides of the loop test fit in a limb. */
  lemma LoopTestFits(q: nat, d0: nat, r0: nat, w: nat)
    requires d0 < HALF && r0 < HALF && w < HALF
    ensures Wrap(HALF * r0 + w) == HALF * r0 + w
    ensures q < HALF ==> Wrap(q * d0) == q * d0
  {
    BaseIsPow2();
    MulMono(r0, HALF - 1, HALF);
    MulDist(HALF, HALF, 1);
    MulNonNeg(HALF, r0);
    WrapId(HALF * r0 + w);
    if q < HALF {
      HalfProduct(q, d0);
    }
  }

  /** The test of the correction loops, on wrapping limbs. */
  method EstimateExceeds(q: limb, d0: nat, r0: limb, w: nat) returns (b: bool)
    requires d0 < HALF && r0 < HALF && w < HALF
    ensures b <==> q >= HALF || q * d0 > HALF * r0 + w
  {
    LoopTestFits(q, d0, r0, w);
    b := q >= HALF || Wrap(q * d0) > Wrap(HALF * r0 + w);
  }

  lemma TrueDigit(u: nat, w: nat, d: nat, h: nat) returns (t: nat)
    requires 0 < d && u < d && w < h
    ensures t < h && t * d <= u * h + w < t * d + d
  {
    QuotientFits(u, w, d, h);
    t := (u * h + w) / d;
  }

  /** The first estimate, from the leading half of the divisor, and what it leaves. */
  method FirstEstimate(u: limb, d1: nat) returns (q: limb, r0: limb)
    requires 0 < d1 < HALF
    ensures q * d1 + r0 == u && r0 < d1 && q == u / d1
  {
    q := u / d1;
    assert u - d1 * q == u % d1;
    WrapId(u % d1);
    r0 := Wrap(u - d1 * q);
  }

  /** `q -= 1; r0 += d1` */
  method CorrectEstimate(ghost u: limb, q: limb, r0: limb, d1: nat) returns (q': limb, r0': limb)
    requires q * d1 + r0 == u && 0 < q && r0 < HALF && d1 < HALF
    ensures q' == q - 1 && q' * d1 + r0' == u
  {
    MulDist(d1, q, 1);
    q' := q - 1;
    WrapId(r0 + d1);
    r0' := Wrap(r0 + d1);
  }

  /**
    One digit of Algorithm D: the quotient of the three half limbs `u * HALF + w` by the normalised divisor
    whose halves are d1 and d0, estimated from the leading half d1 alone and then corrected.
   */
  method QuotientDigit(u: limb, w: nat, ghost d: limb, d1: nat, d0: nat) returns (q: limb)
    requires u < d && w < HALF && BASE <= 2 * d
    requires d1 == HighHalf(d) && d0 == d % HALF
    ensures q < HALF && q * d <= u * HALF + w < q * d + d
  {
    LeadingHalf(d);
    ghost var t := TrueDigit(u, w, d, HALF);
    var r0: limb;
    q, r0 := FirstEstimate(u, d1);
    EstimateAtLeast(u, w, d, d1, HALF, t);
    EstimateAtMost(u, d, d1, d0, q, HALF);
    var exceeds := EstimateExceeds(q, d0, r0, w);
    while exceeds
      invariant q * d1 + r0 == u && t <= q <= HALF + 1
      invariant r0 < HALF || (!exceeds && q <= HALF)
      invariant r0 < HALF ==> (exceeds <==> q >= HALF || q * d0 > HALF * r0 + w)
      decreases q, exceeds
    {
      EstimateTooBig(u, w, d, d1, d0, q, r0, t, HALF);
      q, r0 := CorrectEstimate(u, q, r0, d1);
      if r0 >= HALF {
        exceeds := false;
      } else {
        exceeds := EstimateExceeds(q, d0, r0, w);
      }
    }
    EstimateRight(u, w, d, d1, d0, q, r0, HALF);
    LargestMultiple(u * HALF + w, d, t, q);
  }

  /** `(u * radix) + (w - q * d)` on wrapping limbs: what the digit q leaves of the dividend. */
  method DigitRemainder(u: limb, w: nat, q: limb, d: limb) returns (r: limb)
    requires q * d <= u * HALF + w < q * d + d
    ensures r == u * HALF + w - q * d
  {
    WrapId(u * HALF + w - q * d);
    r := Wrap(u * HALF + (w - q * d));
  }

  /** `x << s` and the bits it loses, `(x >> (biL - s)) & mask`, where the mask is zero for s = 0. */
  method ShiftLimb(x: limb, s: nat) returns (high: limb, low: limb)
    requires s < BIL
    ensures high < Pow2(s) && Pair(high, low) == x * Pow2(s)
    ensures low + Pow2(s) <= BASE
  {
    var f := Pow2(s);
    BaseIsPow2();
    Pow2Split(BIL, s);
    ShiftedOut(x, f, Pow2(BIL - s));
    DivModUnique(x * f, BASE, x / Pow2(BIL - s), x % Pow2(BIL - s) * f);
    low := Wrap(x * f);
    high := if s == 0 then 0 else x / Pow2(BIL - s);
  }

  /** The bits shifted out at the top, and what remains of the others. */
  lemma ShiftedOut(x: nat, f: nat, g: nat)
    requires 0 < f && 0 < g && x < f * g
    ensures x * f == f * g * (x / g) + x % g * f
    ensures 0 <= x % g * f <= f * g - f && 0 <= x / g < f
  {
    var hi, lo := x / g, x % g;
    MulDist(f, g * hi, lo);
    MulAssoc(f, g, hi);
    MulMono(lo + 1, g, f);
    MulDist(f, lo, 1);
    if hi >= f {
      MulMono(f, hi, g);
    }
  }

  /** Shifts the divisor left until its top bit is set, and the dividend with it. */
  method Normalise(u1: limb, u0: limb, d: limb) returns (s: nat, d': limb, u1': limb, u0': limb)
    requires d != 0 && u1 < d
    ensures s < BIL && d' == d * Pow2(s) && BASE <= 2 * d'
    ensures Pair(u1', u0') == Pair(u1, u0) * Pow2(s) && u1' < d'
  {
    s := CountLeadingZeros(d);
    ShiftedDivisor(d, s);
    var lost;
    lost, d' := ShiftLimb(d, s);
    NothingLost(lost, d', d * Pow2(s));
    var carried;
    carried, u0' := ShiftLimb(u0, s);
    ShiftedTop(u1, carried, d, Pow2(s));
    lost, u1' := ShiftLimb(u1, s);
    NothingLost(lost, u1', u1 * Pow2(s));
    u1' := u1' + carried;
    ShiftPair(u1, u0, Pow2(s), carried, u0', BASE);
  }

  lemma NothingLost(high: nat, low: nat, x: nat)
    requires Pair(high, low) == x < BASE
    ensures high == 0 && low == x
  {
    if high > 0 {
      MulMono(1, high, BASE);
    }
  }

  lemma ShiftedTop(u1: nat, carried: nat, d: nat, f: nat)
    requires u1 < d && carried < f && d * f < BASE
    ensures u1 * f <= u1 * f + carried < d * f < BASE
  {
    MulMono(u1 + 1, d, f);
    MulDist(f, u1, 1);
  }

  lemma ShiftedDivisor(d: limb, s: nat)
    requires s < BIL && Pow2(BIL - 1 - s) <= d < Pow2(BIL - s)
    ensures d * Pow2(s) < BASE <= 2 * (d * Pow2(s))
  {
    BaseIsPow2();
    Pow2Split(BIL, s);
    Pow2Split(BIL - 1, s);
    MulMono(Pow2(BIL - 1 - s), d, Pow2(s));
    MulMono(d + 1, Pow2(BIL - s), Pow2(s));
    MulDist(Pow2(s), d, 1);
  }

  lemma ShiftPair(u1: int, u0: int, f: int, carried: int, low: int, base: int)
    requires u0 * f == carried * base + low
    ensures (u1 * f + carried) * base + low == (u1 * base + u0) * f
  {
  }

  /** Two digits make the quotient of the normalised dividend. */
  lemma TwoDigits(u1: nat, u0: nat, m: nat, l: nat, d: nat, q1: nat, rax: int, q0: nat, rem: int, h: nat, base: nat)
    requires base == h * h && u0 == m * h + l
    requires rax == u1 * h + m - q1 * d && rem == rax * h + l - q0 * d && 0 <= rem < d
    ensures IsDivision(u1 * base + u0, d, q1 * h + q0, rem)
  {
    MulAssoc(u1, h, h);
    MulDist(h, u1 * h + m, q1 * d);
    MulDist(h, u1 * h, m);
    MulAssoc(q1, d, h);
    MulAssoc(q1, h, d);
    MulDist(d, q1 * h, q0);
  }

  /** Dividing by the shifted divisor gives the same quotient and the shifted remainder. */
  lemma Denormalise(x: nat, d: nat, f: nat, q: nat, rem: nat)
    requires 0 < f && IsDivision(x * f, d * f, q, rem)
    ensures IsDivision(x, d, q, rem / f)
  {
    MulAssoc(q, d, f);
    MulDist(f, x, q * d);
    var r := x - q * d;
    assert rem == r * f;
    if r < 0 {
      MulMono(r, -1, f);
    }
    DivModUnique(rem, f, r, 0);
    if r >= d {
      MulMono(d, r, f);
    }
  }

  /** The half-limb version: Knuth's Algorithm D for a quotient of two half limbs. */
  method IntDivIntHalf(u1: limb, u0: limb, d: limb) returns (q: limb, r: limb)
    ensures d == 0 || u1 >= d ==> q == BASE - 1 && r == BASE - 1
    ensures d != 0 && u1 < d ==> IsDivision(Pair(u1, u0), d, q, r)
  {
    if d == 0 || u1 >= d {
      return BASE - 1, BASE - 1;
    }
    var s, d', u1', u0' := Normalise(u1, u0, d);
    var d1, d0 := HighHalf(d'), d' % HALF;
    var msw, lsw := HighHalf(u0'), u0' % HALF;
    BaseIsPow2();
    var q1 := QuotientDigit(u1', msw, d', d1, d0);
    var rAX := DigitRemainder(u1', msw, q1, d');
    var q0 := QuotientDigit(rAX, lsw, d', d1, d0);
    var rem := DigitRemainder(rAX, lsw, q0, d');
    TwoDigits(u1', u0', msw, lsw, d', q1, rAX, q0, rem, HALF, BASE);
    Denormalise(Pair(u1, u0), d, Pow2(s), q1 * HALF + q0, rem);
    q, r := Recombine(u1, u0, d, q1, q0, rem, s);
  }

  /** `q1 * radix + q0` and the remainder shifted back. */
  method Recombine(ghost u1: limb, ghost u0: limb, ghost d: limb, q1: limb, q0: limb, rem: limb, s: nat) returns (q: limb, r: limb)
    requires q1 < HALF && q0 < HALF
    requires IsDivision(Pair(u1, u0), d, q1 * HALF + q0, rem / Pow2(s))
    ensures IsDivision(Pair(u1, u0), d, q, r)
  {
    BaseIsPow2();
    MulMono(q1, HALF - 1, HALF);
    MulNonNeg(q1, HALF);
    WrapId(q1 * HALF + q0);
    q := Wrap(q1 * HALF + q0);
    DivAtMost(rem, Pow2(s));
    r := rem / Pow2(s);
  }

  lemma DivAtMost(x: nat, f: nat)
    requires 0 < f
    ensures 0 <= x / f <= x
  {
    if x / f > x {
      MulMono(x + 1, x / f, f);
      MulMono(1, f, x + 1);
    }
  }

  /** Both divisions return the same quotient and remainder. */
  lemma DivisionsAgree(u1: limb, u0: limb, d: limb, q: limb, r: limb, q': limb, r': limb)
    requires d != 0 && u1 < d
    requires IsDivision(Pair(u1, u0), d, q, r) && IsDivision(Pair(u1, u0), d, q', r')
    ensures q == q' == Pair(u1, u0) / d && r == r' == Pair(u1, u0) % d
  {
    DivisionIsUnique(Pair(u1, u0), d, q, r);
    DivisionIsUnique(Pair(u1, u0), d, q', r');
  }
}