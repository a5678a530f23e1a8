/**
  Long division, `mbedtls_mpi_div_mpi`.  Each quotient digit is estimated from the leading limbs of the
  running remainder and of the divisor, lowered while three leading limbs show it to be too large, and at
  the end corrected once more if the subtraction came out negative.
 */
module DivisionDigit {
  import opened Products

  /** q is the quotient digit of x by yw. */
  ghost predicate IsDigit(x: int, yw: int, q: int) {
    q * yw <= x < q * yw + yw
  }

  /**
    What the leading limbs say: after scaling by c, x is u3 units of s and yw is v2 units of s, up to
    remainders below one unit.
   */
  ghost predicate Leading(x: int, yw: int, u3: int, v2: int, c: int, s: int, xr: int, yr: int) {
    1 <= c && 1 <= s && 0 <= xr < s && 0 <= yr < s && c * x == u3 * s + xr && c * yw == v2 * s + yr
  }

  /** A candidate the three-limb test rejects is too large. */
  lemma RejectedTooLarge(x: int, yw: int, u3: int, v2: int, c: int, s: int, xr: int, yr: int, q: int, z: int)
    requires Leading(x, yw, u3, v2, c, s, xr, yr) && IsDigit(x, yw, q) && 0 <= z
    requires z * v2 > u3
    ensures q < z
  {
    if z <= q {
      MulMono(u3 + 1, z * v2, s);
      MulDist(s, u3, 1);
      MulAssoc(z, v2, s);
      MulDist(z, v2 * s, yr);
      MulNonNeg(z, yr);
      MulAssoc(z, c, yw);
      MulAssoc(c, z, yw);
      assert c * x < c * (z * yw);
      TimesLess(c, x, z * yw);
      if 0 <= yw {
        MulMono(z, q, yw);
      }
    }
  }

  lemma TimesLess(c: int, a: int, b: int)
    requires 1 <= c && c * a < c * b
    ensures a < b
  {
    if a >= b {
      MulMono(b, a, c);
    }
  }

  /** A candidate the test accepts is at most one too large, because the divisor has a second leading limb to spare. */
  lemma AcceptedAlmostRight(x: int, yw: int, u3: int, v2: int, c: int, s: int, xr: int, yr: int, z: int, base: int)
    requires Leading(x, yw, u3, v2, c, s, xr, yr)
    requires 0 <= z < base <= v2 && z * v2 <= u3
    ensures x - z * yw >= 0 - yw
  {
    MulMono(z * v2, u3, s);
    MulAssoc(z, v2, s);
    MulDist(z, v2 * s, yr);
    MulMono(yr, s, z);
    MulMono(z, v2, s);
    MulAssoc(z, c, yw);
    MulAssoc(c, z, yw);
    MulDist(c, x, z * yw);
    assert c * (x - z * yw) >= 0 - c * yw;
    if x - z * yw < 0 - yw {
      MulDist(c, 0, yw);
      MulMono(x - z * yw + 1, 0 - yw, c);
      MulDist(c, x - z * yw, 1);
    }
  }

  /** The first candidate, from two limbs of the remainder and one of the divisor, is not too small. */
  lemma CandidateLargeEnough(x: int, yw: int, u3: int, v2: int, c: int, s: int, xr: int, yr: int, q: int,
                             u2: int, u0: int, v1: int, v0: int, base: int, z: int)
    requires Leading(x, yw, u3, v2, c, s, xr, yr) && IsDigit(x, yw, q) && 0 <= q
    requires u3 == u2 * base + u0 && 0 <= u0 < base && v2 == v1 * base + v0 && 0 <= v0
    requires 0 < v1 && u2 < (z + 1) * v1
    ensures q <= z
  {
    if q > z {
      // q * v1 >= (z + 1) * v1 >= u2 + 1, so q * v2 >= (u2 + 1) * base > u3
      MulMono(z + 1, q, v1);
      MulMono(u2 + 1, q * v1, base);
      MulDist(base, u2, 1);
      MulAssoc(q, v1, base);
      MulDist(q, v1 * base, v0);
      MulNonNeg(q, v0);
      assert q * v2 > u3;
      RejectedTooLarge(x, yw, u3, v2, c, s, xr, yr, q, q);
    }
  }

  lemma DigitBelowBase(x: int, yw: int, q: int, base: int)
    requires IsDigit(x, yw, q) && 0 <= x < base * yw && 0 < yw
    ensures 0 <= q < base
  {
    if q >= base {
      MulMono(base, q, yw);
    } else if q < 0 {
      MulMono(q + 1, 0, yw);
      MulDist(yw, q, 1);
    }
  }

  /** After the one possible add-back the remainder is in range. */
  lemma AddBackEnough(x: int, yw: int, q: int, z: int)
    requires IsDigit(x, yw, q) && 0 < yw && q <= z && x - z * yw >= 0 - yw
    ensures x - z * yw < yw
    ensures x - z * yw < 0 ==> 0 <= x - z * yw + yw < yw && z >= q + 1 && x - (z - 1) * yw == x - z * yw + yw
  {
    MulMono(q, z, yw);
    MulDist(yw, z, 1);
    if x - z * yw < 0 {
      if z <= q {
        assert false;
      }
    }
  }
}

module MpiDiv {
  import opened Words
  import opened Products
  import opened Limbs
  import opened LimbKernel
  import opened DivisionDigit
  import opened Status
  import opened MpiModule
  import opened MpiBits

  /** The number whose leading limb is at position i, seen as that limb and the rest. */
  lemma TopOne(p: seq<limb>, i: nat)
    requires i < |p| && forall k :: i < k < |p| ==> p[k] == 0
    ensures Val(p) == Val(p[..i]) + BPow(i) * p[i]
    ensures Val(p[..i]) < BPow(i)
  {
    hide Val, BPow;
    ValTrim(p, i + 1);
    ValSnoc(p, i);
    ValBound(p[..i]);
  }

  lemma TopTwo(p: seq<limb>, i: nat)
    requires 1 <= i < |p| && forall k :: i < k < |p| ==> p[k] == 0
    ensures Val(p) == Val(p[..i - 1]) + BPow(i - 1) * (p[i] * BASE + p[i - 1])
    ensures Val(p[..i - 1]) < BPow(i - 1)
  {
    hide Val, BPow;
    TopOne(p, i);
    ValSnoc(p, i - 1);
    ValBound(p[..i - 1]);
    BPowNext(i - 1);
    MulDist(BPow(i - 1), p[i] * BASE, p[i - 1]);
    MulAssoc(BPow(i - 1), BASE, p[i]);
  }

  lemma TopThree(p: seq<limb>, i: nat)
    requires 2 <= i < |p| && forall k :: i < k < |p| ==> p[k] == 0
    ensures Val(p) == Val(p[..i - 2]) + BPow(i - 2) * ((p[i] * BASE + p[i - 1]) * BASE + p[i - 2])
    ensures Val(p[..i - 2]) < BPow(i - 2)
  {
    hide Val, BPow;
    TopTwo(p, i);
    ValSnoc(p, i - 2);
    ValBound(p[..i - 2]);
    BPowNext(i - 2);
    var u2 := p[i] * BASE + p[i - 1];
    MulDist(BPow(i - 2), u2 * BASE, p[i - 2]);
    MulAssoc(BPow(i - 2), BASE, u2);
  }

  /** The limb below position k, or zero when there is none. */
  function Below(p: seq<limb>, k: nat, d: nat): limb
    requires k < |p|
  {
    if k < d then 0 else p[k - d]
  }

  ghost function LeadingThree(p: seq<limb>, i: nat): nat
    requires 1 <= i < |p|
  {
    (p[i] * BASE + p[i - 1]) * BASE + Below(p, i, 2)
  }

  ghost function LeadingTwo(p: seq<limb>, t: nat): nat
    requires t < |p|
  {
    p[t] * BASE + Below(p, t, 1)
  }

  /** The three leading limbs of the remainder and the two of the divisor say what `Leading` asks for. */
  lemma LeadingLimbs(x: seq<limb>, y: seq<limb>, i: nat, t: nat) returns (c: int, s: int, xr: int, yr: int)
    requires t < i < |x| && t < |y|
    requires forall k :: i < k < |x| ==> x[k] == 0
    requires forall k :: t < k < |y| ==> y[k] == 0
    ensures Leading(Val(x), Val(y) * BPow(i - t - 1), LeadingThree(x, i), LeadingTwo(y, t), c, s, xr, yr)
  {
    hide Val, BPow, LeadingThree, LeadingTwo, Leading;
    if i == 1 {
      LeadingTwoByOne(x, y);
      c, s, xr, yr := BASE, 1, 0, 0;
    } else if t == 0 {
      LeadingByOne(x, y, i);
      c, s, xr, yr := 1, BPow(i - 2), Val(x[..i - 2]), 0;
    } else {
      LeadingByMany(x, y, i, t);
      c, s, xr, yr := 1, BPow(i - 2), Val(x[..i - 2]), Val(y[..t - 1]) * BPow(i - t - 1);
    }
  }

  lemma LeadingTwoByOne(x: seq<limb>, y: seq<limb>)
    requires 1 < |x| && 0 < |y|
    requires forall k :: 1 < k < |x| ==> x[k] == 0
    requires forall k :: 0 < k < |y| ==> y[k] == 0
    ensures Leading(Val(x), Val(y) * BPow(0), LeadingThree(x, 1), LeadingTwo(y, 0), BASE, 1, 0, 0)
  {
    hide Val, BPow;
    TopTwo(x, 1);
    TopOne(y, 0);
    ValNone(x);
    ValNone(y);
    BPowZero();
  }

  lemma LeadingByOne(x: seq<limb>, y: seq<limb>, i: nat)
    requires 2 <= i < |x| && 0 < |y|
    requires forall k :: i < k < |x| ==> x[k] == 0
    requires forall k :: 0 < k < |y| ==> y[k] == 0
    ensures Leading(Val(x), Val(y) * BPow(i - 1), LeadingThree(x, i), LeadingTwo(y, 0), 1, BPow(i - 2), Val(x[..i - 2]), 0)
  {
    hide Val, BPow;
    TopThree(x, i);
    TopOne(y, 0);
    ValNone(y);
    BPowZero();
    BPowNext(i - 2);
    MulAssoc(y[0], BASE, BPow(i - 2));
  }

  lemma LeadingByMany(x: seq<limb>, y: seq<limb>, i: nat, t: nat)
    requires 1 <= t < i < |x| && t < |y|
    requires forall k :: i < k < |x| ==> x[k] == 0
    requires forall k :: t < k < |y| ==> y[k] == 0
    ensures Leading(Val(x), Val(y) * BPow(i - t - 1), LeadingThree(x, i), LeadingTwo(y, t),
                    1, BPow(i - 2), Val(x[..i - 2]), Val(y[..t - 1]) * BPow(i - t - 1))
  {
    hide Val, BPow;
    TopThree(x, i);
    TopTwo(y, t);
    BPowAdd(t - 1, i - t - 1);
    ScaleDivisor(Val(y), BPow(t - 1), LeadingTwo(y, t), Val(y[..t - 1]), BPow(i - t - 1));
  }

  lemma ScaleDivisor(y: int, p: int, v2: int, low: int, w: int)
    requires y == low + p * v2 && 0 <= low < p && 1 <= w
    ensures y * w == v2 * (p * w) + low * w
    ensures 0 <= low * w < p * w
  {
    MulDist(w, low, p * v2);
    MulAssoc(v2, p, w);
    MulMono(low + 1, p, w);
    MulDist(w, low, 1);
    MulNonNeg(low, w);
  }

  /** The three limbs of T2 and the two limbs of T1, as numbers. */
  lemma SmallRows(a: limb, b: limb, c: limb, z: seq<limb>)
    requires z == Zeros(|z|)
    ensures Val([a, b, c]) == (c * BASE + b) * BASE + a
    ensures Val([a, b] + z) == b * BASE + a
  {
    hide Val, BPow;
    ValPair(b, c);
    ValFirst([a, b, c]);
    assert [a, b, c][1..] == [b, c];
    ValGrow([a, b], |z|);
    ValPair(a, b);
  }

  lemma ValPair(a: limb, b: limb)
    ensures Val([a, b]) == b * BASE + a
  {
    hide Val, BPow;
    ValFirst([a, b]);
    assert [a, b][1..] == [b];
    ValOne(b);
  }

  /** `mbedtls_int_div_int`, whichever version was compiled. */
  method IntDivInt(u1: limb, u0: limb, d: limb) returns (q: limb)
    requires d != 0 && u1 < d
    ensures u1 * BASE + u0 < (q + 1) * d && q * d <= u1 * BASE + u0
  {
    var r;
    if HAVE_UDBL {
      q, r := IntDivIntWide(u1, u0, d);
    } else {
      q, r := IntDivIntHalf(u1, u0, d);
    }
    MulDist(d, q, 1);
  }

  /** The first candidate for a quotient digit. */
  method FirstCandidate(X: Mpi, Y: Mpi, i: nat, t: nat, ghost q: nat) returns (z: limb)
    requires t < i < |X.p| && t < |Y.p| && Y.p[t] != 0
    requires forall k :: i < k < |X.p| ==> X.p[k] == 0
    requires forall k :: t < k < |Y.p| ==> Y.p[k] == 0
    requires IsDigit(Val(X.p), Val(Y.p) * BPow(i - t - 1), q) && q < BASE
    ensures q <= z
  {
    hide Val, BPow;
    if X.p[i] >= Y.p[t] {
      z := BASE - 1;
    } else {
      z := IntDivInt(X.p[i], X.p[i - 1], Y.p[t]);
      ghost var c, s, xr, yr := LeadingLimbs(X.p, Y.p, i, t);
      CandidateLargeEnough(Val(X.p), Val(Y.p) * BPow(i - t - 1),
                           LeadingThree(X.p, i), LeadingTwo(Y.p, t),
                           c, s, xr, yr, q, X.p[i] * BASE + X.p[i - 1], Below(X.p, i, 2), Y.p[t], Below(Y.p, t, 1), BASE, z);
    }
  }

  lemma UpAndDown(z: int)
    requires 0 <= z < BASE
    ensures Wrap(Wrap(z + 1) - 1) == z
  {
    if z == BASE - 1 {
      DivModUnique(z + 1, BASE, 1, 0);
      DivModUnique(-1, BASE, -1, BASE - 1);
    }
  }

  /** T1 becomes z times the two leading limbs of the divisor. */
  method LeadingProduct(T1: Mpi, Y: Mpi, t: nat, z: limb) returns (r: Status)
    requires T1 != Y && |T1.p| >= 2 && t < |Y.p|
    modifies T1
    ensures r.Ok? || r.AllocFailed?
    ensures r.Ok? ==> |T1.p| >= 2
    ensures r.Ok? ==> T1.Int() == LeadingTwo(Y.p, t) * z
  {
    hide Val, BPow;
    :- T1.Lset(0);
    T1.p := T1.p[0 := Below(Y.p, t, 1)];
    T1.p := T1.p[1 := Y.p[t]];
    assert T1.p == [Below(Y.p, t, 1), Y.p[t]] + Zeros(|T1.p| - 2);
    SmallRows(Below(Y.p, t, 1), Y.p[t], 0, Zeros(|T1.p| - 2));
    :- T1.MulInt(T1, z);
    return Ok;
  }

  /** Lowers the candidate while the leading limbs of the divisor times it exceed those of the remainder. */
  method LowerCandidate(Y: Mpi, T1: Mpi, T2: Mpi, t: nat, z0: limb, ghost q: nat, ghost x: int, ghost yw: int,
                        ghost c: int, ghost s: int, ghost xr: int, ghost yr: int) returns (r: Status, z: limb)
    requires T1 != Y && T1 != T2 && |T1.p| >= 2 && t < |Y.p|
    requires Leading(x, yw, T2.Int(), LeadingTwo(Y.p, t), c, s, xr, yr) && IsDigit(x, yw, q) && q <= z0
    modifies T1
    ensures r.Ok? || r.AllocFailed?
    ensures r.Ok? ==> |T1.p| >= 2 && q <= z && z * LeadingTwo(Y.p, t) <= T2.Int()
  {
    hide Val, BPow, LeadingTwo;
    ghost var candidate: int := z0;
    z := Wrap(z0 + 1);
    while true
      invariant q <= candidate < BASE && z == Wrap(candidate + 1) && |T1.p| >= 2
      decreases candidate
    {
      UpAndDown(candidate);
      z := Wrap(z as int - 1);
      r := LeadingProduct(T1, Y, t, z);
      if !r.Ok? {
        return;
      }
      var above := T1.CmpMpi(T2);
      if above <= 0 {
        break;
      }
      RejectedTooLarge(x, yw, T2.Int(), LeadingTwo(Y.p, t), c, s, xr, yr, q, z);
      candidate := candidate - 1;
    }
  }

  /** The quotient digit at position i - t - 1: right, or one too large. */
  method EstimateDigit(X: Mpi, Y: Mpi, T1: Mpi, i: nat, t: nat, ghost q: nat) returns (r: Status, z: limb)
    requires X != T1 && Y != T1 && |T1.p| >= 2
    requires t < i < |X.p| && t < |Y.p| && Y.p[t] != 0
    requires forall k :: i < k < |X.p| ==> X.p[k] == 0
    requires forall k :: t < k < |Y.p| ==> Y.p[k] == 0
    requires IsDigit(Val(X.p), Val(Y.p) * BPow(i - t - 1), q) && q < BASE
    modifies T1
    ensures r.Ok? || r.AllocFailed?
    ensures r.Ok? ==> |T1.p| >= 2
    ensures r.Ok? ==> q <= z && Val(X.p) - z * (Val(Y.p) * BPow(i - t - 1)) >= 0 - Val(Y.p) * BPow(i - t - 1)
  {
    hide Val, BPow, LeadingTwo, LeadingThree, Leading, IsDigit;
    z := FirstCandidate(X, Y, i, t, q);
    var T2 := new Mpi();
    T2.p := [Below(X.p, i, 2), X.p[i - 1], X.p[i]];
    ThreeLimbs(X.p, i);
    ghost var c, s, xr, yr := LeadingLimbs(X.p, Y.p, i, t);
    ghost var x, yw := Val(X.p), Val(Y.p) * BPow(i - t - 1);
    r, z := LowerCandidate(Y, T1, T2, t, z, q, x, yw, c, s, xr, yr);
    if !r.Ok? {
      return;
    }
    TwoLimbsAtLeastBase(Y.p, t);
    AcceptedAlmostRight(x, yw, LeadingThree(X.p, i), LeadingTwo(Y.p, t), c, s, xr, yr, z, BASE);
  }

  lemma ThreeLimbs(p: seq<limb>, i: nat)
    requires 1 <= i < |p|
    ensures Val([Below(p, i, 2), p[i - 1], p[i]]) == LeadingThree(p, i)
  {
    hide Val;
    SmallRows(Below(p, i, 2), p[i - 1], p[i], []);
  }

  lemma TwoLimbsAtLeastBase(p: seq<limb>, t: nat)
    requires t < |p| && p[t] != 0
    ensures LeadingTwo(p, t) >= BASE
  {
    MulMono(1, p[t], BASE);
  }

  lemma QuotientDigitExists(x: nat, yw: nat) returns (q: nat)
    requires 0 < yw && x < yw * BASE
    ensures IsDigit(x, yw, q) && q < BASE
  {
    q := x / yw;
    DigitBelowBase(x, yw, q, BASE);
  }

  /** y * b^(i-t) is b times y * b^(i-t-1), and at most b^(i+1). */
  lemma OnePositionDown(y: nat, i: nat, t: nat)
    requires t < i && y < BPow(t + 1)
    ensures y * BPow(i - t) == y * BPow(i - t - 1) * BASE
    ensures y * BPow(i - t) <= BPow(i + 1)
  {
    hide BPow;
    BPowNext(i - t - 1);
    MulAssoc(y, BPow(i - t - 1), BASE);
    BPowAdd(t + 1, i - t);
    MulMono(y, BPow(t + 1), BPow(i - t));
  }

  /** T1 = Y * z, moved to the position of the digit. */
  method ShiftedMultiple(T1: Mpi, Y: Mpi, z: limb, m: nat) returns (r: Status)
    requires T1 != Y && Y.s == 1
    modifies T1
    ensures r.Ok? || r.AllocFailed?
    ensures r.Ok? ==> T1.Int() == z * (Val(Y.p) * BPow(m)) && |T1.p| >= old(|T1.p|)
  {
    hide Val, BPow, Pow2, BitCount, BitsToLimbs;
    :- T1.MulInt(Y, z);
    BPowIsPow2(m);
    :- ShiftL(T1, BIL * m);
    MulAssoc(z, Val(Y.p), BPow(m));
    return Ok;
  }

  /** The add-back step: X += Y moved to the position of the digit. */
  method AddBack(X: Mpi, T1: Mpi, Y: Mpi, m: nat) returns (r: Status)
    requires X != T1 && X != Y && T1 != Y && Y.s == 1
    modifies X, T1
    ensures r.Ok? || r.AllocFailed?
    ensures r.Ok? ==> X.Int() == old(X.Int()) + Val(Y.p) * BPow(m)
    ensures r.Ok? ==> |X.p| >= old(|X.p|) && |T1.p| >= old(|T1.p|)
  {
    hide Val, BPow, Pow2, BitCount, BitsToLimbs;
    :- T1.Copy(Y);
    BPowIsPow2(m);
    :- ShiftL(T1, BIL * m);
    :- X.AddMpi(X, T1);
    return Ok;
  }

  /** The body of the main loop: one quotient digit z, and the remainder it leaves. */
  method DivideDigit(X: Mpi, Y: Mpi, T1: Mpi, i: nat, t: nat) returns (r: Status, z: limb)
    requires X != T1 && Y != T1 && X != Y && |T1.p| >= 2
    requires t < i < |X.p| && t < |Y.p| && Y.p[t] != 0 && Y.s == 1
    requires Val(Y.p) < BPow(t + 1) && Val(Y.p) > 0
    requires X.Int() == Val(X.p) < Val(Y.p) * BPow(i - t)
    modifies X, T1
    ensures r.Ok? || r.AllocFailed?
    ensures r.Ok? ==> |T1.p| >= 2 && |X.p| >= old(|X.p|)
    ensures r.Ok? ==> X.Int() == Val(X.p) < Val(Y.p) * BPow(i - t - 1)
    ensures r.Ok? ==> old(Val(X.p)) == Val(X.p) + z * (Val(Y.p) * BPow(i - t - 1))
  {
    hide Val, BPow;
    ghost var x, yw := Val(X.p), Val(Y.p) * BPow(i - t - 1);
    OnePositionDown(Val(Y.p), i, t);
    ZerosAbove(X.p, i + 1);
    ZerosAbove(Y.p, t + 1);
    MulMono(1, BPow(i - t - 1), Val(Y.p));
    ghost var q := QuotientDigitExists(x, yw);
    r, z := EstimateDigit(X, Y, T1, i, t, q);
    if !r.Ok? {
      return;
    }
    r := ShiftedMultiple(T1, Y, z, i - t - 1);
    if !r.Ok? {
      return;
    }
    r := X.SubMpi(X, T1);
    if !r.Ok? {
      return;
    }
    AddBackEnough(x, yw, q, z);
    var c := X.CmpInt(0);
    if c < 0 {
      r := AddBack(X, T1, Y, i - t - 1);
      if !r.Ok? {
        return;
      }
      z := z - 1;
    }
  }

  lemma UsedBits(p: seq<limb>, u: nat)
    requires 0 < u && BPow(u - 1) <= Val(p) < BPow(u)
    ensures (u - 1) * BIL < BitCount(Val(p)) <= u * BIL
  {
    hide Val, BPow, Pow2, BitCount;
    var n := BitCount(Val(p));
    BitCountIs(Val(p));
    BPowIsPow2(u);
    BPowIsPow2(u - 1);
    if n <= (u - 1) * BIL {
      Pow2Monotonic(n, (u - 1) * BIL);
    }
    if n > u * BIL {
      Pow2Monotonic(u * BIL, n - 1);
    }
  }

  lemma LimbsAtMost(n: nat, m: nat)
    requires n <= m * BIL
    ensures BitsToLimbs(n) <= m
  {
    if BitsToLimbs(n) > m {
      MulMono(m, BitsToLimbs(n) - 1, BIL);
      MulDist(BIL, BitsToLimbs(n), 1);
    }
  }

  lemma BitCountShift(v: nat, k: nat)
    requires v > 0
    ensures BitCount(v * Pow2(k)) == BitCount(v) + k
  {
    hide BitCount, Pow2;
    var n := BitCount(v);
    BitCountIs(v);
    if n == 0 {
      Pow2Zero();
    }
    Pow2Add(n, k);
    Pow2Add(n - 1, k);
    MulMono(v + 1, Pow2(n), Pow2(k));
    MulDist(Pow2(k), v, 1);
    MulMono(Pow2(n - 1), v, Pow2(k));
    BitCountOf(v * Pow2(k), n + k);
  }

  /** How far the divisor is shifted: its bit length becomes one less than a multiple of the limb width. */
  function NormaliseShift(bits: nat): (k: nat)
    ensures k < BIL && bits + k == (bits / BIL + 1) * BIL - 1
  {
    var k := bits % BIL;
    if k < BIL - 1 then BIL - 1 - k else 0
  }

  /** The shifted divisor has as many limbs as it needs, and a quarter to a half of its leading limb is used. */
  lemma NormalisedDivisor(p: seq<limb>, y: nat, m: nat)
    requires |p| == m > 0 && Val(p) == y && BitCount(y) == m * BIL - 1
    ensures Normalised(p)
  {
    hide Val, BPow, BitCount;
    hide Pow2;
    BitCountIs(y);
    var w := BPow(m - 1);
    TopOne(p, m - 1);
    BPowIsPow2(m - 1);
    BaseIsPow2();
    Pow2Add((m - 1) * BIL, BIL - 2);
    Pow2Add((m - 1) * BIL, BIL - 1);
    Pow2Next(BIL - 2);
    Pow2Next(BIL - 1);
    var top := p[m - 1];
    if top >= Pow2(BIL - 1) {
      MulMono(Pow2(BIL - 1), top, w);
    }
    if top < Pow2(BIL - 2) {
      MulMono(top + 1, Pow2(BIL - 2), w);
      MulDist(w, top, 1);
    }
  }

  /** The leading limb is between a quarter and a half of the radix. */
  ghost predicate Normalised(p: seq<limb>) {
    |p| > 0 && BASE <= 4 * (p[|p| - 1] as int) && 2 * (p[|p| - 1] as int) < BASE
  }

  /** X = |A|, in exactly as many limbs as it needs. */
  method CopyAbs(X: Mpi, A: Mpi) returns (r: Status, ghost u: nat)
    requires X != A && X.p == [] && Val(A.p) > 0
    modifies X
    ensures r.Ok? || r.AllocFailed?
    ensures r.Ok? ==> X.s == 1 && Val(X.p) == Val(A.p) && |X.p| == u
    ensures 0 < u <= |A.p| && BPow(u - 1) <= Val(A.p) < BPow(u)
  {
    hide Val, BPow;
    u := UsedLimbsGhost(A.p);
    r := X.Copy(A);
    if r.Ok? {
      X.s := 1;
    }
  }

  /** Copies of |A| and |B|, both shifted so that the divisor is normalised. */
  method Setup(X: Mpi, Y: Mpi, A: Mpi, B: Mpi) returns (r: Status, k: nat)
    requires X != Y && X != A && X != B && Y != A && Y != B
    requires X.p == [] && Y.p == [] && Val(A.p) > 0 && Val(B.p) > 0
    modifies X, Y
    ensures r.Ok? || r.AllocFailed?
    ensures r.Ok? ==> X.s == 1 && Val(X.p) == Val(A.p) * Pow2(k)
    ensures r.Ok? ==> Y.s == 1 && Val(Y.p) == Val(B.p) * Pow2(k)
    ensures r.Ok? ==> 0 < |X.p| <= |A.p| + 1 && Normalised(Y.p)
  {
    hide Val, BPow, Pow2, BitCount, BitsToLimbs, Normalised, NormaliseShift;
    k := 0;
    ghost var ua, ub;
    r, ua := CopyAbs(X, A);
    if !r.Ok? {
      return;
    }
    r, ub := CopyAbs(Y, B);
    if !r.Ok? {
      return;
    }
    var bits := BitLen(Y);
    k := NormaliseShift(bits);
    ShiftKeepsShort(A.p, ua, k);
    UsedBits(B.p, ub);
    Pow2Zero();
    if k > 0 {
      r := ShiftL(X, k);
      if !r.Ok? {
        return;
      }
      r := ShiftL(Y, k);
      if !r.Ok? {
        return;
      }
    }
    NormalisedLength(bits, k, ub, |Y.p|);
    BitCountShift(Val(B.p), k);
    NormalisedDivisor(Y.p, Val(Y.p), |Y.p|);
  }

  lemma ShiftKeepsShort(p: seq<limb>, u: nat, k: nat)
    requires 0 < u && BPow(u - 1) <= Val(p) < BPow(u) && k < BIL
    ensures BitsToLimbs(BitCount(Val(p)) + k) <= u + 1
  {
    UsedBits(p, u);
    LimbsAtMost(BitCount(Val(p)) + k, u + 1);
  }

  lemma UsedLimbsGhost(p: seq<limb>) returns (u: nat)
    requires Val(p) > 0
    ensures u == Used(p) && 0 < u <= |p| && BPow(u - 1) <= Val(p) < BPow(u)
  {
    u := Used(p);
    UsedProperties(p);
    UsedIs(p, u);
  }

  lemma {:induction false} UsedProperties(p: seq<limb>)
    ensures Used(p) > 0 ==> p[Used(p) - 1] != 0
    ensures forall k :: Used(p) <= k < |p| ==> p[k] == 0
  {
    if |p| > 0 && p[|p| - 1] == 0 {
      var q := p[..|p| - 1];
      UsedProperties(q);
      forall k | Used(p) <= k < |p| ensures p[k] == 0 {
        if k < |p| - 1 {
          assert q[k] == 0;
        }
      }
    }
  }

  lemma NormalisedLength(bits: nat, k: nat, ub: nat, len: nat)
    requires k == NormaliseShift(bits) && 0 < ub && (ub - 1) * BIL < bits <= ub * BIL
    requires len == if k > 0 then Max(ub, BitsToLimbs(bits + k)) else ub
    ensures bits + k == len * BIL - 1 && len > 0
  {
    var m := bits / BIL + 1;
    if bits == ub * BIL {
      DivModUnique(bits, BIL, ub, 0);
      assert m == ub + 1;
    } else {
      DivModUnique(bits, BIL, ub - 1, bits - (ub - 1) * BIL);
      assert m == ub;
    }
    LimbsAtMost(bits + k, m);
    if BitsToLimbs(bits + k) < m {
      MulMono(BitsToLimbs(bits + k), m - 1, BIL);
      MulDist(BIL, m, 1);
    }
  }

  /** Division that rounds toward zero: the remainder is smaller than the divisor and has the dividend's sign. */
  ghost predicate IsTruncatedDivision(a: int, b: int, q: int, r: int) {
    a == q * b + r && Abs(r) < Abs(b) && (r == 0 || (r < 0 <==> a < 0))
  }

  /** Quotient and rest of C's division: the multiple of b does not go beyond a. */
  lemma TruncatedIff(a: int, b: int, q: int, r: int)
    requires b != 0
    ensures IsTruncatedDivision(a, b, q, r) <==>
      a == q * b + r && Abs(r) < Abs(b) && Abs(q * b) <= Abs(a)
  {
    if a == q * b + r {
      var z := q * b;
      MultipleSize(q, b);
    }
  }

  lemma MultipleSize(q: int, b: int)
    ensures q * b == 0 || Abs(q * b) >= Abs(b)
  {
    if q > 0 {
      MulMono(1, q, Abs(b));
    } else if q < 0 {
      MulMono(q, -1, Abs(b));
    }
    if b < 0 {
      MulAssoc(q, -1, Abs(b));
      MulAssoc(-1, q, Abs(b));
    }
  }

  lemma CountFits(c: int, y: int, x: int)
    requires 0 < y && c * y <= x < BASE * y
    ensures c < BASE
  {
    if c >= BASE {
      MulMono(BASE, c, y);
    }
  }

  /** The leading quotient digit, by repeated subtraction of the divisor moved to the top. */
  method TopDigit(X: Mpi, Y: Mpi, Z: Mpi, m: nat) returns (r: Status)
    requires X != Y && X != Z && Y != Z && m < |Z.p| && Z.p[m] == 0
    requires X.Int() == Val(X.p) && Y.s == 1 && 0 < Val(Y.p) && Val(X.p) < BASE * Val(Y.p)
    modifies X, Z
    ensures r.Ok? || r.AllocFailed?
    ensures r.Ok? ==> X.Int() == Val(X.p) < Val(Y.p) && |X.p| >= old(|X.p|)
    ensures r.Ok? ==> |Z.p| == old(|Z.p|) && Z.s == old(Z.s) && Z.p == old(Z.p)[m := Z.p[m]]
    ensures r.Ok? ==> old(Val(X.p)) == Val(X.p) + Z.p[m] * Val(Y.p)
  {
    hide Val, BPow;
    ghost var x0, y := Val(X.p), Val(Y.p);
    var c := X.CmpMpi(Y);
    while c >= 0
      invariant X.Int() == Val(X.p) && c == Cmp(Val(X.p), y) && |X.p| >= old(|X.p|)
      invariant |Z.p| == old(|Z.p|) && Z.s == old(Z.s) && Z.p == old(Z.p)[m := Z.p[m]]
      invariant x0 == Val(X.p) + Z.p[m] * y
      decreases Val(X.p)
    {
      MulDist(y, Z.p[m], 1);
      CountFits(Z.p[m] as int + 1, y, x0);
      Z.p := Z.p[m := Z.p[m] + 1];
      :- X.SubMpi(X, Y);
      c := X.CmpMpi(Y);
    }
    return Ok;
  }

  lemma WriteDigit(z: seq<limb>, m: nat, d: limb, y: nat)
    requires m < |z| && z[m] == 0
    ensures Val(z[m := d]) * y == Val(z) * y + d * (y * BPow(m))
  {
    hide Val, BPow;
    ValUpdate(z, m, d);
    MulDist(y, Val(z), d * BPow(m));
    MulAssoc(d, BPow(m), y);
  }

  /** All remaining quotient digits, most significant first. */
  method LowerDigits(X: Mpi, Y: Mpi, Z: Mpi, T1: Mpi, n: nat, t: nat) returns (r: Status)
    requires X != Y && X != Z && X != T1 && Y != Z && Y != T1 && Z != T1 && |T1.p| >= 2
    requires t <= n < |X.p| && t < |Y.p| && Y.p[t] != 0 && Y.s == 1 && 0 < Val(Y.p) < BPow(t + 1)
    requires X.Int() == Val(X.p) < Val(Y.p) * BPow(n - t)
    requires n - t < |Z.p| && forall k :: 0 <= k < n - t ==> Z.p[k] == 0
    modifies X, Z, T1
    ensures r.Ok? || r.AllocFailed?
    ensures r.Ok? ==> X.Int() == Val(X.p) < Val(Y.p)
    ensures r.Ok? ==> old(Val(X.p) + Val(Z.p) * Val(Y.p)) == Val(X.p) + Val(Z.p) * Val(Y.p)
    ensures r.Ok? ==> Z.s == old(Z.s) && |Z.p| == old(|Z.p|) && |X.p| > 0
  {
    hide Val, BPow;
    ghost var y, total := Val(Y.p), Val(X.p) + Val(Z.p) * Val(Y.p);
    var i := n;
    while i > t
      invariant t <= i <= n < |X.p| && |T1.p| >= 2
      invariant X.Int() == Val(X.p) < y * BPow(i - t)
      invariant Z.s == old(Z.s) && |Z.p| == old(|Z.p|)
      invariant forall k :: 0 <= k < i - t ==> Z.p[k] == 0
      invariant total == Val(X.p) + Val(Z.p) * y
    {
      var z;
      r, z := DivideDigit(X, Y, T1, i, t);
      if !r.Ok? {
        return;
      }
      WriteDigit(Z.p, i - t - 1, z, y);
      Z.p := Z.p[i - t - 1 := z];
      i := i - 1;
    }
    BPowZero();
    r := Ok;
  }

  lemma LengthsCompare(x: seq<limb>, y: seq<limb>)
    requires |y| > 0 && y[|y| - 1] != 0 && Val(y) <= Val(x)
    ensures |y| <= |x|
    ensures 0 < BPow(|y| - 1) <= Val(y) < BPow(|y|)
  {
    hide Val, BPow;
    ValAtLeast(y, |y| - 1);
    MulMono(1, y[|y| - 1], BPow(|y| - 1));
    ValBound(x);
    ValBound(y);
    if |x| < |y| {
      BPowMonotonic(|x|, |y| - 1);
    }
  }

  lemma TopDividend(x: seq<limb>, y: nat, n: nat, t: nat)
    requires |x| == n + 1 && t <= n && BPow(t) <= y
    ensures Val(x) < BASE * (y * BPow(n - t))
  {
    hide Val, BPow;
    ValBound(x);
    BPowNext(n);
    BPowAdd(t, n - t);
    MulMono(BPow(t), y, BPow(n - t));
    MulMono(BPow(n), y * BPow(n - t), BASE);
  }

  /** Shifting the divisor back restores its limbs. */
  lemma ShiftedBack(p: seq<limb>, low: seq<limb>, f: nat)
    requires 0 < f && |low| <= |p| && Val(p) == Val(low) * f / f
    ensures Val(p) == Val(low) && p[..|low|] == low
  {
    hide Val, BPow;
    DivModUnique(Val(low) * f, f, Val(low), 0);
    ValBound(low);
    ZerosAbove(p, |low|);
    ValTrim(p, |low|);
    ValInjective(p[..|low|], low);
  }

  /** Moves the divisor up to the dividend, takes off the leading digit, and moves it back. */
  method DivideTop(X: Mpi, Y: Mpi, Z: Mpi, m: nat) returns (r: Status)
    requires X != Y && X != Z && Y != Z && m < |Z.p| && Val(Z.p) == 0
    requires X.Int() == Val(X.p) && Y.s == 1 && 0 < Val(Y.p) && Val(X.p) < BASE * (Val(Y.p) * BPow(m))
    modifies X, Y, Z
    ensures r.Ok? || r.AllocFailed?
    ensures r.Ok? ==> X.Int() == Val(X.p) < old(Val(Y.p)) * BPow(m) && |X.p| >= old(|X.p|)
    ensures r.Ok? ==> Y.s == 1 && Val(Y.p) == old(Val(Y.p)) && |Y.p| >= old(|Y.p|) && Y.p[..old(|Y.p|)] == old(Y.p)
    ensures r.Ok? ==> Z.s == old(Z.s) && |Z.p| == old(|Z.p|) && forall k :: 0 <= k < m ==> Z.p[k] == 0
    ensures r.Ok? ==> old(Val(X.p)) == Val(X.p) + Val(Z.p) * old(Val(Y.p))
  {
    hide Val, BPow, Pow2, BitCount, BitsToLimbs;
    ghost var low, z0 := Y.p, Z.p;
    BPowIsPow2(m);
    MulMono(1, BPow(m), Val(low));
    ValIsZero(Z.p);
    :- ShiftL(Y, BIL * m);
    r := TopDigit(X, Y, Z, m);
    if !r.Ok? {
      return;
    }
    WriteDigit(z0, m, Z.p[m], Val(low));
    r := ShiftR(Y, BIL * m);
    if !r.Ok? {
      return;
    }
    ShiftedBack(Y.p, low, BPow(m));
  }

  /** The quotient of the shifted magnitudes in Z, the remainder in X. */
  method DivideShifted(X: Mpi, Y: Mpi, Z: Mpi, T1: Mpi) returns (r: Status)
    requires X != Y && X != Z && X != T1 && Y != Z && Y != T1 && Z != T1 && |T1.p| >= 2
    requires Normalised(Y.p) && X.s == 1 && Y.s == 1 && Val(Y.p) <= Val(X.p)
    requires |X.p| <= |Z.p| && Val(Z.p) == 0
    modifies X, Y, Z, T1
    ensures r.Ok? || r.AllocFailed?
    ensures r.Ok? ==> old(Val(X.p)) == Val(X.p) + Val(Z.p) * old(Val(Y.p)) && Val(X.p) < old(Val(Y.p))
    ensures r.Ok? ==> Z.s == old(Z.s) && |Z.p| == old(|Z.p|) && |X.p| > 0
  {
    hide Val, BPow, Pow2, BitCount, BitsToLimbs;
    LengthsCompare(X.p, Y.p);
    var n, t := |X.p| - 1, |Y.p| - 1;
    ghost var low := Y.p;
    TopDividend(X.p, Val(Y.p), n, t);
    :- DivideTop(X, Y, Z, n - t);
    assert Y.p[t] == low[t];
    r := LowerDigits(X, Y, Z, T1, n, t);
  }

  /** Undoing the shift of dividend and divisor. */
  lemma Unshift(a: nat, b: nat, f: nat, q: nat, x: nat)
    requires 0 < f && a * f == x + q * (b * f) && x < b * f
    ensures a == q * b + x / f && x / f < b
  {
    MulAssoc(q, b, f);
    MulDist(f, a, q * b);
    var rem := a - q * b;
    assert x == rem * f;
    if rem < 0 {
      MulMono(rem, -1, f);
    }
    if rem >= b {
      MulMono(b, rem, f);
    }
    DivModUnique(x, f, rem, 0);
  }

  /** The signs: the quotient's is the product of the operands', the remainder's is the dividend's. */
  lemma SignedDivision(sa: sign, a: nat, sb: sign, b: nat, q: nat, x: nat)
    requires a == q * b + x && x < b
    ensures IsTruncatedDivision(Signed(sa, a), Signed(sb, b), Signed(sa * sb, q), Signed(sa, x))
  {
    MulNonNeg(q, b);
  }

  /** The division of the magnitudes, |B| <= |A|, with its temporaries. */
  method DivideMagnitudes(A: Mpi, B: Mpi) returns (r: Status, X: Mpi, Z: Mpi)
    requires 0 < Val(B.p) <= Val(A.p)
    ensures fresh(X) && fresh(Z) && X != Z
    ensures r.Ok? || r.AllocFailed?
    ensures r.Ok? ==> Val(A.p) == Val(Z.p) * Val(B.p) + Val(X.p) && Val(X.p) < Val(B.p)
    ensures r.Ok? ==> |Z.p| >= 1 && Z.s == 1 && |X.p| >= 1
  {
    hide Val, BPow, Pow2, Normalised;
    X := new Mpi();
    Z := new Mpi();
    var Y := new Mpi();
    var T1 := new Mpi();
    var k;
    r := Z.Grow(|A.p| + 2);
    if !r.Ok? {
      return;
    }
    r := Z.Lset(0);
    if !r.Ok? {
      return;
    }
    r := T1.Grow(|A.p| + 2);
    if !r.Ok? {
      return;
    }
    r, k := Setup(X, Y, A, B);
    if !r.Ok? {
      return;
    }
    MulMono(Val(B.p), Val(A.p), Pow2(k));
    r := DivideShifted(X, Y, Z, T1);
    if !r.Ok? {
      return;
    }
    Unshift(Val(A.p), Val(B.p), Pow2(k), Val(Z.p), Val(X.p));
    r := ShiftR(X, k);
  }

  /**
    `mbedtls_mpi_div_mpi`: Q and R may be absent.  R may be the dividend or the divisor; Q may be the
    dividend only when no remainder is asked for and the dividend is not negative.
   */
  method DivMpi(Q: Mpi?, R: Mpi?, A: Mpi, B: Mpi) returns (r: Status, ghost q: int, ghost rem: int)
    requires Q != null ==> Q != B && Q != R && (Q == A ==> R == null && A.s == 1)
    modifies Q, R
    ensures r.Ok? || r.AllocFailed? || r.DivisionByZero?
    ensures r.DivisionByZero? <==> old(B.Int()) == 0
    ensures r.Ok? ==> IsTruncatedDivision(old(A.Int()), old(B.Int()), q, rem)
    ensures r.Ok? && Q != null ==> Q.Int() == q && |Q.p| >= 1
    ensures r.Ok? && R != null ==> R.Int() == rem && |R.p| >= old(|R.p|)
    ensures r.Ok? && R != null && old(A.s) == 1 && old(|A.p|) > 0 ==> R.s == 1 && |R.p| > 0
    ensures r.Ok? && Q != null && old(A.s) == 1 && old(B.s) == 1 ==> Q.s == 1
  {
    hide Val, BPow;
    q, rem := 0, 0;
    var zero := B.CmpInt(0);
    if zero == 0 {
      return DivisionByZero, 0, 0;
    }
    ghost var a, b, sa, sb := Val(A.p), Val(B.p), A.s, B.s;
    var c := A.CmpAbs(B);
    if c < 0 {
      q, rem := 0, A.Int();
      SignedDivision(sa, a, sb, b, 0, a);
      if Q != null {
        r := Q.Lset(0);
        if !r.Ok? {
          return;
        }
      }
      if R != null {
        r := R.Copy(A);
        if !r.Ok? {
          return;
        }
      }
      r := Ok;
      return;
    }
    var X, Z;
    r, X, Z := DivideMagnitudes(A, B);
    if !r.Ok? {
      return;
    }
    SignedDivision(sa, a, sb, b, Val(Z.p), Val(X.p));
    q, rem := Signed(sa * sb, Val(Z.p)), Signed(sa, Val(X.p));
    if Q != null {
      r := StoreQuotient(Q, Z, A, B);
      if !r.Ok? {
        return;
      }
    }
    if R != null {
      X.s := A.s;
      r := StoreRemainder(R, X);
    }
  }

  /** Q takes the digits, and the product of the operands' signs. */
  method StoreQuotient(Q: Mpi, Z: Mpi, A: Mpi, B: Mpi) returns (r: Status)
    requires Q != B && Q != Z && (Q == A ==> A.s == 1) && |Z.p| >= 1 && Z.s == 1
    modifies Q
    ensures r.Ok? || r.AllocFailed?
    ensures r.Ok? ==> Q.Int() == Signed(old(A.s) * B.s, Val(Z.p)) && |Q.p| >= 1
    ensures r.Ok? ==> Q.s == old(A.s) * B.s
  {
    hide Val;
    :- Q.Copy(Z);
    Q.s := A.s * B.s;
    return Ok;
  }

  /** R takes the remainder; zero becomes positive. */
  method StoreRemainder(R: Mpi, X: Mpi) returns (r: Status)
    requires R != X && |X.p| >= 1
    modifies R
    ensures r.Ok? || r.AllocFailed?
    ensures r.Ok? ==> R.Int() == X.Int() && |R.p| >= old(|R.p|) && |R.p| > 0
    ensures r.Ok? && X.s == 1 ==> R.s == 1
  {
    hide Val;
    :- R.Copy(X);
    var zero := R.CmpInt(0);
    if zero == 0 {
      R.s := 1;
    }
    return Ok;
  }

  /** Adds B until the value is not negative. */
  method RaiseToNonNegative(R: Mpi, B: Mpi) returns (r: Status)
    requires R != B && B.Int() > 0
    modifies R
    ensures r.Ok? || r.AllocFailed?
    ensures r.Ok? ==> 0 <= R.Int() && R.Int() % B.Int() == old(R.Int()) % B.Int() && |R.p| >= old(|R.p|)
    ensures old(R.Int()) >= 0 ==> R.p == old(R.p) && R.s == old(R.s)
    ensures r.Ok? && old(R.Int()) < B.Int() ==> R.Int() < B.Int()
  {
    hide Val, BPow;
    ghost var a, b, q := R.Int(), B.Int(), 0;
    var c := R.CmpInt(0);
    while c < 0
      invariant R.Int() == a + q * b && c == Cmp(R.Int(), 0) && |R.p| >= old(|R.p|)
      invariant a >= 0 ==> R.p == old(R.p) && R.s == old(R.s)
      invariant a < b ==> R.Int() < b
      decreases 0 - R.Int()
    {
      MulDist(b, q, 1);
      q := q + 1;
      :- R.AddMpi(R, B);
      c := R.CmpInt(0);
    }
    SameResidue(a, b, q);
    return Ok;
  }

  /** Subtracts B while the value is not below it. */
  method LowerBelow(R: Mpi, B: Mpi) returns (r: Status)
    requires R != B && B.Int() > 0 && 0 <= R.Int()
    modifies R
    ensures r.Ok? || r.AllocFailed?
    ensures r.Ok? ==> R.Int() == old(R.Int()) % B.Int() && |R.p| >= old(|R.p|)
    ensures old(R.Int()) < B.Int() ==> R.p == old(R.p) && R.s == old(R.s)
  {
    hide Val, BPow;
    ghost var a, b, q := R.Int(), B.Int(), 0;
    var c := R.CmpMpi(B);
    while c >= 0
      invariant R.Int() == a + q * b && c == Cmp(R.Int(), b) && 0 <= R.Int() && |R.p| >= old(|R.p|)
      invariant a < b ==> R.p == old(R.p) && R.s == old(R.s)
      decreases R.Int()
    {
      MulDist(b, q, 1);
      q := q - 1;
      :- R.SubMpi(R, B);
      c := R.CmpMpi(B);
    }
    SameResidue(a, b, q);
    DivModUnique(R.Int(), b, 0, R.Int());
    return Ok;
  }

  lemma SameResidue(a: int, b: int, q: int)
    requires 0 < b
    ensures (a + q * b) % b == a % b
  {
    MulDist(b, a / b, q);
    DivModUnique(a + q * b, b, a / b + q, a % b);
  }

  /** `mbedtls_mpi_mod_mpi`: the residue in [0, B), also for negative A. */
  method ModMpi(R: Mpi, A: Mpi, B: Mpi) returns (r: Status)
    requires R != B
    modifies R
    ensures r.Ok? || r.AllocFailed? || r.DivisionByZero? || r.NegativeValue?
    ensures r.NegativeValue? <==> old(B.Int()) < 0
    ensures r.DivisionByZero? <==> old(B.Int()) == 0
    ensures r.Ok? ==> R.Int() == old(A.Int()) % old(B.Int()) && R.Int() == Val(R.p)
    ensures r.Ok? ==> |R.p| >= old(|R.p|)
    ensures r.Ok? && old(A.s) == 1 && old(|A.p|) > 0 ==> R.s == 1 && |R.p| > 0
  {
    hide Val, BPow, IsTruncatedDivision;
    var neg := B.CmpInt(0);
    if neg < 0 {
      return NegativeValue;
    }
    ghost var a, b := A.Int(), B.Int();
    ghost var q, rem;
    r, q, rem := DivMpi(null, R, A, B);
    if !r.Ok? {
      return;
    }
    RemainderResidue(a, b, q, rem);
    r := RaiseToNonNegative(R, B);
    if !r.Ok? {
      return;
    }
    r := LowerBelow(R, B);
    ResidueIdempotent(a, b);
  }

  lemma RemainderResidue(a: int, b: int, q: int, rem: int)
    requires 0 < b && IsTruncatedDivision(a, b, q, rem)
    ensures rem % b == a % b && rem < b && (0 <= a ==> 0 <= rem)
  {
    SameResidue(rem, b, q);
  }

  lemma ResidueIdempotent(a: int, b: int)
    requires 0 < b
    ensures 0 <= a % b < b && a % b % b == a % b
  {
    DivModUnique(a % b, b, 0, a % b);
  }
}
