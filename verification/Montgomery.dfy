/** Montgomery arithmetic: `mpi_montg_init`, `mpi_montmul` and `mpi_montred`. */
module Montgomery {
  import opened Words
  import opened Products
  import opened Limbs
  import opened LimbKernel
  import opened Congruence
  import opened MpiModule

  // ---------- the negated inverse of the modulus ----------

  /** x is an inverse of m modulo p, and k says by which multiple. */
  ghost predicate InverseUpTo(m: int, x: int, p: int, k: int) {
    m * x == 1 + k * p
  }

  /** The four-bit start value: `x += ((m0 + 2) & 4) << 1` */
  function StartValue(m0: limb): (x: limb) {
    Wrap(m0 + Wrap(m0 + 2) / 4 % 2 * 8)
  }

  const BASE16: nat := if BASE == 0x1_0000_0000 then 0x1000_0000 else 0x1000_0000_0000_0000

  lemma StartIsInverse(m0: limb) returns (k: int)
    requires m0 % 2 == 1
    ensures InverseUpTo(m0, StartValue(m0), 16, k)
  {
    var a, c := m0 / 16, m0 % 16;
    var bit: int := Wrap(m0 + 2) / 4 % 2;
    StartBit(m0, a, c);
    var q := (m0 + bit * 8) / BASE;
    assert StartValue(m0) == m0 + bit * 8 - 16 * (BASE16 * q);
    OddDigit(a, c);
    var l := StartDigits(c, bit);
    k := StartInts(a, c, c + bit * 8, BASE16 * q, l, StartValue(m0));
  }

  lemma StartBit(m0: limb, a: int, c: int)
    requires m0 == 16 * a + c && 0 <= c < 16
    ensures Wrap(m0 + 2) / 4 % 2 == (c + 2) / 4 % 2
  {
    var j := (m0 + 2) / BASE;
    var z := a - BASE16 * j;
    assert Wrap(m0 + 2) == 16 * z + (c + 2);
    var e := c + 2;
    DivModUnique(16 * z + e, 4, 4 * z + e / 4, e % 4);
    DivModUnique(4 * z + e / 4, 2, 2 * z + e / 4 / 2, e / 4 % 2);
  }

  /** An odd number times the start value is one more than a multiple of sixteen. */
  lemma StartInts(a: int, c: int, e: int, j: int, l: int, x: int) returns (k: int)
    requires c * e == 1 + 16 * l && x == 16 * a + e - 16 * j
    ensures (16 * a + c) * x == 1 + k * 16
  {
    k := a * x + c * (a - j) + l;
    StartProduct(a, c, e, j, x);
  }

  lemma OddDigit(a: int, c: int)
    requires (16 * a + c) % 2 == 1
    ensures c % 2 == 1
  {
    DivModUnique(16 * a + c, 2, 8 * a + c / 2, c % 2);
  }

  lemma StartProduct(a: int, c: int, e: int, j: int, m: int)
    requires m == 16 * a + e - 16 * j
    ensures (16 * a + c) * m == 16 * (a * m + c * (a - j)) + c * e
  {
    MulDist(m, 16 * a, c);
    MulAssoc(16, a, m);
    MulDist(c, 16 * (a - j), e);
    MulAssoc(c, 16, a - j);
  }

  lemma StartDigits(c: int, bit: int) returns (l: int)
    requires 0 <= c < 16 && c % 2 == 1 && bit == (c + 2) / 4 % 2
    ensures c * (c + bit * 8) == 1 + 16 * l
  {
    if c == 1 || c == 7 || c == 9 || c == 15 {
      assert bit == 0;
      l := if c == 1 then 0 else if c == 7 then 3 else if c == 9 then 5 else 14;
    } else {
      assert bit == 1 && (c == 3 || c == 5 || c == 11 || c == 13);
      l := if c == 3 then 2 else if c == 5 then 4 else if c == 11 then 13 else 17;
    }
  }

  /** Newton's step squares the error, and wrapping to a limb does not disturb it while p * p divides b. */
  lemma NewtonStep(m: int, x: int, p: int, k: int, x2: int, j: int, g: int)
    requires InverseUpTo(m, x, p, k)
    requires x * (2 - m * x) == x2 + j * (p * p * g)
    ensures InverseUpTo(m, x2, p * p, 0 - k * k - m * j * g)
  {
    var mx := m * x;
    MulAssoc(m, x, 2 - mx);
    assert mx * (2 - mx) == 1 - (mx - 1) * (mx - 1);
    assert (mx - 1) * (mx - 1) == (k * k) * (p * p) by { KP(k, p); }
    assert m * (x2 + j * (p * p * g)) == m * x2 + (m * j * g) * (p * p) by { Spread(m, x2, j, p * p, g); }
    MulDist(p * p, 0 - k * k, m * j * g);
  }

  lemma KP(k: int, p: int)
    ensures (k * p) * (k * p) == (k * k) * (p * p)
  {
    FourFactors(k, p, k, p);
  }

  lemma Spread(m: int, x: int, j: int, pp: int, g: int)
    ensures m * (x + j * (pp * g)) == m * x + (m * j * g) * pp
  {
  }

  /** `mpi_montg_init`: the negated inverse of the low limb of N modulo b. */
  method MontgInit(N: Mpi) returns (mm: limb, ghost h: int)
    requires |N.p| > 0 && N.p[0] % 2 == 1
    ensures N.p[0] * mm + 1 == h * BASE && (N.p[0] * mm + 1) % BASE == 0
  {
    hide Pow2;
    var m0 := N.p[0];
    var x := StartValue(m0);
    ghost var k := StartIsInverse(m0);
    ghost var e: nat := 4;
    Pow2Values();
    BaseIsPow2();
    var i := BIL;
    while i >= 8
      invariant i == 4 || i == 8 || i == 16 || i == 32 || i == 64
      invariant e * i == 4 * BIL
      invariant InverseUpTo(m0, x, Pow2(e), k)
    {
      x, k := Newton(m0, x, e, k);
      e := 2 * e;
      i := i / 2;
    }
    // ~x + 1
    mm, h := Negated(m0, x, k);
    MultipleOfBase(m0 * mm + 1, h);
  }

  lemma MultipleOfBase(x: int, h: int)
    requires x == h * BASE
    ensures x % BASE == 0
  {
    DivModUnique(x, BASE, h, 0);
  }

  /** `x *= 2 - m0 * x` on wrapping limbs */
  method Newton(m0: limb, x: limb, ghost e: nat, ghost k: int) returns (x2: limb, ghost k2: int)
    requires InverseUpTo(m0, x, Pow2(e), k) && 2 * e <= BIL
    ensures InverseUpTo(m0, x2, Pow2(2 * e), k2)
  {
    hide Pow2;
    ghost var p, g := Pow2(e), Pow2(BIL - 2 * e);
    Pow2Add(e, e);
    Pow2Split(BIL, 2 * e);
    BaseIsPow2();
    x2 := Wrap(x * (2 - m0 * x));
    ghost var j := x * (2 - m0 * x) / BASE;
    NewtonStep(m0, x, p, k, x2, j, g);
    k2 := 0 - k * k - m0 * j * g;
  }

  method Negated(m0: limb, x: limb, ghost k: int) returns (mm: limb, ghost h: int)
    requires m0 * x == 1 + k * BASE
    ensures m0 * mm + 1 == h * BASE
  {
    mm := Wrap(BASE - 1 - x + 1);
    if x == 0 {
      h := 0;
      ZeroNotInverse(k);
    } else {
      WrapId(BASE - x);
      MulDist(m0, BASE, x);
      MulDist(BASE, m0, k);
      h := m0 - k;
    }
  }

  lemma ZeroNotInverse(k: int)
    ensures 1 + k * BASE != 0
  {
    if k >= 0 {
      MulNonNeg(k, BASE);
    } else {
      MulMono(k, -1, BASE);
    }
  }

  // ---------- Montgomery multiplication ----------

  /** The factor that makes the low limb of the running value vanish. */
  lemma LowLimbVanishes(d0: limb, u0: limb, b0: limb, n0: limb, mm: limb, h: int, u1: limb) returns (v: int)
    requires n0 * mm + 1 == h * BASE
    requires u1 == Wrap((d0 + u0 * b0) * mm)
    ensures d0 + u0 * b0 + u1 * n0 == v * BASE
  {
    var t := d0 + u0 * b0;
    var q := t * mm / BASE;
    assert t * mm == u1 + q * BASE;
    v := VanishInts(t, u1, n0, mm, h, q, BASE);
  }

  lemma VanishInts(t: int, u1: int, n0: int, mm: int, h: int, q: int, base: int) returns (v: int)
    requires n0 * mm + 1 == h * base && t * mm == u1 + q * base
    ensures t + u1 * n0 == v * base
  {
    // u1 * n0 = t * mm * n0 - q * base * n0 = t * (h * base - 1) - q * base * n0
    MulAssoc(t, mm, n0);
    MulDist(n0, t * mm, q * base);
    MulDist(t, h * base, 1);
    v := t * h - q * n0;
    MulDist(base, t * h, q * n0);
    MulAssoc(t, h, base);
    MulAssoc(q, base, n0);
    MulAssoc(q, n0, base);
  }

  /** The running value never leaves the range below B + N. */
  lemma StepBound(d: nat, b: nat, n: nat, u0: nat, u1: nat, d2: int, base: nat)
    requires d < b + n && u0 < base && u1 < base && d2 * base == d + u0 * b + u1 * n
    ensures d2 < b + n
  {
    MulMono(u0, base - 1, b);
    MulMono(u1, base - 1, n);
    MulDist(base, b, n);
    MulDist(b, base, 1);
    MulDist(n, base, 1);
    if d2 >= b + n {
      MulMono(b + n, d2, base);
    }
  }

  /** There is room for both multiplications of a step. */
  lemma StepRoom(d: nat, b: nat, n: nat, u0: nat, u1: nat, limbs: nat, len: nat)
    requires d < b + n && b <= n < BPow(limbs) && u0 < BASE && u1 < BASE && limbs + 2 <= len
    ensures d + u0 * b < BPow(len)
    ensures d + u0 * b + u1 * n < BPow(len)
  {
    hide BPow;
    MulMono(u0, BASE - 1, b);
    MulMono(u1, BASE - 1, n);
    MulDist(b, BASE, 1);
    MulDist(n, BASE, 1);
    MulNonNeg(u0, b);
    MulNonNeg(u1, n);
    BPowNext(limbs);
    BPowNext(limbs + 1);
    BPowMonotonic(limbs + 2, len);
    MulMono(b, BPow(limbs), BASE);
    MulMono(n, BPow(limbs), BASE);
    MulMono(2, BASE, BPow(limbs + 1));
  }

  /** When the low limb of the sum vanishes, the limbs above it are the sum divided by b. */
  lemma DropLowLimb(t: seq<limb>, d: seq<limb>, b: seq<limb>, n: seq<limb>, u0: limb, u1: limb, v: int)
    requires |t| > 0 && |d| > 0 && |b| > 0 && |n| > 0
    requires Val(t) == Val(d) + u0 * Val(b) + u1 * Val(n)
    requires d[0] + u0 * b[0] + u1 * n[0] == v * BASE
    ensures t[0] == 0 && Val(t[1..]) * BASE == Val(t)
  {
    hide Val;
    ValFirst(t);
    ValFirst(d);
    ValFirst(b);
    ValFirst(n);
    DropDigits(Val(t), t[0], Val(t[1..]), Val(d), d[0], Val(d[1..]), Val(b), b[0], Val(b[1..]), Val(n), n[0], Val(n[1..]),
               u0, u1, v, BASE);
  }

  lemma DropDigits(t: int, t0: int, tr: int, d: int, d0: int, dr: int, b: int, b0: int, br: int, n: int, n0: int, nr: int,
                   u0: int, u1: int, v: int, base: int)
    requires t == t0 + base * tr && d == d0 + base * dr && b == b0 + base * br && n == n0 + base * nr
    requires t == d + u0 * b + u1 * n && d0 + u0 * b0 + u1 * n0 == v * base && 0 <= t0 < base
    ensures t0 == 0 && tr * base == t
  {
    ScaledDigits(u0, b, b0, br, base);
    ScaledDigits(u1, n, n0, nr, base);
    DropDigit(t0, tr, d0, dr, u0 * b0, u0 * br, u1 * n0, u1 * nr, v, base);
  }

  lemma ScaledDigits(u: int, x: int, low: int, rest: int, base: int)
    requires x == low + base * rest
    ensures u * x == u * low + base * (u * rest)
  {
    MulDist(u, low, base * rest);
    MulAssoc(u, base, rest);
    MulAssoc(base, u, rest);
  }

  lemma DropDigit(t0: int, tr: int, d0: int, dr: int, b0: int, br: int, n0: int, nr: int, v: int, base: int)
    requires 0 <= t0 < base
    requires t0 + base * tr == (d0 + base * dr) + (b0 + base * br) + (n0 + base * nr)
    requires d0 + b0 + n0 == v * base
    ensures t0 == 0
  {
    var rest := v + dr + br + nr;
    assert base * rest == v * base + base * dr + base * br + base * nr;
    DivModUnique(base * rest, base, tr, t0);
    DivModUnique(base * rest, base, rest, 0);
  }

  /** One turn of the loop: `T = (T + u0 * B + u1 * N) / b`, where the result starts one limb further up. */
  method MontStep(A: Mpi, B: Mpi, N: Mpi, mm: limb, ghost h: int, T: Mpi, i: nat) returns (ghost u1: limb)
    requires T != A && T != B && T != N
    requires 0 < |N.p| && i < |N.p| <= |A.p| && |B.p| > 0 && |T.p| >= 2 * (|N.p| + 1)
    requires N.p[0] * mm + 1 == h * BASE
    requires Val(B.p) <= Val(N.p) && Val(T.p[i..]) < Val(B.p) + Val(N.p)
    modifies T
    ensures |T.p| == old(|T.p|)
    ensures Val(T.p[i + 1..]) * BASE == old(Val(T.p[i..])) + A.p[i] * Val(B.p) + u1 * Val(N.p)
    ensures Val(T.p[i + 1..]) < Val(B.p) + Val(N.p)
  {
    hide Val, BPow;
    var n := |N.p|;
    var m := if |B.p| < n then |B.p| else n;
    ghost var d := T.p[i..];
    var u0 := A.p[i];
    var u := Wrap((T.p[i] + u0 * B.p[0]) * mm);
    u1 := u;
    ghost var v := LowLimbVanishes(d[0], u0, B.p[0], N.p[0], mm, h, u);
    ValBound(N.p);
    ShortOperand(B.p, n, m);
    StepRoom(Val(d), Val(B.p), Val(N.p), u0, u, n, |T.p| - i);
    assert N.p[..n] == N.p;
    MulHlp(m, B, T, i, u0);
    MulHlp(n, N, T, i, u);
    ghost var t := T.p[i..];
    DropLowLimb(t, d, B.p, N.p, u0, u, v);
    StepBound(Val(d), Val(B.p), Val(N.p), u0, u, Val(t[1..]), BASE);
    TopStaysZero(t[1..], Val(B.p) + Val(N.p), n);
    T.p := T.p[i := u0];
    T.p := T.p[i + n + 2 := 0];
    assert T.p[i + 1..] == t[1..];
  }

  lemma ShortOperand(b: seq<limb>, n: nat, m: nat)
    requires m == (if |b| < n then |b| else n) && Val(b) < BPow(n)
    ensures Val(b[..m]) == Val(b)
  {
    hide Val, BPow;
    if |b| < n {
      assert b[..m] == b;
    } else {
      ZerosAbove(b, n);
      ValTrim(b, n);
    }
  }

  lemma TopStaysZero(t: seq<limb>, bound: nat, n: nat)
    requires Val(t) < bound <= 2 * BPow(n) && n + 1 < |t|
    ensures forall k :: n + 1 <= k < |t| ==> t[k] == 0
  {
    hide Val, BPow;
    BPowNext(n);
    MulMono(2, BASE, BPow(n));
    ZerosAbove(t, n + 1);
  }

  lemma Accumulate(d: int, d2: int, w: int, a: int, b: int, n: int, k: int, u0: int, u1: int, base: int)
    requires d * w == a * b + k * n && d2 * base == d + u0 * b + u1 * n
    ensures d2 * (w * base) == (a + u0 * w) * b + (k + u1 * w) * n
  {
    MulAssoc(d2, base, w);
    MulDist(w, d + u0 * b, u1 * n);
    MulDist(w, d, u0 * b);
    MulDist(b, a, u0 * w);
    MulDist(n, k, u1 * w);
    assert (u0 * b) * w == (u0 * w) * b;
    assert (u1 * n) * w == (u1 * w) * n;
    assert (d2 * base) * w == d2 * (w * base);
  }

  /** The main loop: T from limb n on is A * B / b^n up to a multiple of N, and below B + N. */
  method MontLoop(A: Mpi, B: Mpi, N: Mpi, mm: limb, ghost h: int, T: Mpi) returns (ghost k: int)
    requires T != A && T != B && T != N
    requires 0 < |N.p| <= |A.p| && |B.p| > 0 && |T.p| >= 2 * (|N.p| + 1)
    requires N.p[0] * mm + 1 == h * BASE
    requires Val(B.p) <= Val(N.p) && 0 < Val(N.p)
    modifies T
    ensures |T.p| == old(|T.p|)
    ensures Val(T.p[|N.p|..]) < Val(B.p) + Val(N.p)
    ensures Val(T.p[|N.p|..]) * BPow(|N.p|) == Val(A.p[..|N.p|]) * Val(B.p) + k * Val(N.p)
  {
    hide Val, BPow;
    T.p := Zeros(|T.p|);
    ValZeros(|T.p|);
    assert T.p[0..] == T.p;
    ValNone(A.p);
    BPowZero();
    var n := |N.p|;
    var i := 0;
    k := 0;
    while i < n
      invariant i <= n && |T.p| == old(|T.p|)
      invariant Val(T.p[i..]) < Val(B.p) + Val(N.p)
      invariant Val(T.p[i..]) * BPow(i) == Val(A.p[..i]) * Val(B.p) + k * Val(N.p)
    {
      ghost var d := Val(T.p[i..]);
      ghost var u1 := MontStep(A, B, N, mm, h, T, i);
      Accumulate(d, Val(T.p[i + 1..]), BPow(i), Val(A.p[..i]), Val(B.p), Val(N.p), k, A.p[i], u1, BASE);
      BPowNext(i);
      ValSnoc(A.p, i);
      k := k + u1 * BPow(i);
      i := i + 1;
    }
  }

  /** `x & mask` for a mask of all zeros or all ones. */
  function AndMask(x: limb, mask: limb): limb
    requires mask == 0 || mask == BASE - 1
  {
    if mask == 0 then 0 else x
  }

  /** `mbedtls_ct_mpi_uint_cond_assign`: the masks are complementary, so the "or" joins x with zero. */
  method CondAssign(n: nat, dest: seq<limb>, src: seq<limb>, condition: limb) returns (d: seq<limb>)
    requires condition <= 1 && n <= |dest| && n <= |src|
    ensures d == if condition == 1 then src[..n] + dest[n..] else dest
  {
    var mask := Wrap(0 - condition);
    if condition == 1 {
      DivModUnique(-1, BASE, -1, BASE - 1);
    }
    var other := BASE - 1 - mask;
    d := dest;
    var i := 0;
    while i < n
      invariant 0 <= i <= n && |d| == |dest|
      invariant forall k :: 0 <= k < i ==> d[k] == if condition == 1 then src[k] else dest[k]
      invariant forall k :: i <= k < |d| ==> d[k] == dest[k]
    {
      d := d[i := AndMask(src[i], mask) + AndMask(d[i], other)];
      i := i + 1;
    }
  }

  /** The branch-free final subtraction: the flag it computes says whether d reached N. */
  lemma FinalFlag(dn: nat, low: nat, n: nat, w: nat, d: nat, borrow: nat, diff: int)
    requires d == low + w * dn && d < 2 * n && n < w && low < w
    requires borrow <= 1 && diff == low - n + borrow * w && 0 <= diff < w
    ensures dn + 1 - borrow == if d >= n then 1 else 0
    ensures d >= n ==> diff == d - n
  {
    if dn >= 2 {
      MulMono(2, dn, w);
    }
  }

  /** `mpi_montmul`: the low limbs of A become A * B / b^n modulo N, fully reduced.  A and B may coincide. */
  method MontMul(A: Mpi, B: Mpi, N: Mpi, mm: limb, ghost h: int, T: Mpi)
    requires T != A && T != B && T != N && A != N
    requires 0 < |N.p| <= |A.p| && |B.p| > 0 && |T.p| >= 2 * (|N.p| + 1)
    requires N.p[0] * mm + 1 == h * BASE
    requires Val(B.p) <= Val(N.p) && 0 < Val(N.p)
    modifies A, T
    ensures |T.p| == old(|T.p|) && |A.p| == old(|A.p|) && A.s == old(A.s)
    ensures A.p[|N.p|..] == old(A.p[|N.p|..])
    ensures Val(A.p[..|N.p|]) < Val(N.p)
    ensures Cong(Val(A.p[..|N.p|]) * BPow(|N.p|), old(Val(A.p[..|N.p|]) * Val(B.p)), Val(N.p))
  {
    hide Val, BPow, Cong;
    var n := |N.p|;
    ghost var ab := Val(A.p[..n]) * Val(B.p);
    ghost var k := MontLoop(A, B, N, mm, h, T);
    ghost var d := Val(T.p[n..]);
    CongIntro(d * BPow(n), ab, Val(N.p), k);
    FinalSubtraction(A, N, T);
    Subtracted(d, ab, Val(N.p), BPow(n));
  }

  /** The high part of T goes to A, reduced by one subtraction of N that is always computed and taken when needed. */
  method FinalSubtraction(A: Mpi, N: Mpi, T: Mpi)
    requires T != A && T != N && A != N
    requires 0 < |N.p| <= |A.p| && |T.p| >= 2 * (|N.p| + 1) && Val(T.p[|N.p|..]) < 2 * Val(N.p)
    modifies A, T
    ensures |T.p| == old(|T.p|) && |A.p| == old(|A.p|) && A.s == old(A.s)
    ensures A.p[|N.p|..] == old(A.p[|N.p|..])
    ensures var d := old(Val(T.p[|N.p|..])); Val(A.p[..|N.p|]) == if d >= Val(N.p) then d - Val(N.p) else d
  {
    hide Val, BPow;
    var n := |N.p|;
    ghost var low, rest := T.p[n..n + n], A.p[n..];
    A.p := T.p[n..n + n] + A.p[n..];
    var flag := TrialSubtraction(N, T);
    ghost var diff := T.p[n..n + n];
    ghost var before := A.p;
    A.p := CondAssign(n, A.p, T.p[n..], flag);
    Selected(n, before, low, rest, T.p[n..], diff, flag, A.p);
  }

  /** The subtraction, and whether its result is the one to take. */
  method TrialSubtraction(N: Mpi, T: Mpi) returns (flag: limb)
    requires T != N && 0 < |N.p| && |T.p| >= 2 * (|N.p| + 1) && Val(T.p[|N.p|..]) < 2 * Val(N.p)
    modifies T
    ensures |T.p| == old(|T.p|) && flag == if old(Val(T.p[|N.p|..])) >= Val(N.p) then 1 else 0
    ensures var n, d := |N.p|, old(Val(T.p[|N.p|..])); if flag == 1 then Val(T.p[n..n + n]) == d - Val(N.p) else old(Val(T.p[n..n + n])) == d
  {
    hide Val, BPow;
    var n := |N.p|;
    ghost var d, t := Val(T.p[n..]), T.p;
    TopOfResult(t, n, Val(N.p), N.p);
    var borrow := SubHlp(n, T, T, n, N);
    ValBound(T.p[n..n + n]);
    assert N.p[..n] == N.p;
    FinalFlag(t[2 * n], Val(t[n..n + n]), Val(N.p), BPow(n), d, borrow, Val(T.p[n..n + n]));
    SameLimb(T.p, t, 2 * n);
    WrapId(T.p[2 * n] as int + 1 - borrow);
    flag := Wrap(T.p[2 * n] as int + 1 - borrow);
  }

  lemma SameLimb(a: seq<limb>, b: seq<limb>, i: nat)
    requires i < |a| == |b| && a[i..] == b[i..]
    ensures a[i] == b[i]
  {
    assert a[i..][0] == b[i..][0];
  }

  /** What the conditional copy leaves. */
  lemma Selected(n: nat, dest: seq<limb>, low: seq<limb>, rest: seq<limb>, src: seq<limb>, diff: seq<limb>, flag: nat, d: seq<limb>)
    requires |low| == n && dest == low + rest && n <= |src| && diff == src[..n] && |d| == |dest|
    requires forall k :: 0 <= k < n ==> d[k] == if flag == 1 then src[k] else dest[k]
    requires forall k :: n <= k < |d| ==> d[k] == dest[k]
    ensures d[..n] == (if flag == 1 then diff else low) && d[n..] == rest
  {
  }

  lemma TopOfResult(t: seq<limb>, n: nat, m: nat, np: seq<limb>)
    requires |np| == n && Val(np) == m && 2 * n + 1 < |t| && Val(t[n..]) < 2 * m
    ensures Val(t[n..]) == Val(t[n..n + n]) + BPow(n) * t[2 * n]
    ensures Val(t[n..n + n]) < BPow(n) && m < BPow(n)
  {
    hide Val, BPow;
    var d := t[n..];
    ValBound(np);
    BPowNext(n);
    MulMono(2, BASE, BPow(n));
    ZerosAbove(d, n + 1);
    ValTrim(d, n + 1);
    ValSnoc(d, n);
    assert d[..n] == t[n..n + n];
    ValBound(d[..n]);
  }

  lemma Subtracted(d: int, ab: int, n: int, w: int)
    requires Cong(d * w, ab, n)
    ensures Cong((d - n) * w, ab, n)
  {
    var k := CongElim(d * w, ab, n);
    MulDist(w, d, n);
    MulDist(n, k, w);
    CongIntro((d - n) * w, ab, n, k - w);
  }
}

