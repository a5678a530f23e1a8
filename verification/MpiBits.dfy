/** Bit length, lowest set bit, single bits, and the shifts of a multi-precision integer. */
module MpiBits {
  import opened Words
  import opened Products
  import opened Limbs
  import opened LimbKernel
  import opened Status
  import opened MpiModule

  function BitsToLimbs(n: nat): (l: nat)
    ensures n <= l * BIL
  {
    n / BIL + if n % BIL != 0 then 1 else 0
  }

  /** n is the number of bits of v. */
  ghost predicate IsBitLen(v: nat, n: nat) {
    v < Pow2(n) && (n > 0 ==> Pow2(n - 1) <= v)
  }

  lemma BitLenUnique(v: nat, m: nat, n: nat)
    requires IsBitLen(v, m) && IsBitLen(v, n)
    ensures m == n
  {
    if m < n {
      Pow2Monotonic(m, n - 1);
    } else if n < m {
      Pow2Monotonic(n, m - 1);
    }
  }

  /** How often a number can be halved before it is zero. */
  ghost function BitCount(v: nat): nat {
    if v == 0 then 0 else 1 + BitCount(v / 2)
  }

  lemma {:induction false} BitCountIs(v: nat)
    ensures IsBitLen(v, BitCount(v))
  {
    if v > 0 {
      BitCountIs(v / 2);
      if v / 2 > 0 {
        Pow2Next(BitCount(v / 2) - 1);
      }
    }
  }

  lemma BitCountOf(v: nat, n: nat)
    requires IsBitLen(v, n)
    ensures n == BitCount(v)
  {
    BitCountIs(v);
    BitLenUnique(v, n, BitCount(v));
  }

  lemma BitCountMonotonic(v: nat, bits: nat)
    requires 0 < v < Pow2(bits)
    ensures BitCount(v) <= bits
  {
    hide Pow2, BitCount;
    BitCountIs(v);
    if BitCount(v) > bits {
      Pow2Monotonic(bits, BitCount(v) - 1);
    }
  }

  lemma BitCountAtMost(v: nat, bits: nat)
    ensures BitCount(v) <= bits <==> v < Pow2(bits)
  {
    hide Pow2, BitCount;
    BitCountIs(v);
    Pow2Zero();
    if BitCount(v) <= bits {
      Pow2Monotonic(BitCount(v), bits);
    }
    if 0 < v < Pow2(bits) {
      BitCountMonotonic(v, bits);
    }
  }

  /** The bit length from the leading limb x, which stands at bit position m. */
  lemma BitLenFromTop(v: nat, x: nat, m: nat, j: nat)
    requires x * Pow2(m) <= v < x * Pow2(m) + Pow2(m)
    requires IsBitLen(x, j) && 0 < j
    ensures IsBitLen(v, m + j)
  {
    hide Pow2;
    Pow2Add(m, j);
    Pow2Add(m, j - 1);
    MulMono(x + 1, Pow2(j), Pow2(m));
    MulDist(Pow2(m), x, 1);
    MulMono(Pow2(j - 1), x, Pow2(m));
  }

  /** `mbedtls_mpi_bitlen` */
  method BitLen(X: Mpi) returns (n: nat)
    ensures n == BitCount(Val(X.p)) && IsBitLen(Val(X.p), n)
  {
    hide Val, BPow, Pow2, BitCount;
    ZeroBitLen();
    if |X.p| == 0 {
      ValNone(X.p);
      BitCountOf(0, 0);
      return 0;
    }
    var i := |X.p| - 1;
    while i > 0
      invariant 0 <= i < |X.p|
      invariant forall k :: i < k < |X.p| ==> X.p[k] == 0
    {
      if X.p[i] != 0 {
        break;
      }
      i := i - 1;
    }
    ValTrim(X.p, i + 1);
    ValSnoc(X.p, i);
    ValBound(X.p[..i]);
    BPowIsPow2(i);
    var z := CountLeadingZeros(X.p[i]);
    var j := BIL - z;
    if X.p[i] == 0 {
      ValNone(X.p);
      BitCountOf(0, 0);
      return i * BIL + j;
    }
    BitLenFromTop(Val(X.p), X.p[i], i * BIL, j);
    BitCountOf(Val(X.p), i * BIL + j);
    return i * BIL + j;
  }

  lemma ZeroBitLen()
    ensures IsBitLen(0, 0)
  {
  }

  /** The limb and the bit in it at a position. */
  lemma LimbOf(pos: nat, n: nat)
    requires pos < n * BIL
    ensures pos == pos / BIL * BIL + pos % BIL && pos / BIL < n && pos % BIL < BIL
  {
    DivModBounds(pos, BIL);
    var i := pos / BIL;
    if i >= n {
      MulMono(n, i, BIL);
    }
  }

  /** Position i of a row, at bit j of the limb there, is bit `i * BIL + j` of the number. */
  lemma BitPosition(p: seq<limb>, i: nat, j: nat)
    requires i < |p| && j < BIL
    ensures Val(p) / Pow2(i * BIL + j) == 2 * (Val(p) / Pow2(i * BIL + j + 1)) + p[i] / Pow2(j) % 2
  {
    hide Val, BPow;
    assert Pow2(1) == 2;
    FieldPosition(p, i, j, 1);
  }

  /** The k bits from bit j on of limb i are k bits of the number. */
  lemma FieldPosition(p: seq<limb>, i: nat, j: nat, k: nat)
    requires i < |p| && j + k <= BIL
    ensures Val(p) / Pow2(i * BIL + j) == Pow2(k) * (Val(p) / Pow2(i * BIL + j + k)) + p[i] / Pow2(j) % Pow2(k)
  {
    hide Val, BPow, Pow2;
    var low, w := Val(p[..i]), BPow(i);
    BPowIsPow2(i);
    ValSplit(p, i);
    ValBound(p[..i]);
    ValFirst(p[i..]);
    BaseIsPow2();
    Pow2Split(BIL, j + k);
    Pow2Add(k, j);
    Pow2Add(i * BIL, j);
    Pow2Add(i * BIL, j + k);
    FieldInts(Val(p), low, w, p[i], Val(p[i..][1..]), Pow2(k), Pow2(j), Pow2(BIL - (j + k)), BASE);
  }

  lemma FieldInts(v: nat, low: nat, w: nat, x: nat, rest: nat, z: nat, f: nat, g: nat, base: nat)
    requires low < w && 0 < z && 0 < f && base == z * f * g
    requires v == low + w * (x + base * rest)
    ensures v / (w * f) == z * (v / (w * (z * f))) + x / f % z
  {
    var h, b, r := FieldSplit(x, z, f);
    RestOfBase(z, f, g, rest);
    FieldSum(x, rest, z, f, g, h, b, r);
    TwoLevels(v, low, w, z, f, h + g * rest, b, r);
  }

  lemma FieldSplit(x: nat, z: nat, f: nat) returns (h: nat, b: nat, r: nat)
    requires 0 < z && 0 < f
    ensures x == f * (z * h + b) + r && r < f && b < z && x / f % z == b
  {
    var q := x / f;
    DivModBounds(x, f);
    DivModBounds(q, z);
    h, b, r := q / z, q % z, x % f;
  }

  lemma FieldSum(x: int, rest: int, z: int, f: int, g: int, h: int, b: int, r: int)
    requires x == f * (z * h + b) + r
    ensures x + f * (z * (g * rest)) == f * (z * (h + g * rest) + b) + r
  {
    MulDist(f, z * h + b, z * (g * rest));
    MulDist(z, h, g * rest);
  }

  lemma RestOfBase(z: nat, f: nat, g: nat, rest: nat)
    ensures z * f * g * rest == f * (z * (g * rest))
  {
    MulAssoc(z * f, g, rest);
    MulAssoc(z, f, g * rest);
    MulAssoc(f, z, g * rest);
  }

  lemma TwoLevels(v: nat, low: nat, w: nat, z: nat, f: nat, u: nat, b: nat, r: nat)
    requires low < w && r < f && b < z
    requires v == low + w * (f * (z * u + b) + r)
    ensures v / (w * f) == z * u + b && v / (w * (z * f)) == u
  {
    var rem := low + w * r;
    MulDist(w, f * (z * u + b), r);
    MulAssoc(w, f, z * u + b);
    MulMono(r + 1, f, w);
    MulDist(w, r, 1);
    MulNonNeg(w, r);
    OneLevel(v, w * f, z, u, b, rem);
    MulAssoc(z, w, f);
    MulAssoc(w, z, f);
  }

  lemma OneLevel(v: nat, d: nat, z: nat, u: nat, b: nat, rem: nat)
    requires rem < d && b < z && v == d * (z * u + b) + rem
    ensures v / d == z * u + b && v / (z * d) == u
  {
    DivModUnique(v, d, z * u + b, rem);
    MulDist(d, z * u, b);
    MulAssoc(d, z, u);
    MulNonNeg(d, b);
    MulMono(b + 1, z, d);
    MulDist(d, b, 1);
    DivModUnique(v, z * d, u, d * b + rem);
  }

  /** `mbedtls_mpi_get_bit` */
  method GetBit(X: Mpi, pos: nat) returns (b: nat)
    ensures b == Val(X.p) / Pow2(pos) % 2
  {
    hide Val, BPow, Pow2;
    if |X.p| * BIL <= pos {
      ValBound(X.p);
      BPowIsPow2(|X.p|);
      Pow2Monotonic(|X.p| * BIL, pos);
      DivModUnique(Val(X.p), Pow2(pos), 0, Val(X.p));
      return 0;
    }
    LimbOf(pos, |X.p|);
    var i, j := pos / BIL, pos % BIL;
    BitPosition(X.p, i, j);
    return X.p[i] / Pow2(j) % 2;
  }

  /** r is the number of zero bits below the lowest set bit of v; zero has none. */
  ghost predicate IsLsb(v: nat, r: nat, odd: nat) {
    if v == 0 then r == 0 else v == Pow2(r) * odd && odd % 2 == 1
  }

  lemma LsbIs(v: nat, r: nat, odd: nat)
    requires v > 0
    ensures IsLsb(v, r, odd) ==> v % Pow2(r) == 0 && v / Pow2(r) % 2 == 1
  {
    hide Pow2;
    if IsLsb(v, r, odd) {
      DivModUnique(v, Pow2(r), odd, 0);
    }
  }

  /** `mbedtls_mpi_lsb`; the ghost result is what remains after the zero bits. */
  method Lsb(X: Mpi) returns (count: nat, ghost odd: nat)
    ensures IsLsb(Val(X.p), count, odd)
    ensures Val(X.p) > 0 ==> count < |X.p| * BIL
  {
    hide Val, BPow, Pow2, AllZeroBelow;
    count := 0;
    odd := 0;
    var i := 0;
    ghost var v := Val(X.p);
    NoZeroBits(v);
    while i < |X.p|
      invariant i <= |X.p| && count == i * BIL
      invariant AllZeroBelow(v, count)
    {
      var j := 0;
      while j < BIL
        invariant j <= BIL && count == i * BIL + j
        invariant AllZeroBelow(v, count)
      {
        BitPosition(X.p, i, j);
        var bit := X.p[i] / Pow2(j) % 2;
        if bit != 0 {
          odd := LowestBit(v, count, bit);
          MulMono(i + 1, |X.p|, BIL);
          return;
        }
        ZeroBit(v, count);
        j := j + 1;
        count := count + 1;
      }
      i := i + 1;
    }
    ValBound(X.p);
    BPowIsPow2(|X.p|);
    NoBits(v, count);
    count := 0;
  }

  /** The low n bits of v are zero. */
  ghost predicate AllZeroBelow(v: nat, n: nat) {
    v == Pow2(n) * (v / Pow2(n))
  }

  lemma NoZeroBits(v: nat)
    ensures AllZeroBelow(v, 0)
  {
    DivByOne(v);
  }

  lemma ZeroBit(v: nat, n: nat)
    requires AllZeroBelow(v, n) && v / Pow2(n) == 2 * (v / Pow2(n + 1))
    ensures AllZeroBelow(v, n + 1)
  {
    hide Pow2;
    Pow2Next(n);
    MulAssoc(Pow2(n), 2, v / Pow2(n + 1));
  }

  lemma LowestBit(v: nat, n: nat, bit: nat) returns (odd: nat)
    requires AllZeroBelow(v, n) && v / Pow2(n) == 2 * (v / Pow2(n + 1)) + bit && bit == 1
    ensures IsLsb(v, n, odd) && v > 0
  {
    hide Pow2;
    odd := v / Pow2(n);
    MulMono(1, odd, Pow2(n));
  }

  lemma NoBits(v: nat, n: nat)
    requires AllZeroBelow(v, n) && v < Pow2(n)
    ensures v == 0
  {
    DivModUnique(v, Pow2(n), 0, v);
  }

  lemma DivByOne(v: nat)
    ensures v == 1 * (v / 1)
  {
  }

  /** Moves the limbs up by v0 places; the top ones are lost. */
  method LimbsUp(p0: seq<limb>, v0: nat) returns (p: seq<limb>)
    requires v0 <= |p0|
    ensures p == Zeros(v0) + p0[..|p0| - v0]
  {
    p := p0;
    var i := |p|;
    while i > v0
      invariant v0 <= i <= |p| == |p0|
      invariant forall k :: 0 <= k < i ==> p[k] == p0[k]
      invariant forall k :: i <= k < |p| ==> p[k] == p0[k - v0]
    {
      p := p[i - 1 := p[i - v0 - 1]];
      i := i - 1;
    }
    p := ClearLow(p, v0);
  }

  method ClearLow(p0: seq<limb>, n: nat) returns (p: seq<limb>)
    requires n <= |p0|
    ensures p == Zeros(n) + p0[n..]
  {
    p := p0;
    var i := n;
    while i > 0
      invariant 0 <= i <= n && |p| == |p0|
      invariant forall k :: i <= k < n ==> p[k] == 0
      invariant forall k :: n <= k < |p| ==> p[k] == p0[k]
    {
      p := p[i - 1 := 0];
      i := i - 1;
    }
  }

  /** Moves the limbs down by v0 places. */
  method LimbsDown(p0: seq<limb>, v0: nat) returns (p: seq<limb>)
    requires v0 <= |p0|
    ensures p == p0[v0..] + Zeros(v0)
  {
    p := p0;
    var i := 0;
    while i < |p| - v0
      invariant 0 <= i <= |p| - v0 && |p| == |p0|
      invariant forall k :: 0 <= k < i ==> p[k] == p0[k + v0]
      invariant forall k :: i <= k < |p| ==> p[k] == p0[k]
    {
      p := p[i := p[i + v0]];
      i := i + 1;
    }
    while i < |p|
      invariant |p| - v0 <= i <= |p| == |p0|
      invariant forall k :: 0 <= k < |p| - v0 ==> p[k] == p0[k + v0]
      invariant forall k :: |p| - v0 <= k < i ==> p[k] == 0
    {
      p := p[i := 0];
      i := i + 1;
    }
  }

  /** Shifts the limbs from v0 on left by t1 bits; what is shifted out at the top must be zero. */
  method BitsUp(p0: seq<limb>, v0: nat, t1: nat) returns (p: seq<limb>)
    requires v0 <= |p0| && 0 < t1 < BIL
    requires Val(p0[v0..]) * Pow2(t1) < BPow(|p0| - v0)
    ensures |p| == |p0| && p[..v0] == p0[..v0]
    ensures Val(p[v0..]) == Val(p0[v0..]) * Pow2(t1)
  {
    hide Val, BPow, Pow2;
    ghost var head, e := p0[..v0], p0[v0..];
    ghost var t: seq<limb> := [];
    p := p0;
    var r0: limb := 0;
    var i := v0;
    ValNone(e);
    while i < |p|
      invariant v0 <= i <= |p| == |p0| && |t| == i - v0
      invariant p == head + t + e[i - v0..]
      invariant r0 < Pow2(t1)
      invariant Val(t) + r0 * BPow(|t|) == Val(e[..|t|]) * Pow2(t1)
    {
      FillNext(p, head, t, e, i - v0, 0);
      var r1, x := ShiftLimb(p[i], t1);
      x := x + r0;
      ShiftUpColumn(t, e, r0, p[i], t1, x, r1);
      FillNext(p, head, t, e, i - v0, x);
      p := p[i := x];
      t := t + [x];
      r0, i := r1, i + 1;
    }
    assert e[..|t|] == e && p[v0..] == t && |t| == |e|;
    if r0 != 0 {
      MulMono(1, r0, BPow(|t|));
      assert false;
    }
  }

  lemma ShiftUpColumn(t: seq<limb>, e: seq<limb>, r0: limb, y: limb, t1: nat, x: limb, r1: limb)
    requires |t| < |e| && y == e[|t|]
    requires Val(t) + r0 * BPow(|t|) == Val(e[..|t|]) * Pow2(t1)
    requires Pair(r1, x) == y * Pow2(t1) + r0
    ensures Val(t + [x]) + r1 * BPow(|t| + 1) == Val(e[..|t| + 1]) * Pow2(t1)
  {
    hide Val, BPow, Pow2;
    ValPush(t, x);
    ValSnoc(e, |t|);
    BPowNext(|t|);
    ShiftUpInts(x, r1, y, r0, Pow2(t1), BASE, BPow(|t|), Val(e[..|t|]));
  }

  lemma ShiftUpInts(x: int, r1: int, y: int, r0: int, f: int, base: int, w: int, v: int)
    requires x == y * f + r0 - r1 * base
    ensures x * w + r1 * (w * base) == (v + y * w) * f - v * f + r0 * w
  {
  }

  /** Shifts a row that has room for the result: first by whole limbs, then by the remaining bits. */
  method RowUp(p0: seq<limb>, count: nat) returns (p: seq<limb>)
    requires Val(p0) * Pow2(count) < BPow(|p0|) && count / BIL <= |p0|
    ensures |p| == |p0| && Val(p) == Val(p0) * Pow2(count)
  {
    hide Val, BPow, Pow2;
    var v0, t1 := count / BIL, count % BIL;
    p := p0;
    CountSplit(count);
    if v0 > 0 {
      p := LimbsUp(p, v0);
    }
    ShiftedLimbs(p0, p, Val(p0), v0, t1);
    Pow2Zero();
    if t1 > 0 {
      p := BitsUp(p, v0, t1);
    }
    ShiftedTotal(p, Val(p0), v0, t1, count);
  }

  /** `mbedtls_mpi_shift_l` */
  method ShiftL(X: Mpi, count: nat) returns (r: Status)
    modifies X
    ensures r.Ok? || r.AllocFailed?
    ensures r.Ok? ==> X.s == old(X.s) && Val(X.p) == old(Val(X.p)) * Pow2(count)
    ensures r.Ok? ==> X.Int() == old(X.Int()) * Pow2(count)
    ensures r.Ok? ==> |X.p| == Max(old(|X.p|), BitsToLimbs(BitCount(old(Val(X.p))) + count))
  {
    hide Val, BPow, Pow2, BitCount;
    var n := BitLen(X);
    if |X.p| * BIL < n + count {
      :- X.Grow(BitsToLimbs(n + count));
    }
    ShiftRoom(Val(X.p), n, count, |X.p|);
    SignedScale(X.s, Val(X.p), Pow2(count));
    X.p := RowUp(X.p, count);
    return Ok;
  }

  lemma SignedScale(s: sign, v: nat, f: nat)
    ensures Signed(s, v) * f == if s == 1 then v * f else 0 - v * f
  {
  }

  lemma ShiftRoom(v: nat, n: nat, count: nat, limbs: nat)
    requires IsBitLen(v, n) && n + count <= limbs * BIL
    ensures v * Pow2(count) < BPow(limbs)
    ensures count / BIL <= limbs
  {
    hide BPow, Pow2;
    Pow2Add(n, count);
    Pow2Monotonic(n + count, limbs * BIL);
    BPowIsPow2(limbs);
    MulMono(v + 1, Pow2(n), Pow2(count));
    MulDist(Pow2(count), v, 1);
    assert count / BIL * BIL <= count <= limbs * BIL;
    var q := count / BIL;
    if q > limbs {
      MulMono(limbs + 1, q, BIL);
      MulDist(BIL, limbs, 1);
    }
  }

  lemma CountSplit(count: nat)
    ensures Pow2(count) == BPow(count / BIL) * Pow2(count % BIL)
  {
    hide BPow, Pow2;
    Pow2Add(count / BIL * BIL, count % BIL);
    BPowIsPow2(count / BIL);
  }

  lemma ShiftedLimbs(p0: seq<limb>, p: seq<limb>, v: nat, v0: nat, t1: nat)
    requires v0 <= |p0| && v == Val(p0) && v * (BPow(v0) * Pow2(t1)) < BPow(|p0|)
    requires p == Zeros(v0) + p0[..|p0| - v0]
    ensures p[..v0] == Zeros(v0) && Val(p[v0..]) == v && v * Pow2(t1) < BPow(|p0| - v0)
  {
    hide Val, BPow, Pow2;
    var m := |p0| - v0;
    assert p[v0..] == p0[..m];
    BPowAdd(v0, m);
    MulAssoc(BPow(v0), v, Pow2(t1));
    MulAssoc(v, BPow(v0), Pow2(t1));
    if v * Pow2(t1) >= BPow(m) {
      MulMono(BPow(m), v * Pow2(t1), BPow(v0));
      assert false;
    }
    MulMono(1, Pow2(t1), v);
    ValDivMod(p0, m);
    ValSplit(p0, m);
    if Val(p0[m..]) > 0 {
      MulMono(1, Val(p0[m..]), BPow(m));
    } else {
      assert BPow(m) * 0 == 0;
    }
  }

  lemma ShiftedTotal(p: seq<limb>, v: nat, v0: nat, t1: nat, count: nat)
    requires v0 == count / BIL && t1 == count % BIL && v0 <= |p|
    requires p[..v0] == Zeros(v0) && Val(p[v0..]) == v * Pow2(t1)
    ensures Val(p) == v * Pow2(count)
  {
    hide Val, BPow, Pow2;
    CountSplit(count);
    ValSplit(p, v0);
    ValZeros(v0);
    MulAssoc(v, BPow(v0), Pow2(t1));
    MulAssoc(BPow(v0), v, Pow2(t1));
  }

  /** `x >> v` and the bits it loses, moved to the top of a limb: `x << (biL - v)`. */
  method ShiftLimbDown(x: limb, v: nat) returns (rest: limb, lost: limb)
    requires 0 < v < BIL
    ensures x == rest * Pow2(v) + x % Pow2(v)
    ensures lost == x % Pow2(v) * Pow2(BIL - v)
    ensures rest < Pow2(BIL - v)
  {
    hide Pow2;
    var f, g := Pow2(v), Pow2(BIL - v);
    BaseIsPow2();
    Pow2Split(BIL, v);
    ShiftedOutDown(x, f, g);
    lost := Wrap(x * g);
    rest := x / f;
  }

  lemma ShiftedOutDown(x: limb, f: nat, g: nat)
    requires 0 < f && 0 < g && BASE == f * g
    ensures Wrap(x * g) == x % f * g
    ensures x == x / f * f + x % f && 0 <= x / f < g && 0 <= x / f <= x
  {
    ShiftedOut(x, g, f);
    DivModUnique(x * g, BASE, x / f, x % f * g);
    DivAtMost(x, f);
  }

  /** Writing the next limb of a part that is being filled from above. */
  lemma FillPrevious(p: seq<limb>, head: seq<limb>, done: seq<limb>, x: limb)
    requires p == head + done && |head| > 0
    ensures p[|head| - 1 := x] == head[..|head| - 1] + ([x] + done)
    ensures p[|head| - 1] == head[|head| - 1]
  {
  }

  /** One limb of a right shift: rho is the part of the limbs above that enters this limb. */
  lemma ShiftDownColumn(e: seq<limb>, k: nat, t: seq<limb>, v: nat, rho: nat, r0: limb, y: limb, x: limb)
    requires 0 < k <= |e| && 0 < v < BIL
    requires Val(e[k..]) == Pow2(v) * Val(t) + rho && r0 == rho * Pow2(BIL - v)
    requires e[k - 1] == y * Pow2(v) + e[k - 1] % Pow2(v) && x == y + r0
    ensures Val(e[k - 1..]) == Pow2(v) * Val([x] + t) + e[k - 1] % Pow2(v)
  {
    hide Val, BPow, Pow2;
    var c := e[k - 1..];
    assert c[1..] == e[k..];
    ValFirst(c);
    ValFirst([x] + t);
    assert ([x] + t)[1..] == t;
    BaseIsPow2();
    Pow2Split(BIL, v);
    ShiftDownInts(e[k - 1], Pow2(v), Pow2(BIL - v), y, e[k - 1] % Pow2(v), rho, Val(t), BASE);
  }

  lemma ShiftDownInts(c: int, f: int, g: int, y: int, m: int, rho: int, t: int, base: int)
    requires base == f * g && c == y * f + m
    ensures c + base * (f * t + rho) == f * ((y + rho * g) + base * t) + m
  {
    assert f * (rho * g) == base * rho;
    assert f * (base * t) == base * (f * t);
  }

  /** A shifted limb leaves room at the top for the bits that enter. */
  lemma RoomAtTop(y: nat, rho: nat, f: nat, g: nat)
    requires y < g && rho < f
    ensures y + rho * g < f * g
  {
    MulMono(rho + 1, f, g);
    MulDist(g, rho, 1);
  }

  method BitsDown(p0: seq<limb>, v: nat) returns (p: seq<limb>)
    requires 0 < v < BIL
    ensures |p| == |p0| && Val(p) == Val(p0) / Pow2(v)
  {
    hide Val, BPow, Pow2;
    p := p0;
    ghost var t: seq<limb> := [];
    ghost var rho: nat := 0;
    var r0: limb := 0;
    var k := |p|;
    assert p0[k..] == [];
    ValNone([]);
    BaseIsPow2();
    Pow2Split(BIL, v);
    while k > 0
      invariant 0 <= k <= |p0| && |t| == |p0| - k
      invariant p == p0[..k] + t
      invariant rho < Pow2(v) && r0 == rho * Pow2(BIL - v)
      invariant Val(p0[k..]) == Pow2(v) * Val(t) + rho
    {
      FillPrevious(p, p0[..k], t, 0);
      var y, r1 := ShiftLimbDown(p[k - 1], v);
      RoomAtTop(y, rho, Pow2(v), Pow2(BIL - v));
      var x: limb := y + r0;
      ShiftDownColumn(p0, k, t, v, rho, r0, y, x);
      FillPrevious(p, p0[..k], t, x);
      rho := p[k - 1] % Pow2(v);
      p := p[k - 1 := x];
      t := [x] + t;
      r0, k := r1, k - 1;
    }
    assert p0[0..] == p0 && p == t;
    DivModUnique(Val(p0), Pow2(v), Val(t), rho);
  }

  method RowDown(p0: seq<limb>, count: nat) returns (p: seq<limb>)
    requires count / BIL <= |p0|
    ensures |p| == |p0| && Val(p) == Val(p0) / Pow2(count)
  {
    hide Val, BPow, Pow2;
    var v0, v1 := count / BIL, count % BIL;
    CountSplit(count);
    p := p0;
    if v0 > 0 {
      p := LimbsDown(p, v0);
      ValGrow(p0[v0..], v0);
    } else {
      assert p0[0..] == p0;
    }
    ValDivMod(p0, v0);
    ghost var high := Val(p);
    if v1 > 0 {
      p := BitsDown(p, v1);
    } else {
      Pow2Zero();
      DivByOne(high);
    }
    DivTwice(Val(p0), BPow(v0), Pow2(v1));
  }

  lemma DivTwice(x: nat, a: nat, b: nat)
    requires 0 < a && 0 < b
    ensures 0 < a * b && x / a / b == x / (a * b)
  {
    MulMono(1, a, b);
    var q, r := x / a, x % a;
    var u, w := q / b, q % b;
    MulDist(a, b * u, w);
    MulAssoc(a, b, u);
    MulMono(w + 1, b, a);
    MulDist(a, w, 1);
    MulNonNeg(a, w);
    DivModUnique(x, a * b, u, a * w + r);
  }

  /** `mbedtls_mpi_shift_r`: the magnitude is halved `count` times, rounding down. */
  method ShiftR(X: Mpi, count: nat) returns (r: Status)
    modifies X
    ensures r.Ok? || r.AllocFailed?
    ensures r.Ok? ==> Val(X.p) == old(Val(X.p)) / Pow2(count)
    ensures r.Ok? && (Val(X.p) != 0 || old(X.s) == 1) ==> X.s == old(X.s)
    ensures r.Ok? ==> |X.p| >= old(|X.p|)
    ensures count / BIL < old(|X.p|) ==> r.Ok? && |X.p| == old(|X.p|) && X.s == old(X.s)
  {
    hide Val, BPow, Pow2;
    var v0, v1 := count / BIL, count % BIL;
    if v0 > |X.p| || (v0 == |X.p| && v1 > 0) {
      ShiftedAway(X.p, count);
      r := X.Lset(0);
      return;
    }
    X.p := RowDown(X.p, count);
    return Ok;
  }

  lemma ShiftedAway(p: seq<limb>, count: nat)
    requires |p| * BIL <= count
    ensures Val(p) / Pow2(count) == 0
  {
    hide Val, BPow, Pow2;
    ValBound(p);
    BPowIsPow2(|p|);
    Pow2Monotonic(|p| * BIL, count);
    DivModUnique(Val(p), Pow2(count), 0, Val(p));
  }
}
