/** Modular exponentiation with a sliding window, `mbedtls_mpi_exp_mod`. */
module MpiExp {
  import opened Words
  import opened Products
  import opened Limbs
  import opened Congruence
  import opened Status
  import opened MpiModule
  import opened MpiBits
  import opened MpiDiv
  import opened Montgomery
  import Divisibility

  /** `mm` and `h` are what `MontgInit` returns for the odd modulus N. */
  ghost predicate Modulus(n: seq<limb>, mm: limb, h: int) {
    |n| > 0 && n[0] * mm + 1 == h * BASE && Val(n) > 0 && Val(n) % 2 == 1
  }

  /** p is v in Montgomery form: v times b^n modulo N, with N of n limbs. */
  ghost predicate MontForm(p: seq<limb>, n: seq<limb>, v: int) {
    |p| > 0 && Val(p) <= Val(n) && Cong(Val(p), v * BPow(|n|), Val(n))
  }

  ghost predicate Reduced(p: seq<limb>, n: seq<limb>) {
    |p| >= |n| && Val(p) < Val(n)
  }

  /** A power of two is invertible modulo an odd number. */
  lemma {:induction false} Pow2Inverse(m: nat, n: nat) returns (u: int)
    requires n % 2 == 1
    ensures Cong(Pow2(m) * u, 1, n)
  {
    if m == 0 {
      u := 1;
      CongRefl(1, n);
    } else {
      var w := Pow2Inverse(m - 1, n);
      var half := (n + 1) / 2;
      u := half * w;
      CongIntro(2 * half, 1, n, 1);
      CongMul(2 * half, 1, Pow2(m - 1) * w, 1, n);
      FourFactors(2, half, Pow2(m - 1), w);
    }
  }

  lemma RadixInverse(n: seq<limb>) returns (u: int)
    requires Val(n) % 2 == 1
    ensures Cong(BPow(|n|) * u, 1, Val(n))
  {
    hide Val, BPow, Pow2, Cong;
    BPowIsPow2(|n|);
    u := Pow2Inverse(|n| * BIL, Val(n));
  }

  /** The value a Montgomery form stands for only matters modulo N. */
  lemma FormCong(p: seq<limb>, n: seq<limb>, v: int, w: int)
    requires MontForm(p, n, v) && Cong(v, w, Val(n))
    ensures MontForm(p, n, w)
  {
    hide Val, BPow, Cong;
    CongScale(v, w, BPow(|n|), Val(n));
    CongTrans(Val(p), v * BPow(|n|), w * BPow(|n|), Val(n));
  }

  /** x * R is congruent to (a R)(b R), so x is congruent to a b R. */
  lemma FormProduct(x: int, xa: int, xb: int, a: int, b: int, r: int, u: int, n: int)
    requires Cong(x * r, xa * xb, n) && Cong(xa, a * r, n) && Cong(xb, b * r, n) && Cong(r * u, 1, n)
    ensures Cong(x, a * b * r, n)
  {
    hide Cong;
    CongMul(xa, a * r, xb, b * r, n);
    CongTrans(x * r, xa * xb, (a * r) * (b * r), n);
    FourFactors(a, r, b, r);
    MulAssoc(a * b, r, r);
    CongCancel(x, a * b * r, r, u, n);
  }

  /** Montgomery multiplication of Montgomery forms; the operands may coincide. */
  method MontProduct(A: Mpi, B: Mpi, N: Mpi, mm: limb, ghost h: int, T: Mpi, ghost a: int, ghost b: int)
    requires T != A && T != B && T != N && A != N
    requires Modulus(N.p, mm, h) && |T.p| >= 2 * (|N.p| + 1)
    requires Reduced(A.p, N.p) && MontForm(A.p, N.p, a) && MontForm(B.p, N.p, b)
    modifies A, T
    ensures |T.p| == old(|T.p|) && |A.p| == old(|A.p|) && A.s == old(A.s)
    ensures Reduced(A.p, N.p) && MontForm(A.p, N.p, a * b)
  {
    hide Val, BPow, Cong;
    ghost var xa, xb, low := Val(A.p), Val(B.p), A.p[|N.p|..];
    LowPart(A.p, N.p);
    MontMul(A, B, N, mm, h, T);
    assert A.p[|N.p|..] == low;
    ValSplit(A.p, |N.p|);
    ValZeros(|low|);
    ghost var u := RadixInverse(N.p);
    FormProduct(Val(A.p), xa, xb, a, b, BPow(|N.p|), u, Val(N.p));
  }

  lemma LowPart(p: seq<limb>, n: seq<limb>)
    requires Reduced(p, n)
    ensures p[|n|..] == Zeros(|p| - |n|) && Val(p[..|n|]) == Val(p)
  {
    hide Val, BPow;
    ValBound(n);
    ZerosAbove(p, |n|);
    ValTrim(p, |n|);
  }

  /** `mpi_montred`: multiplies by one, which takes the form off. */
  method MontRed(A: Mpi, N: Mpi, mm: limb, ghost h: int, T: Mpi, ghost a: int)
    requires T != A && T != N && A != N
    requires Modulus(N.p, mm, h) && |T.p| >= 2 * (|N.p| + 1)
    requires Reduced(A.p, N.p) && Cong(Val(A.p), a * BPow(|N.p|), Val(N.p))
    modifies A, T
    ensures |T.p| == old(|T.p|) && |A.p| == old(|A.p|) && A.s == old(A.s)
    ensures Reduced(A.p, N.p) && Cong(Val(A.p), a, Val(N.p))
  {
    hide Val, BPow, Cong;
    var U := new Mpi();
    U.p := [1];
    ValOne(1);
    ghost var u := RadixInverse(N.p);
    ghost var r := BPow(|N.p|);
    CongSwap(r, u, Val(N.p));
    MontProduct(A, U, N, mm, h, T, a, u);
    // A is congruent to (a u) R
    MulAssoc(a, u, r);
    CongScale(u * r, 1, a, Val(N.p));
    CongTrans(Val(A.p), a * (u * r), a, Val(N.p));
  }

  lemma CongSwap(r: int, u: int, n: int)
    requires Cong(r * u, 1, n)
    ensures Cong(u * r, 1, n) && Cong(1, u * r, n)
  {
    CongSym(r * u, 1, n);
  }

  // ---------- the table of window powers ----------

  const WINDOW_SIZE: Window
  type Window = w: nat | 1 <= w <= 6 witness 6
  const MAX_BITS := 8192

  /** `mbedtls_mpi_safe_cond_assign` */
  method SafeCondAssign(X: Mpi, Y: Mpi, assign: limb) returns (r: Status)
    requires X != Y && assign <= 1
    modifies X
    ensures r.Ok? || r.AllocFailed?
    ensures r.Ok? ==> |X.p| == Max(old(|X.p|), |Y.p|)
    ensures r.Ok? ==> Val(X.p) == if assign == 1 then Val(Y.p) else old(Val(X.p))
    ensures r.Ok? ==> X.s == if assign == 1 then Y.s else old(X.s)
  {
    hide Val, BPow;
    :- X.Grow(|Y.p|);
    X.s := if assign == 1 then Y.s else X.s;
    X.p := CondAssign(|Y.p|, X.p, Y.p, assign);
    var keep: limb := if assign == 1 then 0 else BASE - 1;
    ghost var p0 := X.p;
    var i := |Y.p|;
    while i < |X.p|
      invariant |Y.p| <= i <= |X.p| == |p0| && X.s == if assign == 1 then Y.s else old(X.s)
      invariant forall k :: 0 <= k < |Y.p| || i <= k < |p0| ==> X.p[k] == p0[k]
      invariant forall k :: |Y.p| <= k < i ==> X.p[k] == AndMask(p0[k], keep)
    {
      X.p := X.p[i := AndMask(X.p[i], keep)];
      i := i + 1;
    }
    if assign == 1 {
      assert X.p[..|Y.p|] == Y.p;
      ValTrim(X.p, |Y.p|);
    } else {
      assert X.p == p0;
    }
    return Ok;
  }

  /** `mpi_select`: reads the whole table and keeps entry idx. */
  method Select(R: Mpi, W: seq<Mpi>, idx: nat) returns (r: Status)
    requires idx < |W| && R !in W
    modifies R
    ensures r.Ok? || r.AllocFailed?
    ensures r.Ok? ==> Val(R.p) == Val(W[idx].p) && |R.p| >= |W[idx].p|
  {
    hide Val;
    var i := 0;
    while i < |W|
      invariant 0 <= i <= |W|
      invariant i > idx ==> Val(R.p) == Val(W[idx].p) && |R.p| >= |W[idx].p|
    {
      :- SafeCondAssign(R, W[i], if i == idx then 1 else 0);
      i := i + 1;
    }
    return Ok;
  }

  /** Fresh, empty big numbers, all different. */
  method NewTable(size: nat) returns (W: seq<Mpi>)
    ensures |W| == size
    ensures forall k :: 0 <= k < size ==> fresh(W[k]) && W[k].p == [] && W[k].s == 1
    ensures forall k, l :: 0 <= k < l < size ==> W[k] != W[l]
  {
    W := [];
    while |W| < size
      invariant |W| <= size
      invariant forall k :: 0 <= k < |W| ==> fresh(W[k]) && W[k].p == [] && W[k].s == 1
      invariant forall k, l :: 0 <= k < l < |W| ==> W[k] != W[l]
    {
      var M := new Mpi();
      W := W + [M];
    }
  }

  /** M is entry k of the table: the k-th power in Montgomery form. */
  ghost predicate Entry(M: Mpi, k: nat, n: seq<limb>, a: int)
    reads M
  {
    Reduced(M.p, n) && MontForm(M.p, n, Power(a, k))
  }

  lemma PowerStep(a: int, d: nat, e: nat)
    ensures Power(a, d) * Power(a, e) == Power(a, d + e)
    ensures Power(a, d) * Power(a, 1) == Power(a, d + 1)
  {
    PowerAdd(a, d, e);
    PowerAdd(a, d, 1);
  }

  /** X = X^(2^count), by repeated squaring. */
  method SquareRepeatedly(X: Mpi, N: Mpi, mm: limb, ghost h: int, T: Mpi, count: nat, ghost a: int, ghost d: nat)
    requires T != X && T != N && X != N
    requires Modulus(N.p, mm, h) && |T.p| >= 2 * (|N.p| + 1)
    requires Reduced(X.p, N.p) && MontForm(X.p, N.p, Power(a, d))
    modifies X, T
    ensures |T.p| == old(|T.p|) && |X.p| == old(|X.p|) && X.s == old(X.s)
    ensures Reduced(X.p, N.p) && MontForm(X.p, N.p, Power(a, d * Pow2(count)))
  {
    hide Val, BPow, Cong, Pow2, Modulus, MontForm, Reduced, Power;
    var i := 0;
    ghost var e := d;
    Pow2Zero();
    while i < count
      invariant 0 <= i <= count && e == d * Pow2(i)
      invariant |T.p| == old(|T.p|) && |X.p| == old(|X.p|) && X.s == old(X.s)
      invariant Reduced(X.p, N.p) && MontForm(X.p, N.p, Power(a, e))
    {
      MontProduct(X, X, N, mm, h, T, Power(a, e), Power(a, e));
      PowerStep(a, e, e);
      Pow2Next(i);
      MulAssoc(d, Pow2(i), 2);
      e := e + e;
      i := i + 1;
    }
  }

  /** Starts entry i as a copy of entry k, long enough for Montgomery multiplication. */
  method CopyEntry(W: seq<Mpi>, i: nat, k: nat, N: Mpi, ghost v: int) returns (r: Status)
    requires i < |W| && k < |W| && W[i] != W[k] && W[i] != N
    requires Reduced(W[k].p, N.p) && MontForm(W[k].p, N.p, v)
    modifies W[i]
    ensures r.Ok? || r.AllocFailed?
    ensures r.Ok? ==> Reduced(W[i].p, N.p) && MontForm(W[i].p, N.p, v)
  {
    hide Val, BPow, Cong;
    :- W[i].Grow(|N.p| + 1);
    :- W[i].Copy(W[k]);
    return Ok;
  }

  /** Fills the entries from 2^(wsize-1) on; entry 1 is there already. */
  method FillTable(W: seq<Mpi>, wsize: nat, N: Mpi, mm: limb, ghost h: int, T: Mpi, ghost a: int) returns (r: Status)
    requires 1 < wsize && |W| >= Pow2(wsize) && |W| >= 2
    requires forall k, l :: 0 <= k < l < |W| ==> W[k] != W[l]
    requires N !in W && T !in W && T != N
    requires Modulus(N.p, mm, h) && |T.p| >= 2 * (|N.p| + 1)
    requires Entry(W[1], 1, N.p, a)
    modifies W, T
    ensures r.Ok? || r.AllocFailed?
    ensures r.Ok? ==> Entry(W[1], 1, N.p, a) && |T.p| == old(|T.p|)
    ensures r.Ok? ==> forall k :: Pow2(wsize - 1) <= k < Pow2(wsize) ==> Entry(W[k], k, N.p, a)
  {
    hide Val, BPow, Cong, Pow2, Modulus, MontForm, Reduced, Power;
    var j := Pow2(wsize - 1);
    Pow2StrictlyMonotonic(0, wsize - 1);
    Pow2Zero();
    Pow2Next(wsize - 1);
    :- CopyEntry(W, j, 1, N, Power(a, 1));
    SquareRepeatedly(W[j], N, mm, h, T, wsize - 1, a, 1);
    var i := j + 1;
    while i < Pow2(wsize)
      invariant j + 1 <= i <= Pow2(wsize) && |T.p| == old(|T.p|)
      invariant Entry(W[1], 1, N.p, a)
      invariant forall k :: j <= k < i ==> Entry(W[k], k, N.p, a)
    {
      :- CopyEntry(W, i, i - 1, N, Power(a, i - 1));
      MontProduct(W[i], W[1], N, mm, h, T, Power(a, i - 1), Power(a, 1));
      PowerStep(a, i - 1, 1);
      i := i + 1;
    }
    return Ok;
  }

  // ---------- the window ----------

  /** All entries that a window can ask for. */
  ghost predicate Table(W: seq<Mpi>, wsize: nat, n: seq<limb>, a: int)
    reads W
  {
    |W| >= Pow2(wsize) && |W| >= 2 && wsize >= 1 && Entry(W[1], 1, n, a) &&
    forall k :: Pow2(wsize - 1) <= k < Pow2(wsize) ==> Entry(W[k], k, n, a)
  }

  /**
    The bits read so far are d followed by nbits pending ones, which make pend and stand left-aligned in
    wbits.  The first pending bit is set.  State 0: only zeros so far; 1: no window open; 2: window open.
   */
  ghost predicate WindowState(state: nat, nbits: nat, wbits: nat, wsize: nat, d: nat, pend: nat) {
    nbits < wsize && pend < Pow2(nbits) && (nbits > 0 ==> Pow2(nbits - 1) <= pend) &&
    wbits == pend * Pow2(wsize - nbits) &&
    state <= 2 && (state == 2 <==> nbits > 0) && (state == 0 ==> d == 0)
  }

  /** A bit that is added to the window. */
  lemma OpenWindow(state: nat, nbits: nat, wbits: nat, wsize: nat, d: nat, pend: nat, ei: nat)
    requires WindowState(state, nbits, wbits, wsize, d, pend) && ei <= 1 && (ei == 1 || state == 2)
    ensures nbits < wsize
    ensures var w := wbits + ei * Pow2(wsize - (nbits + 1));
            if nbits + 1 < wsize then WindowState(2, nbits + 1, w, wsize, d, 2 * pend + ei)
            else w == 2 * pend + ei && Pow2(wsize - 1) <= w < Pow2(wsize)
    ensures d * Pow2(nbits + 1) + (2 * pend + ei) == 2 * (d * Pow2(nbits) + pend) + ei
  {
    Pow2Next(nbits);
    Pow2Next(wsize - nbits - 1);
    if nbits > 0 {
      Pow2Next(nbits - 1);
    }
    OpenInts(d, Pow2(nbits), pend, ei, Pow2(wsize - nbits - 1));
    Pow2Zero();
  }

  lemma ClosedWindow(state: nat, wsize: nat, d: nat)
    requires 0 < wsize && state <= 1 && (state == 0 ==> d == 0)
    ensures WindowState(state, 0, 0, wsize, d, 0)
    ensures d * Pow2(0) + 0 == d
  {
    Pow2Zero();
  }

  /** Outside a window there are no pending bits. */
  lemma NoWindow(state: nat, nbits: nat, wbits: nat, wsize: nat, d: nat, pend: nat)
    requires WindowState(state, nbits, wbits, wsize, d, pend)
    ensures 0 < wsize && state <= 2
    ensures state < 2 ==> nbits == 0 && wbits == 0 && pend == 0 && (state == 0 ==> d == 0) && d * Pow2(nbits) + pend == d
  {
    Pow2Zero();
  }

  lemma OpenInts(d: int, p: int, pend: int, ei: int, w: int)
    ensures d * (2 * p) + (2 * pend + ei) == 2 * (d * p + pend) + ei
    ensures pend * (2 * w) + ei * w == (2 * pend + ei) * w
  {
  }

  /** X = X^(2^wsize) * W[wbits] */
  method CloseWindow(X: Mpi, W: seq<Mpi>, WW: Mpi, wsize: nat, wbits: nat, N: Mpi, mm: limb, ghost h: int, T: Mpi,
                     ghost a: int, ghost d: nat) returns (r: Status)
    requires X !in W && WW !in W && T !in W && N !in W && X != WW && X != T && X != N && WW != T && WW != N && T != N
    requires Modulus(N.p, mm, h) && |T.p| >= 2 * (|N.p| + 1) && Table(W, wsize, N.p, a)
    requires Reduced(X.p, N.p) && MontForm(X.p, N.p, Power(a, d))
    requires Pow2(wsize - 1) <= wbits < Pow2(wsize)
    modifies X, T, WW
    ensures r.Ok? || r.AllocFailed?
    ensures r.Ok? ==> |T.p| == old(|T.p|) && |X.p| == old(|X.p|) && X.s == old(X.s)
    ensures r.Ok? ==> Reduced(X.p, N.p) && MontForm(X.p, N.p, Power(a, d * Pow2(wsize) + wbits))
  {
    hide Val, BPow, Cong, Pow2, Modulus, Power;
    SquareRepeatedly(X, N, mm, h, T, wsize, a, d);
    assert Entry(W[wbits], wbits, N.p, a);
    :- Select(WW, W[..Pow2(wsize)], wbits);
    MontProduct(X, WW, N, mm, h, T, Power(a, d * Pow2(wsize)), Power(a, wbits));
    PowerStep(a, d * Pow2(wsize), wbits);
    return Ok;
  }

  /** What the loop does with one bit of the exponent. */
  method TakeBit(ei: nat, X: Mpi, W: seq<Mpi>, WW: Mpi, wsize: nat, state: nat, nbits: nat, wbits: nat,
                 N: Mpi, mm: limb, ghost h: int, T: Mpi, ghost a: int, ghost d: nat, ghost pend: nat)
    returns (r: Status, state': nat, nbits': nat, wbits': nat, ghost d': nat, ghost pend': nat)
    requires X !in W && WW !in W && T !in W && N !in W && X != WW && X != T && X != N && WW != T && WW != N && T != N
    requires Modulus(N.p, mm, h) && |T.p| >= 2 * (|N.p| + 1) && Table(W, wsize, N.p, a)
    requires Reduced(X.p, N.p) && MontForm(X.p, N.p, Power(a, d))
    requires WindowState(state, nbits, wbits, wsize, d, pend) && ei <= 1
    modifies X, T, WW
    ensures r.Ok? || r.AllocFailed?
    ensures r.Ok? ==> |T.p| == old(|T.p|) && |X.p| == old(|X.p|) && X.s == old(X.s)
    ensures r.Ok? ==> Reduced(X.p, N.p) && MontForm(X.p, N.p, Power(a, d'))
    ensures r.Ok? ==> WindowState(state', nbits', wbits', wsize, d', pend')
    ensures r.Ok? ==> d' * Pow2(nbits') + pend' == 2 * (d * Pow2(nbits) + pend) + ei
  {
    hide Val, BPow, Cong, Pow2, Modulus, Power, MontForm, Reduced, Table, WindowState;
    r, state', nbits', wbits', d', pend' := Ok, state, nbits, wbits, d, pend;
    NoWindow(state, nbits, wbits, wsize, d, pend);
    if ei == 0 && state == 0 {
      return;
    }
    if ei == 0 && state == 1 {
      MontProduct(X, X, N, mm, h, T, Power(a, d), Power(a, d));
      PowerStep(a, d, d);
      d' := d + d;
      ClosedWindow(1, wsize, d');
      return;
    }
    OpenWindow(state, nbits, wbits, wsize, d, pend, ei);
    state' := 2;
    nbits' := nbits + 1;
    wbits' := wbits + ei * Pow2(wsize - nbits');
    pend' := 2 * pend + ei;
    if nbits' == wsize {
      r := CloseWindow(X, W, WW, wsize, wbits', N, mm, h, T, a, d);
      d' := d * Pow2(wsize) + wbits';
      state', nbits', wbits', pend' := 1, 0, 0, 0;
      ClosedWindow(1, wsize, d');
    }
  }

  /** The main loop: reads the limbs of E from the top, bit by bit. */
  method ScanExponent(E: Mpi, X: Mpi, W: seq<Mpi>, WW: Mpi, wsize: nat, N: Mpi, mm: limb, ghost h: int, T: Mpi, ghost a: int)
    returns (r: Status, nbits: nat, wbits: nat, ghost d: nat, ghost pend: nat)
    requires X !in W && WW !in W && T !in W && N !in W && X != WW && X != T && X != N && WW != T && WW != N && T != N
    requires E != X && E != WW && E != T
    requires Modulus(N.p, mm, h) && |T.p| >= 2 * (|N.p| + 1) && Table(W, wsize, N.p, a)
    requires Reduced(X.p, N.p) && MontForm(X.p, N.p, Power(a, 0))
    modifies X, T, WW
    ensures r.Ok? || r.AllocFailed?
    ensures r.Ok? ==> |T.p| == old(|T.p|) && |X.p| == old(|X.p|) && X.s == old(X.s)
    ensures r.Ok? ==> Reduced(X.p, N.p) && MontForm(X.p, N.p, Power(a, d))
    ensures r.Ok? ==> nbits < wsize && pend < Pow2(nbits) && wbits == pend * Pow2(wsize - nbits)
    ensures r.Ok? ==> d * Pow2(nbits) + pend == Val(E.p)
  {
    hide Val, BPow, Cong, Pow2, Modulus, Power, MontForm, Reduced, WindowState, Table;
    var nblimbs: nat, bufsize: nat, state: nat := |E.p|, 0, 0;
    nbits, wbits, d, pend := 0, 0, 0, 0;
    BeyondTop(E.p);
    TableWindow(W, wsize, N.p, a);
    ClosedWindow(0, wsize, 0);
    r := Ok;
    while nblimbs > 0 || bufsize > 0
      invariant r.Ok? && nblimbs <= |E.p| && bufsize <= BIL && (nblimbs == |E.p| ==> bufsize == 0)
      invariant |T.p| == old(|T.p|) && |X.p| == old(|X.p|) && X.s == old(X.s)
      invariant Reduced(X.p, N.p) && MontForm(X.p, N.p, Power(a, d))
      invariant WindowState(state, nbits, wbits, wsize, d, pend)
      invariant d * Pow2(nbits) + pend == Val(E.p) / Pow2(nblimbs * BIL + bufsize)
      decreases nblimbs, bufsize
    {
      if bufsize == 0 {
        nblimbs := nblimbs - 1;
        bufsize := BIL;
      }
      bufsize := bufsize - 1;
      BitPosition(E.p, nblimbs, bufsize);
      var ei := E.p[nblimbs] / Pow2(bufsize) % 2;
      r, state, nbits, wbits, d, pend := TakeBit(ei, X, W, WW, wsize, state, nbits, wbits, N, mm, h, T, a, d, pend);
      if !r.Ok? {
        return;
      }
    }
    assert nblimbs * BIL + bufsize == 0;
    Pow2Zero();
    DivByOne(Val(E.p));
    WindowFacts(state, nbits, wbits, wsize, d, pend);
  }

  lemma WindowFacts(state: nat, nbits: nat, wbits: nat, wsize: nat, d: nat, pend: nat)
    requires WindowState(state, nbits, wbits, wsize, d, pend)
    ensures nbits < wsize && pend < Pow2(nbits) && wbits == pend * Pow2(wsize - nbits)
  {
  }

  lemma TableWindow(W: seq<Mpi>, wsize: nat, n: seq<limb>, a: int)
    requires Table(W, wsize, n, a)
    ensures 0 < wsize
  {
  }

  lemma BeyondTop(p: seq<limb>)
    ensures Val(p) / Pow2(|p| * BIL) == 0
  {
    hide Val, BPow, Pow2;
    ValBound(p);
    BPowIsPow2(|p|);
    DivModUnique(Val(p), Pow2(|p| * BIL), 0, Val(p));
  }

  // ---------- the remaining bits ----------

  /** The bit that the shifted window shows at position wsize is the next pending bit. */
  lemma PendingBit(pend: nat, nbits: nat, i: nat, wsize: nat)
    requires i < nbits < wsize && pend < Pow2(nbits)
    ensures pend * Pow2(wsize - nbits) * Pow2(i + 1) / Pow2(wsize) == pend / Pow2(nbits - i - 1)
    ensures pend / Pow2(nbits - i - 1) == 2 * (pend / Pow2(nbits - i)) + pend / Pow2(nbits - i - 1) % 2
  {
    hide Pow2;
    Pow2Add(wsize - nbits, i + 1);
    Pow2Add(wsize - nbits + i + 1, nbits - i - 1);
    var k := nbits - i - 1;
    Pow2Next(k);
    MulAssoc(pend, Pow2(wsize - nbits), Pow2(i + 1));
    CommonFactor(pend, Pow2(k), Pow2(wsize - nbits + i + 1));
    HalfOfQuotient(pend, Pow2(k));
  }

  lemma CommonFactor(x: nat, c: nat, f: nat)
    requires 0 < c && 0 < f
    ensures 0 < f * c && x * f / (f * c) == x / c
  {
    var q, r := x / c, x % c;
    MulMono(1, f, c);
    MulDist(f, c * q, r);
    MulAssoc(f, c, q);
    MulMono(r + 1, c, f);
    MulDist(f, r, 1);
    MulNonNeg(r, f);
    DivModUnique(x * f, f * c, q, r * f);
  }

  lemma HalfOfQuotient(x: nat, c: nat)
    requires 0 < c
    ensures x / c == 2 * (x / (2 * c)) + x / c % 2
  {
    var q, r := x / c, x % c;
    var h, b := q / 2, q % 2;
    MulDist(c, 2 * h, b);
    MulAssoc(c, 2, h);
    DivModBounds(x, c);
    MulMono(b, 1, c);
    DivModUnique(x, 2 * c, h, c * b + r);
  }

  /** The bits still pending after the main loop, one at a time. */
  method FinishBits(X: Mpi, W1: Mpi, wsize: nat, nbits: nat, wbits0: nat, N: Mpi, mm: limb, ghost h: int, T: Mpi,
                    ghost a: int, ghost d: nat, ghost pend: nat)
    requires X != W1 && T != W1 && N != W1 && X != T && X != N && T != N
    requires Modulus(N.p, mm, h) && |T.p| >= 2 * (|N.p| + 1) && Entry(W1, 1, N.p, a)
    requires Reduced(X.p, N.p) && MontForm(X.p, N.p, Power(a, d))
    requires nbits < wsize && pend < Pow2(nbits) && wbits0 == pend * Pow2(wsize - nbits)
    modifies X, T
    ensures |T.p| == old(|T.p|) && |X.p| == old(|X.p|) && X.s == old(X.s)
    ensures Reduced(X.p, N.p) && MontForm(X.p, N.p, Power(a, d * Pow2(nbits) + pend))
  {
    hide Val, BPow, Cong, Pow2, Modulus, Power, MontForm, Reduced;
    var wbits := wbits0;
    ghost var e := d;
    var i := 0;
    StartPending(pend, nbits, wbits0, d);
    while i < nbits
      invariant 0 <= i <= nbits && wbits == wbits0 * Pow2(i)
      invariant e == d * Pow2(i) + pend / Pow2(nbits - i)
      invariant |T.p| == old(|T.p|) && |X.p| == old(|X.p|) && X.s == old(X.s)
      invariant Reduced(X.p, N.p) && MontForm(X.p, N.p, Power(a, e))
    {
      MontProduct(X, X, N, mm, h, T, Power(a, e), Power(a, e));
      PowerStep(a, e, e);
      NextPending(pend, nbits, i, wsize, wbits0, d);
      wbits := wbits * 2;
      e := e + e;
      if wbits / Pow2(wsize) % 2 != 0 {
        MontProduct(X, W1, N, mm, h, T, Power(a, e), Power(a, 1));
        PowerStep(a, e, 1);
        e := e + 1;
      }
      i := i + 1;
    }
    EndPending(pend);
  }

  lemma StartPending(pend: nat, nbits: nat, w: nat, d: nat)
    requires pend < Pow2(nbits)
    ensures d == d * Pow2(0) + pend / Pow2(nbits) && w == w * Pow2(0)
  {
    Pow2Zero();
    DivModUnique(pend, Pow2(nbits), 0, pend);
  }

  lemma EndPending(pend: nat)
    ensures pend / Pow2(0) == pend
  {
    Pow2Zero();
    DivByOne(pend);
  }

  lemma NextPending(pend: nat, nbits: nat, i: nat, wsize: nat, w: nat, d: nat)
    requires i < nbits < wsize && pend < Pow2(nbits) && w == pend * Pow2(wsize - nbits)
    ensures w * Pow2(i) * 2 == w * Pow2(i + 1)
    ensures 2 * (d * Pow2(i) + pend / Pow2(nbits - i)) + w * Pow2(i) * 2 / Pow2(wsize) % 2
         == d * Pow2(i + 1) + pend / Pow2(nbits - i - 1)
  {
    hide Pow2;
    PendingBit(pend, nbits, i, wsize);
    Pow2Next(i);
    MulAssoc(w, Pow2(i), 2);
    MulAssoc(d, Pow2(i), 2);
  }

  // ---------- the whole function ----------

  /** What an earlier call with this modulus leaves in `prec_RR`: the square of the radix power, reduced. */
  ghost predicate IsSquaredRadix(s: sign, p: seq<limb>, n: seq<limb>) {
    |p| > 0 && s == 1 && Val(n) > 0 && Val(p) < Val(n) && Cong(Val(p), BPow(|n|) * BPow(|n|), Val(n))
  }

  method SquaredRadix(RR: Mpi, prec: Mpi?, N: Mpi) returns (r: Status)
    requires RR != N && RR.p == [] && (prec != null ==> prec != RR && prec != N)
    requires N.Int() == Val(N.p) > 0
    requires prec != null && |prec.p| > 0 ==> IsSquaredRadix(prec.s, prec.p, N.p)
    modifies RR, prec
    ensures r.Ok? || r.AllocFailed?
    ensures r.Ok? ==> IsSquaredRadix(RR.s, RR.p, N.p)
    ensures r.Ok? && prec != null ==> IsSquaredRadix(prec.s, prec.p, N.p)
    ensures prec != null && old(|prec.p|) > 0 ==> prec.s == old(prec.s) && prec.p == old(prec.p)
  {
    hide Val, BPow, Pow2, BitCount, BitsToLimbs, Cong;
    if prec == null || |prec.p| == 0 {
      :- RR.Lset(1);
      :- ShiftL(RR, |N.p| * 2 * BIL);
      BPowIsPow2(|N.p| * 2);
      BPowAdd(|N.p|, |N.p|);
      assert |N.p| * 2 == |N.p| + |N.p|;
      CongMod(RR.Int(), N.Int());
      :- ModMpi(RR, RR, N);
      if prec != null {
        prec.s := RR.s;
        prec.p := RR.p;
      }
    } else {
      RR.s := prec.s;
      RR.p := prec.p;
    }
    return Ok;
  }

  /** W1 = A mod N, in at least as many limbs as N has. */
  method ReducedBase(W1: Mpi, A: Mpi, N: Mpi) returns (r: Status)
    requires W1 != A && W1 != N && |W1.p| > |N.p| && W1.s == 1
    requires A.Int() == Val(A.p) && N.Int() == Val(N.p) > 0
    modifies W1
    ensures r.Ok? || r.AllocFailed?
    ensures r.Ok? ==> Reduced(W1.p, N.p) && Cong(Val(W1.p), Val(A.p), Val(N.p))
  {
    hide Val, Cong;
    var c := A.CmpMpi(N);
    if c >= 0 {
      CongMod(A.Int(), N.Int());
      :- ModMpi(W1, A, N);
      :- W1.Grow(|N.p| + 1);
    } else {
      :- W1.Copy(A);
      CongRefl(Val(A.p), Val(N.p));
    }
    return Ok;
  }

  function WindowBits(bits: nat): (w: nat)
    ensures 1 <= w <= WINDOW_SIZE
  {
    var w := if bits > 671 then 6 else if bits > 239 then 5 else if bits > 79 then 4 else if bits > 23 then 3 else 1;
    if w > WINDOW_SIZE then WINDOW_SIZE else w
  }

  /** A reduced residue becomes its Montgomery form when it is multiplied by the squared radix power. */
  lemma EnterForm(w: seq<limb>, rr: seq<limb>, n: seq<limb>, a: int) returns (v: int)
    requires Reduced(w, n) && |n| > 0 && Cong(Val(w), a, Val(n)) && Val(n) % 2 == 1
    requires IsSquaredRadix(1, rr, n)
    ensures MontForm(w, n, v) && MontForm(rr, n, BPow(|n|)) && Cong(v * BPow(|n|), Power(a, 1), Val(n))
  {
    hide Val, BPow, Cong;
    var u := RadixInverse(n);
    var r := BPow(|n|);
    v := a * u;
    MulAssoc(a, u, r);
    CongSwap(r, u, Val(n));
    CongScale(u * r, 1, a, Val(n));
    CongSym(a * (u * r), a, Val(n));
    CongTrans(Val(w), a, v * r, Val(n));
    CongSym(a, v * r, Val(n));
  }

  lemma FormOfOne(x: seq<limb>, n: seq<limb>, a: int)
    requires Reduced(x, n) && |n| > 0 && Cong(Val(x), BPow(|n|), Val(n))
    ensures MontForm(x, n, Power(a, 0))
  {
  }

  /** The table and X before the main loop: W holds the powers, X is one. */
  method Prepare(X: Mpi, A: Mpi, N: Mpi, RR: Mpi, T: Mpi, W: seq<Mpi>, wsize: nat, mm: limb, ghost h: int)
    returns (r: Status)
    requires forall k, l :: 0 <= k < l < |W| ==> W[k] != W[l]
    requires X !in W && T !in W && N !in W && A !in W && RR !in W
    requires X != N && X != T && X != RR && T != N && T != RR && T != A && RR != N && RR != A
    requires Modulus(N.p, mm, h) && |T.p| >= 2 * (|N.p| + 1) && N.Int() == Val(N.p)
    requires |X.p| > |N.p| && 1 <= wsize && |W| >= Pow2(wsize) && |W| >= 2 && |W[1].p| > |N.p| && W[1].s == 1
    requires IsSquaredRadix(RR.s, RR.p, N.p) && A.Int() == Val(A.p)
    modifies X, T, W
    ensures r.Ok? || r.AllocFailed?
    ensures r.Ok? ==> |T.p| == old(|T.p|) && X.s == 1
    ensures r.Ok? ==> Table(W, wsize, N.p, old(Val(A.p)))
    ensures r.Ok? ==> Reduced(X.p, N.p) && MontForm(X.p, N.p, Power(old(Val(A.p)), 0))
  {
    hide Val, BPow, Cong, Pow2, MontForm, Power;
    ghost var a := Val(A.p);
    :- ReducedBase(W[1], A, N);
    ghost var v := EnterForm(W[1].p, RR.p, N.p, a);
    MontProduct(W[1], RR, N, mm, h, T, v, BPow(|N.p|));
    FormCong(W[1].p, N.p, v * BPow(|N.p|), Power(a, 1));
    :- X.Copy(RR);
    MontRed(X, N, mm, h, T, BPow(|N.p|));
    FormOfOne(X.p, N.p, a);
    if wsize > 1 {
      :- FillTable(W, wsize, N, mm, h, T, a);
    } else {
      Pow2Zero();
      Pow2Next(0);
    }
    return Ok;
  }

  /** A^E modulo N for a base that is not negative. */
  method ExpCore(X: Mpi, A: Mpi, E: Mpi, N: Mpi, RR: Mpi, T: Mpi, W: seq<Mpi>, WW: Mpi, wsize: nat, mm: limb, ghost h: int)
    returns (r: Status)
    requires forall k, l :: 0 <= k < l < |W| ==> W[k] != W[l]
    requires X !in W && T !in W && N !in W && A !in W && RR !in W && WW !in W && E !in W
    requires X != N && X != T && X != RR && X != WW && X != E && T != N && T != RR && T != A && T != WW && T != E
    requires RR != N && RR != A && RR != WW && WW != N && WW != E
    requires Modulus(N.p, mm, h) && |T.p| >= 2 * (|N.p| + 1) && N.Int() == Val(N.p)
    requires |X.p| > |N.p| && 1 <= wsize && |W| >= Pow2(wsize) && |W| >= 2 && |W[1].p| > |N.p| && W[1].s == 1
    requires IsSquaredRadix(RR.s, RR.p, N.p) && A.Int() == Val(A.p)
    modifies X, T, W, WW
    ensures r.Ok? || r.AllocFailed?
    ensures r.Ok? ==> X.s == 1 && Val(X.p) < Val(N.p) && Cong(Val(X.p), Power(old(Val(A.p)), Val(E.p)), Val(N.p))
  {
    hide Val, BPow, Cong, Pow2, Power, Table, Modulus;
    ghost var a := Val(A.p);
    :- Prepare(X, A, N, RR, T, W, wsize, mm, h);
    var nbits, wbits;
    ghost var d, pend;
    r, nbits, wbits, d, pend := ScanExponent(E, X, W, WW, wsize, N, mm, h, T, a);
    if !r.Ok? {
      return;
    }
    FirstEntry(W, wsize, N.p, a);
    FinishBits(X, W[1], wsize, nbits, wbits, N, mm, h, T, a, d, pend);
    MontRed(X, N, mm, h, T, Power(a, Val(E.p)));
  }

  lemma FirstEntry(W: seq<Mpi>, wsize: nat, n: seq<limb>, a: int)
    requires Table(W, wsize, n, a)
    ensures |W| >= 2 && Entry(W[1], 1, n, a)
  {
  }

  lemma OddIsLowBit(p: seq<limb>)
    requires |p| > 0
    ensures Val(p) % 2 == p[0] % 2
  {
    hide Val;
    ValFirst(p);
    EvenBase(p[0], Val(p[1..]));
  }

  lemma EvenBase(x: nat, v: nat)
    ensures (x + BASE * v) % 2 == x % 2
  {
    assert BASE == 2 * (BASE / 2);
    MulAssoc(2, BASE / 2, v);
    DivModUnique(x + BASE * v, 2, x / 2 + BASE / 2 * v, x % 2);
  }

  /** The conditions under which `mbedtls_mpi_exp_mod` refuses to work. */
  ghost predicate Acceptable(e: int, n: int) {
    0 < n && n % 2 == 1 && 0 <= e && BitCount(e) <= MAX_BITS && BitCount(n) <= MAX_BITS
  }

  /** They are about the size of numbers: the exponent and the odd modulus stay below 2^8192. */
  lemma AcceptableIff(e: int, n: int)
    ensures Acceptable(e, n) <==> 0 < n < Pow2(8192) && n % 2 == 1 && 0 <= e < Pow2(8192)
  {
    hide Pow2, BitCount;
    if 0 < n && 0 <= e {
      BitCountAtMost(n, 8192);
      BitCountAtMost(e, 8192);
    }
  }

  ghost function ExpResult(sa: sign, a: nat, e: nat, n: nat): int
    requires n > 0
  {
    var m := Power(a, e) % n;
    if sa == -1 && e % 2 == 1 then n - m else m
  }

  /** Everything after the argument checks. */
  method ExpAccepted(X: Mpi, A0: Mpi, E: Mpi, N: Mpi, prec: Mpi?, ebits: nat) returns (r: Status)
    requires X != E && X != N && (prec != null ==> prec != X && prec != A0 && prec != E && prec != N)
    requires prec != null && |prec.p| > 0 ==> IsSquaredRadix(prec.s, prec.p, N.p)
    requires E.Int() == Val(E.p) && N.Int() == Val(N.p) > 0 && |N.p| > 0 && N.p[0] % 2 == 1 && Val(N.p) % 2 == 1
    modifies X, prec
    ensures r.Ok? || r.AllocFailed?
    ensures r.Ok? ==> X.Int() == ExpResult(old(A0.s), old(Val(A0.p)), Val(E.p), Val(N.p))
    ensures r.Ok? && prec != null ==> IsSquaredRadix(prec.s, prec.p, N.p)
  {
    hide Val, BPow, Cong, Pow2, Power, BitCount, IsSquaredRadix, ExpResult, Used, WindowBits;
    var mm;
    ghost var h;
    mm, h := MontgInit(N);
    var wsize := WindowBits(ebits);
    :- X.Grow(|N.p| + 1);
    var W;
    r, W := WindowTable(|N.p| + 1, wsize);
    if !r.Ok? {
      return;
    }
    var T := new Mpi();
    :- T.Grow((|N.p| + 1) * 2);
    r := ExpSigned(X, A0, E, N, prec, T, W, wsize, mm, h);
  }

  /** The power of the magnitude, and what a negative base makes of it. */
  method ExpSigned(X: Mpi, A0: Mpi, E: Mpi, N: Mpi, prec: Mpi?, T: Mpi, W: seq<Mpi>, wsize: nat, mm: limb, ghost h: int)
    returns (r: Status)
    requires X != E && X != N && (prec != null ==> prec != X && prec != A0 && prec != E && prec != N)
    requires prec != null && |prec.p| > 0 ==> IsSquaredRadix(prec.s, prec.p, N.p)
    requires forall k, l :: 0 <= k < l < |W| ==> W[k] != W[l]
    requires X !in W && T !in W && N !in W && A0 !in W && E !in W && (prec != null ==> prec !in W && prec != T)
    requires T != X && T != A0 && T != E && T != N
    requires Modulus(N.p, mm, h) && |T.p| >= 2 * (|N.p| + 1) && N.Int() == Val(N.p) > 0 && E.Int() == Val(E.p)
    requires |X.p| > |N.p| && 1 <= wsize && |W| >= Pow2(wsize) && |W| >= 2 && |W[1].p| > |N.p| && W[1].s == 1
    modifies X, prec, T, W
    ensures r.Ok? || r.AllocFailed?
    ensures r.Ok? ==> X.Int() == ExpResult(old(A0.s), old(Val(A0.p)), Val(E.p), Val(N.p))
    ensures r.Ok? && prec != null ==> IsSquaredRadix(prec.s, prec.p, N.p)
  {
    hide Val, BPow, Cong, Pow2, Power, IsSquaredRadix, ExpResult, Modulus;
    ghost var a := Val(A0.p);
    var neg := A0.s == -1;
    var A;
    r, A := Magnitude(A0);
    if !r.Ok? {
      return;
    }
    var RR := new Mpi();
    :- SquaredRadix(RR, prec, N);
    var WW := new Mpi();
    :- ExpCore(X, A, E, N, RR, T, W, WW, wsize, mm, h);
    r := Negate(X, E, N, neg, a);
  }

  /** A itself, or a copy without its sign. */
  method Magnitude(A0: Mpi) returns (r: Status, A: Mpi)
    ensures r.Ok? || r.AllocFailed?
    ensures A == A0 || fresh(A)
    ensures r.Ok? ==> A.s == 1 && Val(A.p) == Val(A0.p)
  {
    hide Val;
    r, A := Ok, A0;
    if A0.s == -1 {
      A := new Mpi();
      r := A.Copy(A0);
      A.s := 1;
    }
  }

  /** The table, with room for a Montgomery form in entry 1. */
  method WindowTable(limbs: nat, wsize: nat) returns (r: Status, W: seq<Mpi>)
    requires wsize <= WINDOW_SIZE
    ensures r.Ok? || r.AllocFailed?
    ensures |W| >= Pow2(wsize) && |W| >= 2
    ensures forall k :: 0 <= k < |W| ==> fresh(W[k])
    ensures forall k, l :: 0 <= k < l < |W| ==> W[k] != W[l]
    ensures r.Ok? ==> |W[1].p| >= limbs && W[1].s == 1
  {
    hide Val;
    Pow2StrictlyMonotonic(0, WINDOW_SIZE);
    Pow2Zero();
    Pow2Monotonic(wsize, WINDOW_SIZE);
    W := NewTable(Pow2(WINDOW_SIZE));
    r := W[1].Grow(limbs);
  }

  /** A negative base with an odd exponent: X = N - X. */
  method Negate(X: Mpi, E: Mpi, N: Mpi, neg: bool, ghost a: nat) returns (r: Status)
    requires X != E && X != N && X.s == 1 && Val(X.p) < Val(N.p) && N.Int() == Val(N.p)
    requires Cong(Val(X.p), Power(a, Val(E.p)), Val(N.p))
    modifies X
    ensures r.Ok? || r.AllocFailed?
    ensures r.Ok? ==> X.Int() == ExpResult(if neg then -1 else 1, a, Val(E.p), Val(N.p))
  {
    hide Val, Cong, Power, ExpResult;
    if |E.p| != 0 {
      OddIsLowBit(E.p);
    } else {
      ValNone(E.p);
    }
    ResidueOf(Val(X.p), Power(a, Val(E.p)), Val(N.p));
    ResultIs(if neg then -1 else 1, a, Val(E.p), Val(N.p), Val(X.p));
    if neg && |E.p| != 0 && E.p[0] % 2 != 0 {
      X.s := -1;
      :- X.AddMpi(N, X);
    }
    return Ok;
  }

  lemma ResidueOf(x: nat, v: int, n: nat)
    requires x < n && Cong(x, v, n)
    ensures x == v % n
  {
    hide Cong;
    CongMod(v, n);
    CongTrans(x, v, v % n, n);
    CongUnique(x, v % n, n);
  }

  lemma ResultIs(sa: sign, a: nat, e: nat, n: nat, x: int)
    requires n > 0 && x == Power(a, e) % n
    ensures ExpResult(sa, a, e, n) == if sa == -1 && e % 2 == 1 then n - x else x
  {
  }

  /**
    `mbedtls_mpi_exp_mod`.  The result is A^E mod N in [0, N), except that for a base whose sign is negative
    and an odd exponent it is N minus the residue of |A|^E, which is N itself when that residue is zero.
   */
  method ExpMod(X: Mpi, A: Mpi, E: Mpi, N: Mpi, prec: Mpi?) returns (r: Status)
    requires X != E && X != N && (prec != null ==> prec != X && prec != A && prec != E && prec != N)
    requires prec != null && |prec.p| > 0 ==> IsSquaredRadix(prec.s, prec.p, N.p)
    modifies X, prec
    ensures r.Ok? || r.AllocFailed? || r.BadInputData?
    ensures r.BadInputData? <==> !Acceptable(E.Int(), N.Int())
    ensures r.Ok? ==> X.Int() == ExpResult(old(A.s), old(Val(A.p)), E.Int(), N.Int())
    ensures r.Ok? && prec != null ==> IsSquaredRadix(prec.s, prec.p, N.p)
  {
    hide Val, BPow, Cong, Pow2, Power, BitCount, IsSquaredRadix, ExpResult;
    var c := N.CmpInt(0);
    if c <= 0 {
      return BadInputData;
    }
    ValIsZero(N.p);
    OddIsLowBit(N.p);
    if N.p[0] % 2 == 0 {
      return BadInputData;
    }
    c := E.CmpInt(0);
    if c < 0 {
      return BadInputData;
    }
    var ebits := BitLen(E);
    var nbits := BitLen(N);
    if ebits > MAX_BITS || nbits > MAX_BITS {
      return BadInputData;
    }
    r := ExpAccepted(X, A, E, N, prec, ebits);
  }

  /** What the result means for the signed base, and when it is not a residue. */
  lemma ExpResultMeaning(sa: sign, a: nat, e: nat, n: nat)
    requires n > 0
    ensures Cong(ExpResult(sa, a, e, n), Power(Signed(sa, a), e), n)
    ensures 0 <= ExpResult(sa, a, e, n) <= n
    ensures ExpResult(sa, a, e, n) == n <==> sa == -1 && e % 2 == 1 && Power(a, e) % n == 0
  {
    hide Cong, Power;
    var m := Power(a, e) % n;
    CongMod(Power(a, e), n);
    if sa == -1 {
      PowerOfNegative(a, e);
      if e % 2 == 1 {
        CongNeg(m, Power(a, e), n);
        CongIntro(n - m, 0 - m, n, 1);
        CongTrans(n - m, 0 - m, 0 - Power(a, e), n);
      }
    }
  }

  /** It is a residue for every modulus above 1 that has no factor in common with the base, ... */
  lemma ResidueWhenCoprime(sa: sign, a: nat, e: nat, n: nat)
    requires n > 1 && Divisibility.IsGcd(1, a, n)
    ensures 0 <= ExpResult(sa, a, e, n) < n
  {
    hide Power, Divisibility.IsGcd;
    Divisibility.PowerCoprime(a, e, n);
    ExpResultMeaning(sa, a, e, n);
  }

  /** ... for exponent 1 it is one exactly when a negative base is no multiple of the modulus, ... */
  lemma FirstPowerIff(sa: sign, a: nat, n: nat)
    requires n > 0
    ensures 0 <= ExpResult(sa, a, 1, n) < n <==> sa == 1 || a % n != 0
  {
    assert Power(a, 1) == a * Power(a, 0) == a;
    ExpResultMeaning(sa, a, 1, n);
  }

  /** ... and (-3)^1 modulo 3 comes out as 3. */
  lemma MultipleOfModulus()
    ensures ExpResult(-1, 3, 1, 3) == 3
  {
    assert Power(3, 1) == 3 * Power(3, 0) == 3;
  }

  lemma {:induction false} PowerOfNegative(a: int, e: nat)
    ensures Power(0 - a, e) == if e % 2 == 1 then 0 - Power(a, e) else Power(a, e)
  {
    if e > 0 {
      PowerOfNegative(a, e - 1);
    }
  }
}

