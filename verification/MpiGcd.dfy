/** Binary greatest common divisor and binary modular inverse. */
module MpiGcd {
  import opened Words
  import opened Products
  import opened Limbs
  import opened Congruence
  import opened Divisibility
  import opened Status
  import opened MpiModule
  import opened MpiBits
  import opened MpiDiv
  import opened MpiExp

  /** The numbers of the main loop: ta and tb are x and y times 2^j, g is the divisor sought, and one of x and y is odd. */
  ghost predicate GcdState(ta: nat, tb: nat, j: nat, x: nat, y: nat, g: nat) {
    ta == Pow2(j) * x && tb == Pow2(j) * y && IsGcd(g, x, y) && 0 < tb &&
    (ta == 0 ==> j == 0) && (ta > 0 ==> x % 2 == 1 || y % 2 == 1)
  }

  /** Removing the zero bits of both numbers keeps the divisor. */
  lemma StripBoth(ta: nat, tb: nat, j: nat, x: nat, y: nat, g: nat, oa: nat, ob: nat, ra: nat, rb: nat)
    requires GcdState(ta, tb, j, x, y, g) && 0 < ta
    requires ta == Pow2(ra) * oa && oa % 2 == 1 && tb == Pow2(rb) * ob && ob % 2 == 1
    ensures IsGcd(g, oa, ob)
  {
    hide Pow2, IsGcd;
    OddPart(ta, j, x, ra, oa);
    OddPart(tb, j, y, rb, ob);
    if x % 2 == 1 {
      OddPartUnique(ra - j, oa, x);
      GcdSym(g, x, y);
      GcdStrip(g, y, oa, ob, rb - j);
      GcdSym(g, ob, oa);
    } else {
      OddPartUnique(rb - j, ob, y);
      GcdStrip(g, x, ob, oa, ra - j);
    }
  }

  /** The power of two in a number is at least any power of two that divides it. */
  lemma {:induction false} OddPart(t: nat, j: nat, x: nat, r: nat, o: nat)
    requires 0 < t && t == Pow2(j) * x && t == Pow2(r) * o && o % 2 == 1
    ensures j <= r && x == Pow2(r - j) * o
  {
    if j == 0 {
      Pow2Zero();
    } else if r == 0 {
      Pow2Zero();
      Pow2Next(j - 1);
      MulAssoc(2, Pow2(j - 1), x);
      assert false;
    } else {
      Pow2Next(j - 1);
      Pow2Next(r - 1);
      MulAssoc(2, Pow2(j - 1), x);
      MulAssoc(2, Pow2(r - 1), o);
      OddPart(Pow2(j - 1) * x, j - 1, x, r - 1, o);
    }
  }

  lemma OddPartUnique(r: nat, o: nat, x: nat)
    requires x == Pow2(r) * o && x % 2 == 1
    ensures x == o
  {
    if r > 0 {
      Pow2Next(r - 1);
      MulAssoc(2, Pow2(r - 1), o);
    } else {
      Pow2Zero();
    }
  }

  /** One turn of the loop on the odd numbers: the difference is even, and halving it keeps the divisor. */
  lemma SubtractAndHalve(oa: nat, ob: nat, g: nat)
    requires IsGcd(g, oa, ob) && oa % 2 == 1 && ob % 2 == 1 && ob <= oa
    ensures IsGcd(g, (oa - ob) / 2, ob)
  {
    hide IsGcd;
    GcdSub(g, oa, ob);
    assert oa - ob == 2 * ((oa - ob) / 2);
    GcdHalve(g, (oa - ob) / 2, ob);
  }

  /** `shift_r(X, lsb(X))`: removes the zero bits. */
  method StripZeros(X: Mpi) returns (r: Status, ghost odd: nat, ghost count: nat)
    requires X.s == 1 && 0 < Val(X.p)
    modifies X
    ensures r.Ok? || r.AllocFailed?
    ensures r.Ok? ==> X.s == 1 && Val(X.p) == odd && |X.p| == old(|X.p|)
    ensures old(Val(X.p)) == Pow2(count) * odd && odd % 2 == 1 && odd <= old(Val(X.p))
  {
    hide Val, Pow2;
    var l;
    l, odd := Lsb(X);
    count := l;
    MulMono(1, Pow2(l), odd);
    DivModUnique(Val(X.p), Pow2(l), odd, 0);
    QuotientBelow(l, BIL, |X.p|);
    r := ShiftR(X, l);
  }

  lemma QuotientBelow(l: nat, w: nat, n: nat)
    requires 0 < w && l < n * w
    ensures l / w < n
  {
    var q := l / w;
    if q >= n {
      MulMono(n, q, w);
    }
  }

  /** X = (X - Y) / 2 */
  method HalfDifference(X: Mpi, Y: Mpi) returns (r: Status)
    requires X != Y && Val(Y.p) <= Val(X.p)
    modifies X
    ensures r.Ok? || r.AllocFailed?
    ensures r.Ok? ==> X.s == 1 && Val(X.p) == (old(Val(X.p)) - Val(Y.p)) / 2
  {
    hide Val, Pow2;
    r := X.SubAbs(X, Y);
    if !r.Ok? {
      return;
    }
    Pow2Zero();
    r := ShiftR(X, 1);
  }

  /** One turn of the main loop of `mbedtls_mpi_gcd`. */
  method GcdTurn(TA: Mpi, TB: Mpi, ghost j: nat, ghost x: nat, ghost y: nat, ghost g: nat) returns (r: Status)
    requires TA != TB && TA.s == 1 && TB.s == 1 && 0 < Val(TA.p)
    requires GcdState(Val(TA.p), Val(TB.p), j, x, y, g)
    modifies TA, TB
    ensures r.Ok? || r.AllocFailed?
    ensures r.Ok? ==> TA.s == 1 && TB.s == 1 && GcdState(Val(TA.p), Val(TB.p), 0, Val(TA.p), Val(TB.p), g)
    ensures r.Ok? ==> Val(TA.p) + Val(TB.p) < old(Val(TA.p) + Val(TB.p))
  {
    hide Val, Pow2, IsGcd, GcdState;
    ghost var ta, tb := Val(TA.p), Val(TB.p);
    ghost var oa, ob, ra, rb;
    DivisorPositive(ta, tb, j, x, y, g);
    r, oa, ra := StripZeros(TA);
    if !r.Ok? {
      return;
    }
    r, ob, rb := StripZeros(TB);
    if !r.Ok? {
      return;
    }
    StripBoth(ta, tb, j, x, y, g, oa, ob, ra, rb);
    var d := TA.CmpMpi(TB);
    if d >= 0 {
      SubtractAndHalve(oa, ob, g);
      :- HalfDifference(TA, TB);
    } else {
      GcdSym(g, oa, ob);
      SubtractAndHalve(ob, oa, g);
      GcdSym(g, (ob - oa) / 2, oa);
      :- HalfDifference(TB, TA);
    }
    GcdNext(Val(TA.p), Val(TB.p), g);
    return Ok;
  }

  /** The main loop. */
  method GcdLoop(TA: Mpi, TB: Mpi, ghost j0: nat, ghost x0: nat, ghost y0: nat, ghost g: nat) returns (r: Status)
    requires TA != TB && TA.s == 1 && TB.s == 1
    requires GcdState(Val(TA.p), Val(TB.p), j0, x0, y0, g)
    modifies TA, TB
    ensures r.Ok? || r.AllocFailed?
    ensures r.Ok? ==> TB.s == 1 && Val(TB.p) == g
  {
    hide Val, Pow2, IsGcd, GcdState;
    ghost var j, x, y := j0, x0, y0;
    var c := TA.CmpInt(0);
    while c != 0
      invariant TA.s == 1 && TB.s == 1 && c == Cmp(Val(TA.p), 0)
      invariant GcdState(Val(TA.p), Val(TB.p), j, x, y, g)
      decreases Val(TA.p) + Val(TB.p)
    {
      :- GcdTurn(TA, TB, j, x, y, g);
      j, x, y := 0, Val(TA.p), Val(TB.p);
      c := TA.CmpInt(0);
    }
    GcdEnd(Val(TB.p), j, x, y, g);
    return Ok;
  }

  lemma DivisorPositive(ta: nat, tb: nat, j: nat, x: nat, y: nat, g: nat)
    requires GcdState(ta, tb, j, x, y, g)
    ensures 0 < tb
  {
  }

  lemma GcdNext(x: nat, y: nat, g: nat)
    requires IsGcd(g, x, y) && 0 < y && (x % 2 == 1 || y % 2 == 1)
    ensures GcdState(x, y, 0, x, y, g)
  {
    Pow2Zero();
  }

  lemma GcdEnd(tb: nat, j: nat, x: nat, y: nat, g: nat)
    requires GcdState(0, tb, j, x, y, g)
    ensures tb == g
  {
    Pow2Zero();
    GcdWithZero(g, y);
  }

  /** The state the main loop starts in, after the common power of two has been noted. */
  lemma GcdStart(a: nat, b: nat, la: nat, oa: nat, lb: nat, ob: nat) returns (x: nat, y: nat, g: nat)
    requires 0 < b && IsLsb(a, la, oa) && IsLsb(b, lb, ob)
    ensures GcdState(a, b, if lb < la then lb else la, x, y, g)
    ensures IsGcd(Pow2(if lb < la then lb else la) * g, a, b)
  {
    hide Pow2, IsGcd;
    if a == 0 {
      x, y := 0, b;
      Pow2Zero();
    } else if lb < la {
      x, y := Pow2(la - lb) * oa, ob;
      Pow2Split(la, lb);
      MulAssoc(Pow2(lb), Pow2(la - lb), oa);
    } else {
      x, y := oa, Pow2(lb - la) * ob;
      Pow2Split(lb, la);
      MulAssoc(Pow2(la), Pow2(lb - la), ob);
    }
    g := GcdExists(x, y);
    GcdScale(g, x, y, if lb < la then lb else la);
  }

  /** So the "greatest common divisor" of -6 and 0 comes out as -6. */
  lemma NegativeGcd()
    ensures IsGcd(6, 6, 0) && !IsGcd(-6, 6, 0)
  {
    GcdOfZero(1, 6);
    GcdOfZero(-1, 6);
  }

  /**
    `mbedtls_mpi_gcd`: for B = 0 it copies A with its sign.  It is the greatest common divisor of the
    magnitudes exactly when not B = 0 and A < 0.
   */
  method Gcd(G: Mpi, A: Mpi, B: Mpi) returns (r: Status)
    modifies G
    ensures r.Ok? || r.AllocFailed?
    ensures r.Ok? && old(Val(B.p)) == 0 ==> G.Int() == old(A.Int())
    ensures r.Ok? ==> (IsGcd(G.Int(), old(Val(A.p)), old(Val(B.p))) <==> !(old(B.Int()) == 0 && old(A.Int()) < 0))
  {
    hide Val, Pow2, IsGcd, GcdState, BitCount, BitsToLimbs, IsLsb, Used;
    var TA := new Mpi();
    var TB := new Mpi();
    :- TA.Copy(A);
    :- TB.Copy(B);
    ghost var a, b := Val(A.p), Val(B.p);
    var lz, lzt;
    ghost var oa, ob;
    lz, oa := Lsb(TA);
    lzt, ob := Lsb(TB);
    var bit := GetBit(TB, 0);
    LowBitTest(b, lzt, ob, bit);
    if lzt == 0 && bit == 0 {
      GcdOfZero(A.s, a);
      :- G.Copy(A);
      return Ok;
    }
    r := GcdNonZero(G, TA, TB, if lzt < lz then lzt else lz, lz, oa, lzt, ob);
  }

  /** The case B != 0, on copies of the operands. */
  method GcdNonZero(G: Mpi, TA: Mpi, TB: Mpi, lz: nat, ghost la: nat, ghost oa: nat, ghost lb: nat, ghost ob: nat)
    returns (r: Status)
    requires TA != TB && G != TA && G != TB && 0 < Val(TB.p) && lz == (if lb < la then lb else la)
    requires IsLsb(Val(TA.p), la, oa) && IsLsb(Val(TB.p), lb, ob)
    modifies G, TA, TB
    ensures r.Ok? || r.AllocFailed?
    ensures r.Ok? ==> IsGcd(G.Int(), old(Val(TA.p)), old(Val(TB.p)))
  {
    hide Val, Pow2, IsGcd, GcdState, BitCount, BitsToLimbs, IsLsb, Used;
    ghost var x, y, g := GcdStart(Val(TA.p), Val(TB.p), la, oa, lb, ob);
    TA.s := 1;
    TB.s := 1;
    :- GcdLoop(TA, TB, lz, x, y, g);
    :- ShiftL(TB, lz);
    MulAssoc(Pow2(lz), g, 1);
    :- G.Copy(TB);
    return Ok;
  }

  /** "No zero bits at the bottom, and the lowest bit is zero" means the number is zero. */
  lemma LowBitTest(b: nat, l: nat, o: nat, bit: nat)
    requires IsLsb(b, l, o) && bit == b / Pow2(0) % 2
    ensures l == 0 && bit == 0 <==> b == 0
  {
    Pow2Zero();
    DivByOne(b);
  }

  // ---------- modular inverse ----------

  /** The linear combination that each number of the inverse computation stands for. */
  ghost predicate Combination(t: int, u1: int, u2: int, ta: int, tb: int) {
    u1 * ta + u2 * tb == t
  }

  /** When the number is even, both coefficients become even, if need be by moving a multiple of ta * tb across. */
  lemma EvenCoefficients(t: int, u1: int, u2: int, ta: int, tb: int)
    requires Combination(t, u1, u2, ta, tb) && t % 2 == 0 && (ta % 2 == 1 || tb % 2 == 1)
    ensures u1 % 2 == 1 || u2 % 2 == 1 ==> (u1 + tb) % 2 == 0 && (u2 - ta) % 2 == 0
    ensures Combination(t, u1 + tb, u2 - ta, ta, tb)
  {
    ProductParity(u1, ta);
    ProductParity(u2, tb);
    ParityCases(u1, u2, ta, tb, u1 * ta, u2 * tb);
    MovedMultiple(t, u1, u2, ta, tb);
  }

  lemma MovedMultiple(t: int, u1: int, u2: int, ta: int, tb: int)
    requires u1 * ta + u2 * tb == t
    ensures (u1 + tb) * ta + (u2 - ta) * tb == t
  {
    MulDist(ta, u1, tb);
    MulDist(tb, u2, ta);
  }

  lemma ParityCases(u1: int, u2: int, ta: int, tb: int, p1: int, p2: int)
    requires p1 % 2 == if u1 % 2 == 1 && ta % 2 == 1 then 1 else 0
    requires p2 % 2 == if u2 % 2 == 1 && tb % 2 == 1 then 1 else 0
    requires (p1 + p2) % 2 == 0 && (ta % 2 == 1 || tb % 2 == 1)
    ensures u1 % 2 == 1 || u2 % 2 == 1 ==> (u1 + tb) % 2 == 0 && (u2 - ta) % 2 == 0
  {
    assert p1 % 2 == p2 % 2;
  }

  lemma ProductParity(x: int, y: int)
    ensures (x * y) % 2 == if x % 2 == 1 && y % 2 == 1 then 1 else 0
  {
    if x % 2 == 0 {
      EvenFactor(x, y);
    } else if y % 2 == 0 {
      EvenFactor(y, x);
    } else {
      OddTimesOdd(x / 2, y / 2);
      DivModUnique(x * y, 2, 2 * (x / 2) * (y / 2) + x / 2 + y / 2, 1);
    }
  }

  lemma EvenFactor(x: int, y: int)
    requires x % 2 == 0
    ensures (x * y) % 2 == 0 && (y * x) % 2 == 0
  {
    var a := x / 2;
    assert x == 2 * a;
    MulAssoc(2, a, y);
    DivModUnique(x * y, 2, a * y, 0);
  }

  lemma HalveCombination(t: int, u1: int, u2: int, ta: int, tb: int)
    requires Combination(t, u1, u2, ta, tb) && t % 2 == 0 && u1 % 2 == 0 && u2 % 2 == 0
    ensures Combination(t / 2, u1 / 2, u2 / 2, ta, tb)
  {
    MulAssoc(2, u1 / 2, ta);
    MulAssoc(2, u2 / 2, tb);
  }

  lemma SubtractCombinations(t: int, u1: int, u2: int, v: int, v1: int, v2: int, ta: int, tb: int)
    requires Combination(t, u1, u2, ta, tb) && Combination(v, v1, v2, ta, tb)
    ensures Combination(t - v, u1 - v1, u2 - v2, ta, tb)
  {
    MulDist(ta, u1, v1);
    MulDist(tb, u2, v2);
  }

  /** Halving an even signed number by shifting its magnitude. */
  method HalveEven(X: Mpi) returns (r: Status)
    requires X.Int() % 2 == 0
    modifies X
    ensures r.Ok? || r.AllocFailed?
    ensures r.Ok? ==> X.Int() == old(X.Int()) / 2 && |X.p| >= old(|X.p|)
    ensures r.Ok? && old(X.s) == 1 ==> X.s == 1
  {
    hide Val, Pow2;
    Pow2Zero();
    EvenMagnitude(X.s, Val(X.p));
    r := ShiftR(X, 1);
  }

  lemma EvenMagnitude(s: sign, v: nat)
    requires Signed(s, v) % 2 == 0
    ensures Signed(s, v / 2) == Signed(s, v) / 2
  {
  }

  /** One halving step: T / 2 together with its coefficients. */
  method HalveStep(T: Mpi, U1: Mpi, U2: Mpi, TA: Mpi, TB: Mpi) returns (r: Status)
    requires T != U1 && T != U2 && T != TA && T != TB && U1 != U2 && U1 != TA && U1 != TB && U2 != TA && U2 != TB
    requires |U1.p| > 0 && |U2.p| > 0
    requires Combination(T.Int(), U1.Int(), U2.Int(), TA.Int(), TB.Int()) && T.Int() % 2 == 0
    requires TA.Int() % 2 == 1 || TB.Int() % 2 == 1
    modifies T, U1, U2
    ensures r.Ok? || r.AllocFailed?
    ensures r.Ok? ==> T.Int() == old(T.Int()) / 2 && Combination(T.Int(), U1.Int(), U2.Int(), TA.Int(), TB.Int())
    ensures r.Ok? ==> |U1.p| > 0 && |U2.p| > 0 && (old(T.s) == 1 ==> T.s == 1)
  {
    hide Val, Pow2, Combination;
    ghost var t := T.Int();
    EvenCoefficients(t, U1.Int(), U2.Int(), TA.Int(), TB.Int());
    r := HalveEven(T);
    if !r.Ok? {
      return;
    }
    SignedOddness(U1.s, U1.p);
    SignedOddness(U2.s, U2.p);
    if U1.p[0] % 2 != 0 || U2.p[0] % 2 != 0 {
      :- U1.AddMpi(U1, TB);
      :- U2.SubMpi(U2, TA);
    }
    HalveCombination(t, U1.Int(), U2.Int(), TA.Int(), TB.Int());
    :- HalveEven(U1);
    :- HalveEven(U2);
    return Ok;
  }

  lemma SignedOddness(s: sign, p: seq<limb>)
    requires |p| > 0
    ensures Signed(s, Val(p)) % 2 == p[0] % 2
  {
    hide Val;
    OddIsLowBit(p);
    NegativeParity(Val(p));
  }

  lemma NegativeParity(v: int)
    ensures (0 - v) % 2 == v % 2
  {
  }

  /** `while (T even) halve`: T becomes odd and stays coprime to w. */
  method StripTwos(T: Mpi, U1: Mpi, U2: Mpi, TA: Mpi, TB: Mpi, ghost w: nat) returns (r: Status)
    requires T != U1 && T != U2 && T != TA && T != TB && U1 != U2 && U1 != TA && U1 != TB && U2 != TA && U2 != TB
    requires |U1.p| > 0 && |U2.p| > 0 && T.s == 1 && 0 < T.Int()
    requires Combination(T.Int(), U1.Int(), U2.Int(), TA.Int(), TB.Int())
    requires TA.Int() % 2 == 1 || TB.Int() % 2 == 1
    requires IsGcd(1, T.Int(), w)
    modifies T, U1, U2
    ensures r.Ok? || r.AllocFailed?
    ensures r.Ok? ==> T.s == 1 && 0 < T.Int() <= old(T.Int()) && T.Int() % 2 == 1 && IsGcd(1, T.Int(), w)
    ensures r.Ok? ==> Combination(T.Int(), U1.Int(), U2.Int(), TA.Int(), TB.Int())
    ensures r.Ok? ==> |U1.p| > 0 && |U2.p| > 0
  {
    hide Val, Combination, IsGcd;
    NonEmpty(T.p);
    SignedOddness(T.s, T.p);
    while T.p[0] % 2 == 0
      invariant |U1.p| > 0 && |U2.p| > 0 && T.s == 1 && 0 < T.Int() <= old(T.Int()) && |T.p| > 0
      invariant T.p[0] % 2 == T.Int() % 2
      invariant Combination(T.Int(), U1.Int(), U2.Int(), TA.Int(), TB.Int())
      invariant IsGcd(1, T.Int(), w)
      decreases T.Int()
    {
      CoprimeNotBothEven(T.Int(), w);
      GcdHalve(1, T.Int() / 2, w);
      :- HalveStep(T, U1, U2, TA, TB);
      NonEmpty(T.p);
      SignedOddness(T.s, T.p);
    }
    return Ok;
  }

  lemma NonEmpty(p: seq<limb>)
    requires Val(p) > 0
    ensures |p| > 0
  {
  }

  /** `TU -= TV; U1 -= V1; U2 -= V2` */
  method SubtractStep(TU: Mpi, U1: Mpi, U2: Mpi, TV: Mpi, V1: Mpi, V2: Mpi, ghost ta: int, ghost tb: int) returns (r: Status)
    requires TU != U1 && TU != U2 && TU != TV && TU != V1 && TU != V2 && U1 != U2 && U1 != TV && U1 != V1 && U1 != V2
    requires U2 != TV && U2 != V1 && U2 != V2
    requires Combination(TU.Int(), U1.Int(), U2.Int(), ta, tb) && Combination(TV.Int(), V1.Int(), V2.Int(), ta, tb)
    requires TU.s == 1 && TV.s == 1 && |U1.p| > 0 && |U2.p| > 0 && Val(TV.p) <= Val(TU.p)
    modifies TU, U1, U2
    ensures r.Ok? || r.AllocFailed?
    ensures r.Ok? ==> TU.Int() == old(TU.Int()) - TV.Int() && TU.s == 1 && |U1.p| > 0 && |U2.p| > 0
    ensures r.Ok? ==> Combination(TU.Int(), U1.Int(), U2.Int(), ta, tb)
  {
    hide Val, Combination;
    SubtractCombinations(TU.Int(), U1.Int(), U2.Int(), TV.Int(), V1.Int(), V2.Int(), ta, tb);
    :- TU.SubMpi(TU, TV);
    :- U1.SubMpi(U1, V1);
    :- U2.SubMpi(U2, V2);
    return Ok;
  }

  method CopyOf(A: Mpi) returns (r: Status, M: Mpi)
    ensures fresh(M)
    ensures r.Ok? || r.AllocFailed?
    ensures r.Ok? ==> M.Int() == A.Int() && (A.s == 1 && Val(A.p) > 0 ==> M.s == 1)
  {
    hide Val;
    M := new Mpi();
    r := M.Copy(A);
    if Val(A.p) > 0 {
      NonEmpty(A.p);
    }
  }

  method NewInt(z: sint) returns (r: Status, M: Mpi)
    ensures fresh(M)
    ensures r.Ok? || r.AllocFailed?
    ensures r.Ok? ==> M.Int() == z && |M.p| > 0
  {
    M := new Mpi();
    r := M.Lset(z);
  }

  ghost predicate Apart(s: seq<Mpi>) {
    forall i, j :: 0 <= i < j < |s| ==> s[i] != s[j]
  }

  /** Both numbers with their coefficients: coprime, not negative, TV positive. */
  ghost predicate InverseState(TU: Mpi, U1: Mpi, U2: Mpi, TV: Mpi, V1: Mpi, V2: Mpi, ta: int, tb: int)
    reads TU, U1, U2, TV, V1, V2
  {
    TU.s == 1 && TV.s == 1 && 0 < TV.Int() && IsGcd(1, TU.Int(), TV.Int()) &&
    |U1.p| > 0 && |U2.p| > 0 && |V1.p| > 0 && |V2.p| > 0 &&
    Combination(TU.Int(), U1.Int(), U2.Int(), ta, tb) && Combination(TV.Int(), V1.Int(), V2.Int(), ta, tb)
  }

  /** One turn: both numbers become odd, then the smaller is taken from the larger. */
  method InverseTurn(TU: Mpi, U1: Mpi, U2: Mpi, TV: Mpi, V1: Mpi, V2: Mpi, TA: Mpi, TB: Mpi) returns (r: Status)
    requires Apart([TU, U1, U2, TV, V1, V2, TA, TB])
    requires InverseState(TU, U1, U2, TV, V1, V2, TA.Int(), TB.Int()) && 0 < TU.Int()
    requires TA.Int() % 2 == 1 || TB.Int() % 2 == 1
    modifies TU, U1, U2, TV, V1, V2
    ensures r.Ok? || r.AllocFailed?
    ensures r.Ok? ==> InverseState(TU, U1, U2, TV, V1, V2, TA.Int(), TB.Int())
    ensures r.Ok? ==> TU.Int() + TV.Int() < old(TU.Int() + TV.Int())
  {
    hide Val, Combination, IsGcd;
    EightApart(TU, U1, U2, TV, V1, V2, TA, TB);
    :- StripTwos(TU, U1, U2, TA, TB, TV.Int());
    GcdSym(1, TU.Int(), TV.Int());
    :- StripTwos(TV, V1, V2, TA, TB, TU.Int());
    var c := TU.CmpMpi(TV);
    if c >= 0 {
      GcdSym(1, TV.Int(), TU.Int());
      GcdSub(1, TU.Int(), TV.Int());
      :- SubtractStep(TU, U1, U2, TV, V1, V2, TA.Int(), TB.Int());
    } else {
      GcdSub(1, TV.Int(), TU.Int());
      GcdSym(1, TV.Int() - TU.Int(), TU.Int());
      :- SubtractStep(TV, V1, V2, TU, U1, U2, TA.Int(), TB.Int());
    }
    return Ok;
  }

  lemma EightApart(a: Mpi, b: Mpi, c: Mpi, d: Mpi, e: Mpi, f: Mpi, g: Mpi, h: Mpi)
    requires Apart([a, b, c, d, e, f, g, h])
    ensures a != b && a != c && a != d && a != e && a != f && a != g && a != h
    ensures b != c && b != d && b != e && b != f && b != g && b != h
    ensures c != d && c != e && c != f && c != g && c != h
    ensures d != e && d != f && d != g && d != h
    ensures e != f && e != g && e != h && f != g && f != h && g != h
  {
    var s := [a, b, c, d, e, f, g, h];
    assert s[0] == a && s[1] == b && s[2] == c && s[3] == d && s[4] == e && s[5] == f && s[6] == g && s[7] == h;
  }

  /** The main loop of the inverse: a coefficient V1 with V1 * ta = 1 modulo tb. */
  method InverseLoop(TA: Mpi, TB: Mpi) returns (r: Status, V1: Mpi)
    requires TA != TB && 0 < TA.Int() && 0 < TB.Int() && TA.s == 1 && TB.s == 1 && IsGcd(1, TA.Int(), TB.Int())
    ensures fresh(V1)
    ensures r.Ok? || r.AllocFailed?
    ensures r.Ok? ==> Cong(TA.Int() * V1.Int(), 1, TB.Int())
  {
    hide Val, Combination, IsGcd, Cong;
    var TU, TV, U1, U2, V2;
    r, V1 := NewInt(0);
    if !r.Ok? { return; }
    r, TU := CopyOf(TA);
    if !r.Ok? { return; }
    r, TV := CopyOf(TB);
    if !r.Ok? { return; }
    r, U1 := NewInt(1);
    if !r.Ok? { return; }
    r, U2 := NewInt(0);
    if !r.Ok? { return; }
    r, V2 := NewInt(1);
    if !r.Ok? { return; }
    CoprimeNotBothEven(TA.Int(), TB.Int());
    StartCombinations(TA.Int(), TB.Int());
    var zero := 1;
    while zero != 0
      invariant InverseState(TU, U1, U2, TV, V1, V2, TA.Int(), TB.Int()) && 0 <= TU.Int()
      invariant r.Ok? && (zero != 0 ==> 0 < TU.Int())
      invariant zero == 0 ==> TU.Int() == 0
      decreases TU.Int() + TV.Int(), zero != 0
    {
      r := InverseTurn(TU, U1, U2, TV, V1, V2, TA, TB);
      if !r.Ok? { return; }
      zero := TU.CmpInt(0);
    }
    InverseEnd(TV.Int(), V1.Int(), V2.Int(), TA.Int(), TB.Int());
  }

  lemma StartCombinations(ta: int, tb: int)
    ensures Combination(ta, 1, 0, ta, tb) && Combination(tb, 0, 1, ta, tb)
  {
  }

  lemma InverseEnd(tv: int, v1: int, v2: int, ta: int, tb: int)
    requires IsGcd(1, 0, tv) && 0 <= tv && Combination(tv, v1, v2, ta, tb)
    ensures Cong(ta * v1, 1, tb)
  {
    GcdWithZero(1, tv);
    CongIntro(ta * v1, 1, tb, 0 - v2);
  }

  /** Coprimality of the magnitudes is coprimality of the residue and the modulus, which is then not zero. */
  lemma CoprimeResidue(sa: sign, a: nat, n: int)
    requires 1 < n && IsGcd(1, a, n)
    ensures IsGcd(1, Signed(sa, a), n)
    ensures IsGcd(1, Signed(sa, a) % n, n) && 0 < Signed(sa, a) % n
  {
    hide IsGcd, Cong;
    var x := Signed(sa, a);
    if sa == -1 {
      GcdNeg(1, a, n);
    }
    CongMod(x, n);
    GcdCong(1, x, x % n, n);
    if x % n == 0 {
      GcdWithZero(1, n);
    }
  }

  lemma InverseOfResidue(a: int, v: int, n: int)
    requires 0 < n && Cong(a % n * v, 1, n)
    ensures Cong(a * (v % n), 1, n)
  {
    hide Cong;
    CongMod(a, n);
    CongMod(v, n);
    CongMul(a, a % n, v % n, v, n);
    CongTrans(a * (v % n), a % n * v, 1, n);
  }

  lemma NotCoprime(g: int, a: int, n: int)
    requires IsGcd(g, a, n) && g != 1
    ensures !IsGcd(1, a, n)
  {
    hide Divides;
    if IsGcd(1, a, n) {
      GcdUnique(g, 1, a, n);
    }
  }

  /** `mbedtls_mpi_inv_mod`: the inverse in [0, N), or an error exactly when there is none. */
  method InvMod(X: Mpi, A: Mpi, N: Mpi) returns (r: Status)
    modifies X
    ensures r.Ok? || r.AllocFailed? || r.BadInputData? || r.NotAcceptable?
    ensures r.BadInputData? <==> old(N.Int()) <= 1
    ensures r.NotAcceptable? ==> !IsGcd(1, old(A.Int()), old(N.Int()))
    ensures r.Ok? ==> IsGcd(1, old(A.Int()), old(N.Int()))
    ensures r.Ok? ==> 0 <= X.Int() < old(N.Int()) && Cong(old(A.Int()) * X.Int(), 1, old(N.Int()))
  {
    hide Val, Combination, IsGcd, Cong;
    var c := N.CmpInt(1);
    if c <= 0 {
      return BadInputData;
    }
    ghost var a, n := A.Int(), N.Int();
    var G := new Mpi();
    :- Gcd(G, A, N);
    c := G.CmpInt(1);
    if c != 0 {
      NotCoprime(G.Int(), Val(A.p), n);
      SignedCoprime(A.s, Val(A.p), n);
      return NotAcceptable;
    }
    CoprimeResidue(A.s, Val(A.p), n);
    var TA := new Mpi();
    :- ModMpi(TA, A, N);
    var TB;
    r, TB := CopyOf(N);
    if !r.Ok? {
      return;
    }
    var V1;
    r, V1 := InverseLoop(TA, TB);
    if !r.Ok? {
      return;
    }
    InverseOfResidue(a, V1.Int(), n);
    :- RaiseToNonNegative(V1, N);
    :- LowerBelow(V1, N);
    :- X.Copy(V1);
    return Ok;
  }

  lemma SignedCoprime(sa: sign, a: nat, n: int)
    requires !IsGcd(1, a, n)
    ensures !IsGcd(1, Signed(sa, a), n)
  {
    hide IsGcd;
    if IsGcd(1, Signed(sa, a), n) && sa == -1 {
      GcdNeg(1, Signed(sa, a), n);
    }
  }
}

