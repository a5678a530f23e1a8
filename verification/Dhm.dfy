/** Facts about residues on which the blinding of the Diffie-Hellman secret rests. */
module Blinding {
  import opened Products
  import opened Congruence

  /** Vi and Vf cancel in an exponentiation by x. */
  ghost predicate Cancels(vi: int, vf: int, x: nat, p: int) {
    Cong(Power(vi, x) * vf, 1, p)
  }

  lemma CancelOnes(x: nat, p: int)
    ensures Cancels(1, 1, x, p)
  {
    PowerOne(x);
    CongRefl(1, p);
  }

  lemma CancelNonzero(vi: int, vf: int, x: nat, p: int)
    requires 1 < p && Cancels(vi, vf, x, p)
    ensures vf != 0
  {
    hide Power;
    if vf == 0 {
      CongUnique(Power(vi, x) * vf, 1, p);
    }
  }

  /** Squaring both values, reduced. */
  lemma CancelSquares(vi: int, vf: int, x: nat, p: int)
    requires 0 < p && Cancels(vi, vf, x, p)
    ensures Cancels((vi * vi) % p, (vf * vf) % p, x, p)
  {
    hide Cong, Power;
    var t := Power(vi, x);
    CongMul(t * vf, 1, t * vf, 1, p);
    FourFactors(t, vf, t, vf);
    PowerProduct(vi, vi, x);
    CongMod(vi * vi, p);
    CongMod(vf * vf, p);
    CongPower((vi * vi) % p, vi * vi, x, p);
    CongMul(Power((vi * vi) % p, x), t * t, (vf * vf) % p, vf * vf, p);
    CongTrans(Power((vi * vi) % p, x) * ((vf * vf) % p), (t * t) * (vf * vf), 1, p);
  }

  /** Values from scratch: u is the inverse of v * r, and w is the power of u * r. */
  lemma CancelFresh(v: int, r: int, u: int, w: int, x: nat, p: int)
    requires 0 < p && Cong(((v * r) % p) * u, 1, p) && Cong(w, Power((u * r) % p, x), p)
    ensures Cancels(v, w, x, p)
  {
    hide Cong, Power;
    var f := (u * r) % p;
    CongMod(v * r, p);
    CongScale(v * r, (v * r) % p, u, p);
    CongTrans((v * r) * u, ((v * r) % p) * u, 1, p);
    CongMod(u * r, p);
    CongScale(f, u * r, v, p);
    MulAssoc(v, r, u);
    CongTrans(v * f, v * (u * r), 1, p) by {
      assert v * (u * r) == (v * r) * u;
    }
    CongPower(v * f, 1, x, p);
    PowerOne(x);
    PowerProduct(v, f, x);
    CongScale(w, Power(f, x), Power(v, x), p);
    CongTrans(Power(v, x) * w, Power(v, x) * Power(f, x), 1, p);
  }

  /** What the blinded computation delivers. */
  lemma Unblind(g: int, vi: int, vf: int, x: nat, e: int, p: int)
    requires 0 < p && Cancels(vi, vf, x, p) && Cong(e, Power((g * vi) % p, x), p)
    ensures (e * vf) % p == Power(g, x) % p
  {
    hide Cong, Power;
    CongMod(g * vi, p);
    CongPower((g * vi) % p, g * vi, x, p);
    CongTrans(e, Power((g * vi) % p, x), Power(g * vi, x), p);
    PowerProduct(g, vi, x);
    CongScale(e, Power(g, x) * Power(vi, x), vf, p);
    MulAssoc(Power(g, x), Power(vi, x), vf);
    CongScale(Power(vi, x) * vf, 1, Power(g, x), p);
    CongTrans(e * vf, Power(g, x) * (Power(vi, x) * vf), Power(g, x), p);
    CongIsMod(e * vf, Power(g, x), p);
  }

  /** Both ends derive the same secret from the value that the other one published. */
  lemma Agreement(g: int, x: nat, y: nat, p: int)
    requires 0 < p
    ensures Power(Power(g, y) % p, x) % p == Power(Power(g, x) % p, y) % p
  {
    hide Cong, Power;
    var a, b := Power(g, y), Power(g, x);
    CongMod(a, p);
    CongMod(b, p);
    CongPower(a % p, a, x, p);
    CongPower(b % p, b, y, p);
    PowerPower(g, y, x);
    PowerPower(g, x, y);
    CongIsMod(Power(a % p, x), Power(a, x), p);
    CongIsMod(Power(b % p, y), Power(b, y), p);
    assert x * y == y * x;
  }
}

/** Diffie-Hellman key exchange with the blinding values that are kept between calls. */
module Dhm {
  import opened Words
  import opened Products
  import opened Limbs
  import opened Status
  import opened MpiModule
  import opened MpiBits
  import opened MpiDiv
  import opened MpiBinary
  import opened Congruence
  import opened Blinding
  import opened Numerals
  import opened Divisibility
  import opened PrimeField
  import MpiExp
  import MpiGcd

  /** `dhm_check_range`: 2 <= param <= P - 2. */
  method CheckRange(param: Mpi, P: Mpi) returns (st: Status)
    ensures st.Ok? || st.AllocFailed? || st.BadInputData?
    ensures st.Ok? ==> 2 <= param.Int() <= P.Int() - 2
    ensures st.BadInputData? ==> !(2 <= param.Int() <= P.Int() - 2)
  {
    hide Val;
    var U := new Mpi();
    :- U.SubInt(P, 2);
    var c := param.CmpInt(2);
    var d := param.CmpMpi(U);
    st := if c < 0 || d > 0 then BadInputData else Ok;
  }

  /** `dhm_random_below`; the ghost result are the numbers that were drawn. */
  method RandomBelow(R: Mpi, M: Mpi) returns (st: Status, ghost drawn: seq<nat>)
    requires R != M
    modifies R
    ensures st.Ok? || st.BadInputData? || st.AllocFailed? || st.RngFailed? || st.NotAcceptable?
    ensures st.BadInputData? <==> M.Int() <= 3
    ensures st.NotAcceptable? ==> Exhausted(drawn, 3, Val(M.p))
    ensures st.Ok? ==> 2 <= R.Int() <= M.Int() - 2
  {
    hide Val, BitCount, Pow2;
    BaseIsPow2();
    drawn :- Random(R, 3, M);
    :- R.SubInt(R, 1);
    return Ok, drawn;
  }

  lemma SquaredBlinding(vi: int, vf: int, x: int, p: int)
    requires 1 < p
    requires !(x == 0 && vi == 0 && vf == 0) && x >= 0 ==> Cancels(vi, vf, x, p)
    ensures x == 0 && vi == 0 && vf == 0 ==> (vi * vi) % p == 0 && (vf * vf) % p == 0
    ensures !(x == 0 && vi == 0 && vf == 0) && x >= 0 ==>
      Cancels((vi * vi) % p, (vf * vf) % p, x, p) && (vf * vf) % p != 0
  {
    hide Cancels;
    if x == 0 && vi == 0 && vf == 0 {
      DivModUnique(0, p, 0, 0);
    } else if x >= 0 {
      CancelSquares(vi, vf, x, p);
      CancelNonzero((vi * vi) % p, (vf * vf) % p, x, p);
    }
  }

  lemma SmallMod(x: int, p: int)
    requires 0 <= x < p
    ensures x % p == x
  {
  }

  /** A private value is no obstacle for the exponentiation if the modulus is none. */
  lemma ExponentFits(x: nat, p: nat, size: nat, len: nat)
    requires len == (BitCount(p) + 7) / 8 && if size < len then x < Pow2(8 * size) else x < p
    ensures MpiExp.Acceptable(0, p) <==> MpiExp.Acceptable(x, p)
  {
    hide Pow2, BitCount;
    BitCountAtMost(0, 8192);
    BitCountIs(p);
    if size < len {
      BitCountAtMost(x, 8 * size);
    } else {
      BitCountAtMost(x, BitCount(p));
    }
  }

  /** What the exponentiation delivers is in range exactly when the power is, and then is the power. */
  lemma PublicValue(s: sign, g: nat, x: nat, p: nat, y: int)
    requires 0 < p && y == MpiExp.ExpResult(s, g, x, p)
    ensures 2 <= y <= p - 2 <==> 2 <= Power(Signed(s, g), x) % p <= p - 2
    ensures 2 <= y <= p - 2 ==> y == Power(Signed(s, g), x) % p
  {
    hide MpiExp.ExpResult, Power, Cong;
    var t := Power(Signed(s, g), x);
    MpiExp.ExpResultMeaning(s, g, x, p);
    CongIsMod(y, t, p);
    if y < p {
      SmallMod(y, p);
    } else {
      DivModUnique(y, p, 1, 0);
    }
  }

  lemma ZeroResidue(e: int, p: int)
    requires 0 < p
    ensures (e * 0) % p == 0
  {
  }

  lemma SizeMonotonic(k: nat, p: nat)
    requires k <= p
    ensures (BitCount(k) + 7) / 8 <= (BitCount(p) + 7) / 8
  {
    hide Pow2, BitCount;
    BitCountIs(k);
    BitCountIs(p);
    if BitCount(k) > BitCount(p) {
      Pow2Monotonic(BitCount(p), BitCount(k) - 1);
    }
  }

  lemma NoLeadingZero(b: seq<byte>)
    requires |b| > 0 ==> Bytes(b) >= Pow2(8 * (|b| - 1))
    ensures |b| > 0 ==> b[0] != 0
  {
    hide Value, Pow2;
    if |b| > 0 {
      assert b == [b[0]] + b[1..];
      BytesPush(b[0], b[1..]);
      BytesBound(b[1..]);
    }
  }

  class DhmContext {
    const P: Mpi
    const G: Mpi
    const X: Mpi
    const GX: Mpi
    const GY: Mpi
    const K: Mpi
    const RP: Mpi
    const Vi: Mpi
    const Vf: Mpi
    const pX: Mpi

    /** The numbers are ten different objects. */
    ghost predicate Distinct() {
      && P !in {G, X, GX, GY, K, RP, Vi, Vf, pX}
      && G !in {X, GX, GY, K, RP, Vi, Vf, pX}
      && X !in {GX, GY, K, RP, Vi, Vf, pX}
      && GX !in {GY, K, RP, Vi, Vf, pX}
      && GY !in {K, RP, Vi, Vf, pX}
      && K !in {RP, Vi, Vf, pX}
      && RP !in {Vi, Vf, pX}
      && Vi !in {Vf, pX}
      && Vf != pX
    }

    /** No private value has been used yet. */
    ghost predicate Unused()
      reads pX, Vi, Vf
    {
      pX.Int() == 0 && Vi.Int() == 0 && Vf.Int() == 0
    }

    /** What every successful call keeps: the cached values belong to this modulus and this private value. */
    ghost predicate Valid()
      reads P, RP, pX, Vi, Vf
    {
      && Distinct()
      && (|RP.p| > 0 ==> MpiExp.IsSquaredRadix(RP.s, RP.p, P.p))
      && (Unused() || (pX.Int() >= 0 ==> Cancels(Vi.Int(), Vf.Int(), pX.Int(), P.Int())))
    }

    constructor ()
      ensures Valid() && Unused() && fresh({P, G, X, GX, GY, K, RP, Vi, Vf, pX})
      ensures P.Int() == 0 && X.Int() == 0 && |RP.p| == 0
    {
      P := new Mpi();
      G := new Mpi();
      X := new Mpi();
      GX := new Mpi();
      GY := new Mpi();
      K := new Mpi();
      RP := new Mpi();
      Vi := new Mpi();
      Vf := new Mpi();
      pX := new Mpi();
    }

    /** `mbedtls_dhm_set_group`, on a context that has not been used with another modulus. */
    method SetGroup(newP: Mpi, newG: Mpi) returns (st: Status)
      requires Valid()
      modifies P, G
      ensures st.Ok? || st.AllocFailed?
      ensures st.Ok? ==> P.Int() == old(newP.Int()) && G.Int() == old(if newG == P then newP.Int() else newG.Int())
      ensures st.Ok? && |RP.p| == 0 && Unused() ==> Valid()
    {
      hide Val, Cancels;
      :- P.Copy(newP);
      :- G.Copy(newG);
      return Ok;
    }

    /** `mbedtls_dhm_read_public` */
    method ReadPublic(input: seq<byte>) returns (st: Status)
      requires Valid()
      modifies GY
      ensures Valid()
      ensures st.Ok? || st.BadInputData? || st.AllocFailed?
      ensures st.BadInputData? <==> !(1 <= |input| <= (BitCount(Val(P.p)) + 7) / 8)
      ensures st.Ok? ==> GY.Int() == Bytes(input)
    {
      hide Val, Value, Cancels, BitCount;
      var len := Size(P);
      if |input| < 1 || |input| > len {
        return BadInputData;
      }
      st := ReadBinary(GY, input);
    }

    /** A modulus that the exponentiation works with, and the public value of X is in range. */
    ghost predicate Publishable()
      reads P, G, X
    {
      MpiExp.Acceptable(0, P.Int()) && X.Int() >= 0 && 2 <= Power(G.Int(), X.Int()) % P.Int() <= P.Int() - 2
    }

    lemma PublishableIff()
      ensures Publishable() <==>
        0 < P.Int() < Pow2(8192) && P.Int() % 2 == 1 && X.Int() >= 0 && 2 <= Power(G.Int(), X.Int()) % P.Int() <= P.Int() - 2
    {
      hide Power, Pow2, MpiExp.Acceptable;
      MpiExp.AcceptableIff(0, P.Int());
    }

    /** `dhm_make_common`: a new private value and its public value. */
    method MakeCommon(size: int) returns (st: Status, ghost drawn: seq<nat>)
      requires Valid()
      modifies X, GX, RP
      ensures st.Ok? || st.BadInputData? || st.AllocFailed? || st.RngFailed? || st.MakeFailed?
      ensures st.Ok? ==> 0 <= size && Publishable()
      ensures st.BadInputData? ==> size < 0 || P.Int() <= 3 || !Publishable()
      ensures st.MakeFailed? ==> Exhausted(drawn, 3, Val(P.p))
      ensures st.Ok? ==> Valid() && X.Int() >= 0 && 2 <= GX.Int() <= P.Int() - 2
      ensures st.Ok? ==> GX.Int() == Val(GX.p) == Power(G.Int(), X.Int()) % P.Int()
      ensures size < 0 || P.Int() == 0 ==> st.BadInputData?
    {
      hide Val, Cancels, MpiExp.IsSquaredRadix, MpiExp.ExpResult, Power, Cong, BitCount;
      drawn := [];
      var c := P.CmpInt(0);
      if c == 0 {
        return BadInputData, drawn;
      }
      if size < 0 {
        return BadInputData, drawn;
      }
      var len := Size(P);
      if size < len {
        :- FillRandom(X, size);
      } else {
        st, drawn := RandomBelow(X, P);
        if st.NotAcceptable? {
          return MakeFailed, drawn;
        }
        if !st.Ok? {
          return;
        }
      }
      ExponentFits(Val(X.p), Val(P.p), size, len);
      st := Publish();
    }

    /** The public value of X, when it is in range. */
    method Publish() returns (st: Status)
      requires Valid() && X.Int() >= 0 && (MpiExp.Acceptable(0, P.Int()) <==> MpiExp.Acceptable(X.Int(), P.Int()))
      modifies GX, RP
      ensures st.Ok? || st.BadInputData? || st.AllocFailed?
      ensures st.Ok? ==> Valid() && Publishable() && 2 <= GX.Int() <= P.Int() - 2
      ensures st.Ok? ==> GX.Int() == Val(GX.p) == Power(G.Int(), X.Int()) % P.Int()
      ensures st.BadInputData? ==> !Publishable()
    {
      hide Val, Cancels, MpiExp.IsSquaredRadix, MpiExp.ExpResult, Power, Cong, BitCount;
      :- MpiExp.ExpMod(GX, G, X, P, RP);
      PublicValue(G.s, Val(G.p), X.Int(), P.Int(), GX.Int());
      :- CheckRange(GX, P);
      return Ok;
    }

    /** `mbedtls_dhm_make_public` */
    method MakePublic(size: int, output: array<byte>, olen: nat) returns (st: Status, ghost drawn: seq<nat>)
      requires Valid() && olen <= output.Length
      modifies X, GX, RP, output
      ensures st.Ok? ==> Valid() && X.Int() >= 0 && 2 <= GX.Int() <= P.Int() - 2
      ensures st.Ok? ==> GX.Int() == Bytes(output[..olen]) == Power(G.Int(), X.Int()) % P.Int()
      ensures st.Ok? || st.BadInputData? || st.BufferTooSmall? || st.AllocFailed? || st.RngFailed? || st.MakeFailed?
      ensures !(1 <= olen <= (BitCount(Val(P.p)) + 7) / 8) || size < 0 || P.Int() == 0 ==> st.BadInputData?
      ensures st.BadInputData? ==> !(1 <= olen <= (BitCount(Val(P.p)) + 7) / 8) || size < 0 || P.Int() <= 3 || !Publishable()
      ensures st.BufferTooSmall? ==> Publishable() && Power(G.Int(), X.Int()) % P.Int() >= Pow2(8 * olen)
      ensures st.MakeFailed? ==> Exhausted(drawn, 3, Val(P.p))
    {
      hide Val, Value, Cancels, MpiExp.IsSquaredRadix, Power, Pow2, BitCount;
      drawn := [];
      var len := Size(P);
      if olen < 1 || olen > len {
        return BadInputData, drawn;
      }
      drawn :- MakeCommon(size);
      :- WriteBinary(GX, output, 0, olen);
      assert output[0..0 + olen] == output[..olen];
      return Ok, drawn;
    }

    /** `dhm_update_blinding`: reset for a new private value, squaring, or values from scratch. */
    method UpdateBlinding() returns (st: Status, ghost drawn: seq<nat>)
      requires Valid() && P.Int() > 3
      modifies RP, Vi, Vf, pX
      ensures st.Ok? || st.BadInputData? || st.AllocFailed? || st.RngFailed? || st.NotAcceptable?
      ensures st.BadInputData? ==> !MpiExp.Acceptable(X.Int(), P.Int())
      ensures st.NotAcceptable? && IsPrime(P.Int()) ==> Exhausted(drawn, 3, Val(P.p))
      ensures st.Ok? ==> Valid() && pX.Int() == X.Int()
      ensures st.Ok? ==> Unused() == (old(Unused()) && X.Int() == 0)
    {
      hide Val, Cancels, Power, Cong, MpiExp.IsSquaredRadix, MpiExp.Acceptable, Exhausted, IsPrime;
      drawn := [];
      var c := X.CmpMpi(pX);
      if c != 0 {
        :- pX.Copy(X);
        :- Vi.Lset(1);
        :- Vf.Lset(1);
        if X.Int() >= 0 {
          CancelOnes(X.Int(), P.Int());
        }
        return Ok, drawn;
      }
      c := Vi.CmpInt(1);
      if c != 0 {
        st := SquareBlinding();
      } else {
        st, drawn := FreshBlinding();
      }
    }

    method SquareBlinding() returns (st: Status)
      requires Valid() && pX.Int() == X.Int() && P.Int() > 1
      modifies Vi, Vf
      ensures st.Ok? || st.AllocFailed?
      ensures st.Ok? ==> Valid() && Unused() == old(Unused())
    {
      hide Val, Cancels, Power, Cong, MpiExp.IsSquaredRadix;
      ghost var p, vi, vf := P.Int(), Vi.Int(), Vf.Int();
      :- Vi.MulMpi(Vi, Vi);
      :- ModMpi(Vi, Vi, P);
      :- Vf.MulMpi(Vf, Vf);
      :- ModMpi(Vf, Vf, P);
      SquaredBlinding(vi, vf, X.Int(), p);
      return Ok;
    }

    /** From the inverse of Vi times R to the power of the inverse of Vi. */
    method PowerOfInverse(R: Mpi) returns (st: Status)
      requires Distinct() && R !in {P, X, RP, Vi, Vf} && P.Int() > 3
      requires |RP.p| > 0 ==> MpiExp.IsSquaredRadix(RP.s, RP.p, P.p)
      requires Cong(((Vi.Int() * R.Int()) % P.Int()) * Vf.Int(), 1, P.Int())
      modifies RP, Vf
      ensures st.Ok? || st.BadInputData? || st.AllocFailed?
      ensures st.BadInputData? ==> !MpiExp.Acceptable(X.Int(), P.Int())
      ensures st.Ok? ==> X.Int() >= 0 && Cancels(Vi.Int(), Vf.Int(), X.Int(), P.Int())
      ensures st.Ok? && |RP.p| > 0 ==> MpiExp.IsSquaredRadix(RP.s, RP.p, P.p)
    {
      hide Val, Cancels, Power, Cong, MpiExp.IsSquaredRadix, MpiExp.ExpResult, BitCount;
      ghost var u := Vf.Int();
      :- Vf.MulMpi(Vf, R);
      :- ModMpi(Vf, Vf, P);
      ghost var s, v := Vf.s, Val(Vf.p);
      :- MpiExp.ExpMod(Vf, Vf, X, P, RP);
      MpiExp.ExpResultMeaning(s, v, X.Int(), P.Int());
      CancelFresh(Vi.Int(), R.Int(), u, Vf.Int(), X.Int(), P.Int());
      return Ok;
    }

    /** Vf becomes the inverse of Vi times R. */
    method InvertProduct(R: Mpi) returns (st: Status)
      requires Distinct() && R !in {P, Vi, Vf} && P.Int() > 3 && 2 <= Vi.Int() < P.Int() && 2 <= R.Int() < P.Int()
      modifies Vf
      ensures st.Ok? || st.AllocFailed? || st.NotAcceptable?
      ensures st.NotAcceptable? ==> !IsPrime(P.Int())
      ensures st.Ok? ==> Cong(((Vi.Int() * R.Int()) % P.Int()) * Vf.Int(), 1, P.Int())
    {
      hide Val, Cong, IsPrime, IsGcd;
      :- Vf.MulMpi(Vi, R);
      :- ModMpi(Vf, Vf, P);
      if IsPrime(P.Int()) {
        Invertible(Vi.Int(), R.Int(), P.Int());
      }
      st := MpiGcd.InvMod(Vf, Vf, P);
    }

    method FreshBlinding() returns (st: Status, ghost drawn: seq<nat>)
      requires Valid() && pX.Int() == X.Int() && P.Int() > 3
      modifies RP, Vi, Vf
      ensures st.Ok? || st.BadInputData? || st.AllocFailed? || st.RngFailed? || st.NotAcceptable?
      ensures st.BadInputData? ==> !MpiExp.Acceptable(X.Int(), P.Int())
      ensures st.NotAcceptable? && IsPrime(P.Int()) ==> Exhausted(drawn, 3, Val(P.p))
      ensures st.Ok? ==> Valid() && !Unused()
    {
      hide Val, Cancels, Power, Cong, MpiExp.IsSquaredRadix, MpiExp.ExpResult, MpiExp.Acceptable, Exhausted, IsPrime, IsGcd;
      var R := new Mpi();
      drawn :- RandomBelow(Vi, P);
      drawn :- RandomBelow(R, P);
      :- InvertProduct(R);
      st := PowerOfInverse(R);
    }

    /**
      `mbedtls_dhm_calc_secret`.  Whatever calls came before, the exported secret is GY^X mod P, without a
      leading zero byte, except exactly for a private value zero on a context that has never been used.
     */
    method CalcSecret(output: array<byte>) returns (st: Status, olen: nat, ghost drawn: seq<nat>)
      requires Valid()
      modifies RP, Vi, Vf, pX, K, output
      ensures st.Ok? ==> Valid() && X.Int() >= 0 && 2 <= GY.Int() <= P.Int() - 2
      ensures st.Ok? ==> olen <= output.Length && K.Int() == Bytes(output[..olen]) && (olen > 0 ==> output[0] != 0)
      ensures st.Ok? ==> (K.Int() == Power(GY.Int(), X.Int()) % P.Int() <==> !(old(Unused()) && X.Int() == 0))
      ensures st.Ok? && old(Unused()) && X.Int() == 0 ==> K.Int() == 0
      ensures st.Ok? || st.BadInputData? || st.AllocFailed? || st.RngFailed? || st.NotAcceptable?
      ensures output.Length < (BitCount(Val(P.p)) + 7) / 8 ==> st.BadInputData?
      ensures st.Ok? ==> 2 <= GY.Int() <= P.Int() - 2 && MpiExp.Acceptable(X.Int(), P.Int())
      ensures st.BadInputData? ==>
        (output.Length < (BitCount(Val(P.p)) + 7) / 8 || !(2 <= GY.Int() <= P.Int() - 2) || !MpiExp.Acceptable(X.Int(), P.Int()))
      ensures st.NotAcceptable? && IsPrime(P.Int()) ==> Exhausted(drawn, 3, Val(P.p))
    {
      hide Val, Value, Cancels, Power, Cong, MpiExp.IsSquaredRadix, MpiExp.ExpResult, BitCount, Pow2, Exhausted, IsPrime, MpiExp.Acceptable;
      olen := 0;
      drawn := [];
      var len := Size(P);
      if output.Length < len {
        st := BadInputData;
        return;
      }
      st := CheckRange(GY, P);
      if !st.Ok? {
        return;
      }
      var GYb := new Mpi();
      st, drawn := UpdateBlinding();
      if !st.Ok? {
        return;
      }
      st := DeriveSecret(GYb);
      if !st.Ok? {
        return;
      }
      ZerothPower(GY.Int(), P.Int());
      olen := Export(output);
    }

    /** The secret as bytes, as few as it needs. */
    method Export(output: array<byte>) returns (olen: nat)
      requires 0 <= K.Int() == Val(K.p) < P.Int() && (BitCount(Val(P.p)) + 7) / 8 <= output.Length
      modifies output
      ensures olen <= output.Length && K.Int() == Bytes(output[..olen]) && (olen > 0 ==> output[0] != 0)
    {
      hide Val, Value, BitCount, Pow2;
      olen := Size(K);
      SizeBounds(Val(K.p));
      SizeMonotonic(Val(K.p), Val(P.p));
      var written := WriteBinary(K, output, 0, olen);
      assert output[0..0 + olen] == output[..olen];
      NoLeadingZero(output[..olen]);
    }

    lemma ZerothPower(b: int, p: int)
      requires p > 1
      ensures Power(b, 0) % p == 1
    {
      DivModUnique(1, p, 0, 1);
    }

    /** The exponentiation between blinding and unblinding. */
    method DeriveSecret(GYb: Mpi) returns (st: Status)
      requires Valid() && pX.Int() == X.Int() && GYb !in {P, G, X, GX, GY, K, RP, Vi, Vf, pX} && P.Int() > 0
      modifies GYb, K, RP
      ensures st.Ok? || st.BadInputData? || st.AllocFailed?
      ensures st.BadInputData? ==> !MpiExp.Acceptable(X.Int(), P.Int())
      ensures st.Ok? ==> MpiExp.Acceptable(X.Int(), P.Int())
      ensures st.Ok? ==> Valid() && X.Int() >= 0 && 0 <= K.Int() == Val(K.p) < P.Int()
      ensures st.Ok? && !Unused() ==> K.Int() == Power(GY.Int(), X.Int()) % P.Int()
      ensures st.Ok? && Unused() ==> K.Int() == 0
    {
      hide Val, Cancels, Power, Cong, MpiExp.IsSquaredRadix, MpiExp.ExpResult, BitCount;
      :- GYb.MulMpi(GY, Vi);
      :- ModMpi(GYb, GYb, P);
      :- MpiExp.ExpMod(K, GYb, X, P, RP);
      MpiExp.ExpResultMeaning(GYb.s, Val(GYb.p), X.Int(), P.Int());
      ghost var e := K.Int();
      :- K.MulMpi(K, Vf);
      :- ModMpi(K, K, P);
      if Unused() {
        ZeroResidue(e, P.Int());
      } else {
        Unblind(GY.Int(), Vi.Int(), Vf.Int(), X.Int(), e, P.Int());
      }
      return Ok;
    }
  }

  /** Such a context: it derives 0, although any number to the power 0 is 1. */
  method UnusedZero(P: Mpi, G: Mpi, GY: Mpi, output: array<byte>) returns (st: Status, secret: int)
    modifies output
    ensures st.Ok? ==> secret == 0 && P.Int() > 1 && Power(GY.Int(), 0) % P.Int() == 1
  {
    hide Val, Power;
    var ctx := new DhmContext();
    secret := 0;
    :- ctx.SetGroup(P, G);
    :- ctx.GY.Copy(GY);
    var olen;
    ghost var drawn;
    st, olen, drawn := ctx.CalcSecret(output);
    if st.Ok? {
      ctx.ZerothPower(GY.Int(), P.Int());
      secret := Signed(ctx.K.s, Val(ctx.K.p));
    }
  }
}
