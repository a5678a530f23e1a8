/** Congruence of integers, witnessed by an explicit multiple of the modulus. */
module Congruence {
  import opened Products

  function Times(k: int, n: int): int {
    k * n
  }

  ghost predicate Cong(a: int, b: int, n: int) {
    exists k: int :: a - b == Times(k, n)
  }

  lemma CongIntro(a: int, b: int, n: int, k: int)
    requires a == b + k * n
    ensures Cong(a, b, n)
  {
    assert a - b == Times(k, n);
  }

  lemma CongElim(a: int, b: int, n: int) returns (k: int)
    requires Cong(a, b, n)
    ensures a == b + k * n
  {
    k :| a - b == Times(k, n);
  }

  lemma CongRefl(a: int, n: int)
    ensures Cong(a, a, n)
  {
    CongIntro(a, a, n, 0);
  }

  lemma CongSym(a: int, b: int, n: int)
    requires Cong(a, b, n)
    ensures Cong(b, a, n)
  {
    var k := CongElim(a, b, n);
    CongIntro(b, a, n, 0 - k);
  }

  lemma CongTrans(a: int, b: int, c: int, n: int)
    requires Cong(a, b, n) && Cong(b, c, n)
    ensures Cong(a, c, n)
  {
    var k := CongElim(a, b, n);
    var l := CongElim(b, c, n);
    MulDist(n, k, l);
    CongIntro(a, c, n, k + l);
  }

  lemma CongAdd(a: int, b: int, c: int, d: int, n: int)
    requires Cong(a, b, n) && Cong(c, d, n)
    ensures Cong(a + c, b + d, n)
  {
    var k := CongElim(a, b, n);
    var l := CongElim(c, d, n);
    MulDist(n, k, l);
    CongIntro(a + c, b + d, n, k + l);
  }

  lemma CongNeg(a: int, b: int, n: int)
    requires Cong(a, b, n)
    ensures Cong(0 - a, 0 - b, n)
  {
    var k := CongElim(a, b, n);
    CongIntro(0 - a, 0 - b, n, 0 - k);
  }

  lemma CongScale(a: int, b: int, c: int, n: int)
    requires Cong(a, b, n)
    ensures Cong(a * c, b * c, n) && Cong(c * a, c * b, n)
  {
    var k := CongElim(a, b, n);
    ScaleInts(a, b, c, n, k);
    CongIntro(a * c, b * c, n, k * c);
    CongIntro(c * a, c * b, n, k * c);
  }

  lemma ScaleInts(a: int, b: int, c: int, n: int, k: int)
    requires a == b + k * n
    ensures a * c == b * c + (k * c) * n
  {
    MulDist(c, b, k * n);
    MulAssoc(k, c, n);
    MulAssoc(k, n, c);
  }

  lemma CongMul(a: int, b: int, c: int, d: int, n: int)
    requires Cong(a, b, n) && Cong(c, d, n)
    ensures Cong(a * c, b * d, n)
  {
    hide Cong;
    CongScale(a, b, c, n);
    CongScale(c, d, b, n);
    CongTrans(a * c, b * c, b * d, n);
  }

  lemma CongMod(a: int, n: int)
    requires 0 < n
    ensures Cong(a % n, a, n) && Cong(a, a % n, n)
  {
    CongIntro(a, a % n, n, a / n);
    CongSym(a, a % n, n);
  }

  /** Congruent residues are equal. */
  lemma CongUnique(a: int, b: int, n: int)
    requires Cong(a, b, n) && 0 <= a < n && 0 <= b < n
    ensures a == b
  {
    var k := CongElim(a, b, n);
    if k > 0 {
      MulMono(1, k, n);
    } else if k < 0 {
      MulMono(k, -1, n);
    }
  }

  lemma CongIsMod(a: int, b: int, n: int)
    requires 0 < n
    ensures Cong(a, b, n) <==> a % n == b % n
  {
    hide Cong;
    CongMod(a, n);
    CongMod(b, n);
    if Cong(a, b, n) {
      CongTrans(a % n, a, b, n);
      CongTrans(a % n, b, b % n, n);
      CongUnique(a % n, b % n, n);
    }
    if a % n == b % n {
      CongTrans(a, a % n, b, n);
    }
  }

  /** A factor that has an inverse may be cancelled. */
  lemma CongCancel(a: int, b: int, r: int, u: int, n: int)
    requires Cong(a * r, b * r, n) && Cong(r * u, 1, n)
    ensures Cong(a, b, n)
  {
    hide Cong;
    CongScale(a * r, b * r, u, n);
    MulAssoc(a, r, u);
    MulAssoc(b, r, u);
    CongScale(r * u, 1, a, n);
    CongScale(r * u, 1, b, n);
    CongSym(a * (r * u), a, n);
    CongTrans(a, a * (r * u), b * (r * u), n);
    CongTrans(a, b * (r * u), b, n);
  }

  function Power(b: int, e: nat): int {
    if e == 0 then 1 else b * Power(b, e - 1)
  }

  lemma PowerIs(b: int, e: nat)
    ensures Power(b, 0) == 1 && Power(b, 1) == b && Power(b, e + 1) == b * Power(b, e)
  {
    assert Power(b, 1) == b * Power(b, 0);
  }

  lemma {:induction false} PowerAdd(b: int, d: nat, e: nat)
    ensures Power(b, d + e) == Power(b, d) * Power(b, e)
  {
    if d > 0 {
      PowerAdd(b, d - 1, e);
      MulAssoc(b, Power(b, d - 1), Power(b, e));
    }
  }

  lemma {:induction false} PowerPower(b: int, d: nat, e: nat)
    ensures Power(b, d * e) == Power(Power(b, d), e)
  {
    if e > 0 {
      PowerPower(b, d, e - 1);
      MulDist(d, e, 1);
      PowerAdd(b, d, d * (e - 1));
    } else {
      assert d * e == 0;
    }
  }

  lemma {:induction false} PowerProduct(a: int, b: int, e: nat)
    ensures Power(a * b, e) == Power(a, e) * Power(b, e)
  {
    if e > 0 {
      PowerProduct(a, b, e - 1);
      FourFactors(a, b, Power(a, e - 1), Power(b, e - 1));
    }
  }

  lemma FourFactors(a: int, b: int, c: int, d: int)
    ensures (a * b) * (c * d) == (a * c) * (b * d)
  {
    MulAssoc(a, b, c * d);
    MulAssoc(b, c, d);
    MulAssoc(c, b, d);
    MulAssoc(a, c, b * d);
  }

  lemma {:induction false} PowerOne(e: nat)
    ensures Power(1, e) == 1
  {
    if e > 0 {
      PowerOne(e - 1);
    }
  }

  lemma {:induction false} CongPower(a: int, b: int, e: nat, n: int)
    requires Cong(a, b, n)
    ensures Cong(Power(a, e), Power(b, e), n)
  {
    hide Cong;
    if e == 0 {
      CongRefl(1, n);
    } else {
      CongPower(a, b, e - 1, n);
      CongMul(a, b, Power(a, e - 1), Power(b, e - 1), n);
    }
  }
}
