/** Divisibility, and the steps of the binary greatest-common-divisor algorithm. */
module Divisibility {
  import opened Words
  import opened Products
  import opened Congruence

  ghost predicate Divides(d: int, a: int) {
    exists k: int :: a == Times(k, d)
  }

  /** g is the greatest common divisor of a and b in the order of divisibility; gcd(0, 0) is 0. */
  ghost predicate IsGcd(g: int, a: int, b: int) {
    0 <= g && Divides(g, a) && Divides(g, b) && forall d: int :: Divides(d, a) && Divides(d, b) ==> Divides(d, g)
  }

  lemma DividesIntro(d: int, a: int, k: int)
    requires a == k * d
    ensures Divides(d, a)
  {
    assert a == Times(k, d);
  }

  lemma DividesElim(d: int, a: int) returns (k: int)
    requires Divides(d, a)
    ensures a == k * d
  {
    k :| a == Times(k, d);
  }

  lemma DividesSum(d: int, a: int, b: int)
    requires Divides(d, a) && Divides(d, b)
    ensures Divides(d, a + b) && Divides(d, a - b)
  {
    var k := DividesElim(d, a);
    var l := DividesElim(d, b);
    MulDist(d, k, l);
    DividesIntro(d, a + b, k + l);
    DividesIntro(d, a - b, k - l);
  }

  lemma DividesMultiple(d: int, a: int, c: int)
    requires Divides(d, a)
    ensures Divides(d, c * a)
  {
    var k := DividesElim(d, a);
    MulAssoc(c, k, d);
    DividesIntro(d, c * a, c * k);
  }

  /** An odd divisor of a doubled number divides the number. */
  lemma OddDivisor(d: int, a: int)
    requires Divides(d, 2 * a) && d % 2 == 1
    ensures Divides(d, a)
  {
    var k := DividesElim(d, 2 * a);
    OddFactor(k, d, a);
    MulAssoc(2, k / 2, d);
    DividesIntro(d, a, k / 2);
  }

  lemma OddFactor(k: int, d: int, a: int)
    requires k * d == 2 * a && d % 2 == 1
    ensures k == 2 * (k / 2)
  {
    OddTimesOdd(k / 2, d / 2);
  }

  lemma OddTimesOdd(x: int, y: int)
    ensures (2 * x + 1) * (2 * y + 1) == 2 * (2 * x * y + x + y) + 1
  {
  }

  lemma TimesEven(k: int, e: int)
    ensures k * (2 * e) == 2 * (k * e)
  {
  }

  lemma DivisorOfOdd(d: int, b: int)
    requires Divides(d, b) && b % 2 == 1
    ensures d % 2 == 1
  {
    var k := DividesElim(d, b);
    TimesEven(k, d / 2);
  }

  lemma GcdSym(g: int, a: int, b: int)
    requires IsGcd(g, a, b)
    ensures IsGcd(g, b, a)
  {
  }

  /** Subtracting one number from the other keeps the common divisors. */
  lemma GcdSub(g: int, a: int, b: int)
    requires IsGcd(g, a, b)
    ensures IsGcd(g, a - b, b)
  {
    hide Divides;
    DividesSum(g, a, b);
    forall d: int | Divides(d, a - b) && Divides(d, b) ensures Divides(d, g) {
      DividesSum(d, a - b, b);
    }
  }

  /** A factor two of one number is irrelevant when the other is odd. */
  lemma GcdHalve(g: int, a: int, b: int)
    requires IsGcd(g, 2 * a, b) && b % 2 == 1
    ensures IsGcd(g, a, b)
  {
    hide Divides;
    DivisorOfOdd(g, b);
    OddDivisor(g, a);
    forall d: int | Divides(d, a) && Divides(d, b) ensures Divides(d, g) {
      DividesMultiple(d, a, 2);
    }
  }

  /** Doubling both numbers doubles the greatest common divisor. */
  lemma GcdDouble(g: int, a: int, b: int)
    requires IsGcd(g, a, b)
    ensures IsGcd(2 * g, 2 * a, 2 * b)
  {
    hide Divides;
    DoubleBoth(g, a);
    DoubleBoth(g, b);
    forall d: int | Divides(d, 2 * a) && Divides(d, 2 * b) ensures Divides(d, 2 * g) {
      if d % 2 == 1 {
        OddDivisor(d, a);
        OddDivisor(d, b);
        DividesMultiple(d, g, 2);
      } else {
        HalveBoth(d / 2, a);
        HalveBoth(d / 2, b);
        DoubleBoth(d / 2, g);
      }
    }
  }

  lemma DoubleBoth(d: int, a: int)
    requires Divides(d, a)
    ensures Divides(2 * d, 2 * a)
  {
    var k := DividesElim(d, a);
    MulAssoc(2, k, d);
    MulAssoc(k, 2, d);
    DividesIntro(2 * d, 2 * a, k);
  }

  lemma HalveBoth(d: int, a: int)
    requires Divides(2 * d, 2 * a)
    ensures Divides(d, a)
  {
    var k := DividesElim(2 * d, 2 * a);
    MulAssoc(k, 2, d);
    MulAssoc(2, k, d);
    DividesIntro(d, a, k);
  }

  lemma GcdWithZero(g: int, b: int)
    requires IsGcd(g, 0, b) && 0 <= b
    ensures g == b
  {
    DividesIntro(b, 0, 0);
    DividesIntro(b, b, 1);
    DividesAntisymmetric(g, b);
  }

  lemma DividesAntisymmetric(a: int, b: int)
    requires 0 <= a && 0 <= b && Divides(a, b) && Divides(b, a)
    ensures a == b
  {
    var k := DividesElim(a, b);
    var l := DividesElim(b, a);
    DividesAtMost(a, b, k);
    DividesAtMost(b, a, l);
  }

  lemma DividesAtMost(a: int, b: int, k: int)
    requires 0 <= a && 0 <= b && b == k * a
    ensures b == 0 || a <= b
  {
    if b > 0 {
      if k <= 0 {
        MulMono(k, 0, a);
      } else {
        MulMono(1, k, a);
      }
    }
  }

  lemma GcdUnique(g: int, h: int, a: int, b: int)
    requires IsGcd(g, a, b) && IsGcd(h, a, b)
    ensures g == h
  {
    hide Divides;
    DividesAntisymmetric(g, h);
  }

  /** The greatest common divisor only depends on one number modulo the other. */
  lemma GcdCong(g: int, a: int, b: int, n: int)
    requires IsGcd(g, a, n) && Cong(b, a, n)
    ensures IsGcd(g, b, n)
  {
    hide Divides;
    var k := CongElim(b, a, n);
    DividesMultiple(g, n, k);
    DividesSum(g, a, k * n);
    forall d: int | Divides(d, b) && Divides(d, n) ensures Divides(d, g) {
      DividesMultiple(d, n, k);
      DividesSum(d, b, k * n);
    }
  }

  lemma GcdNeg(g: int, a: int, n: int)
    requires IsGcd(g, a, n)
    ensures IsGcd(g, 0 - a, n)
  {
    hide Divides;
    DividesMultiple(g, a, -1);
    forall d: int | Divides(d, 0 - a) && Divides(d, n) ensures Divides(d, g) {
      DividesMultiple(d, 0 - a, -1);
    }
  }

  /** Coprime numbers are not both even. */
  lemma CoprimeNotBothEven(a: int, b: int)
    requires IsGcd(1, a, b)
    ensures a % 2 == 1 || b % 2 == 1
  {
    if a % 2 == 0 && b % 2 == 0 {
      DividesIntro(2, a, a / 2);
      DividesIntro(2, b, b / 2);
      DivisorOfOdd(2, 1);
    }
  }

  /** All factors two of one number are irrelevant when the other is odd. */
  lemma {:induction false} GcdStrip(g: int, a: int, b: int, x: int, r: nat)
    requires IsGcd(g, a, b) && a == Pow2(r) * x && b % 2 == 1
    ensures IsGcd(g, x, b)
    decreases r
  {
    hide IsGcd;
    if r > 0 {
      Pow2Next(r - 1);
      MulAssoc(2, Pow2(r - 1), x);
      GcdHalve(g, Pow2(r - 1) * x, b);
      GcdStrip(g, Pow2(r - 1) * x, b, x, r - 1);
    } else {
      Pow2Zero();
    }
  }

  /** A common factor 2^r can be taken out. */
  lemma {:induction false} GcdScale(g: int, a: int, b: int, r: nat)
    requires IsGcd(g, a, b)
    ensures IsGcd(Pow2(r) * g, Pow2(r) * a, Pow2(r) * b)
  {
    hide IsGcd;
    if r > 0 {
      GcdScale(g, a, b, r - 1);
      GcdDouble(Pow2(r - 1) * g, Pow2(r - 1) * a, Pow2(r - 1) * b);
      Pow2Next(r - 1);
      MulAssoc(2, Pow2(r - 1), g);
      MulAssoc(2, Pow2(r - 1), a);
      MulAssoc(2, Pow2(r - 1), b);
    } else {
      Pow2Zero();
    }
  }

  // ---------- existence ----------

  /** Every two natural numbers have a greatest common divisor, and it is a combination of them. */
  lemma {:induction false} Bezout(a: nat, b: nat) returns (g: nat, u: int, v: int)
    ensures IsGcd(g, a, b) && g == u * a + v * b
    decreases b
  {
    hide Divides, IsGcd;
    if b == 0 {
      GcdOfZero(1, a);
      g, u, v := a, 1, 0;
    } else {
      var x, y;
      g, x, y := Bezout(b, a % b);
      GcdSym(g, b, a % b);
      CongMod(a, b);
      GcdCong(g, a % b, a, b);
      u, v := y, x - y * (a / b);
      Recombine(a, b, a / b, a % b, x, y);
    }
  }

  lemma Recombine(a: int, b: int, q: int, r: int, x: int, y: int)
    requires a == b * q + r
    ensures x * b + y * r == y * a + (x - y * q) * b
  {
    MulDist(y, b * q, r);
    MulDist(b, x, y * q);
    MulAssoc(y, q, b);
  }

  lemma GcdExists(a: nat, b: nat) returns (g: nat)
    ensures IsGcd(g, a, b)
  {
    var u, v;
    g, u, v := Bezout(a, b);
  }

  /** The number with a sign is the greatest common divisor of itself and zero unless it is negative. */
  lemma GcdOfZero(s: int, a: nat)
    requires s == 1 || s == -1
    ensures IsGcd(s * a, a, 0) <==> !(s == -1 && a > 0)
  {
    hide Divides;
    DividesIntro(a, 0, 0);
    DividesIntro(a, a, 1);
  }

  /** A power of a number that is coprime to n is not a multiple of n. */
  lemma PowerCoprime(a: nat, e: nat, n: nat)
    requires n > 1 && IsGcd(1, a, n)
    ensures Power(a, e) % n != 0
  {
    hide Cong, IsGcd, Power;
    var g, u, v := Bezout(a, n);
    GcdUnique(1, g, a, n);
    CongIntro(u * a, 1, n, 0 - v);
    CongPower(u * a, 1, e, n);
    PowerProduct(u, a, e);
    PowerOne(e);
    if Power(a, e) % n == 0 {
      CongMod(Power(a, e), n);
      CongScale(Power(a, e), 0, Power(u, e), n);
      CongSym(Power(u * a, e), 1, n);
      CongTrans(1, Power(u * a, e), 0, n);
      CongUnique(1, 0, n);
    }
  }
}

