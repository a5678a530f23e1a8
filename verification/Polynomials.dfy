/** Polynomials over the bits, written as numbers, and their remainders modulo x^128 + x^7 + x^2 + x + 1. */
module Polynomials {
  import opened Words
  import opened Products
  import opened Blocks

  /** The sum: exclusive or of all bits. */
  function Add(a: nat, b: nat): nat
    decreases a + b
  {
    if a == 0 && b == 0 then 0 else (a + b) % 2 + 2 * Add(a / 2, b / 2)
  }

  /** The carry-less product. */
  function Product(a: nat, b: nat): nat {
    if b == 0 then 0 else Add(2 * Product(a, b / 2), if b % 2 == 1 then a else 0)
  }

  const MODULUS: nat := 0x1_0000_0000_0000_0000_0000_0000_0000_0087
  const DEGREE: nat := 0x1_0000_0000_0000_0000_0000_0000_0000_0000

  /** r is the remainder of a. */
  ghost predicate IsRemainder(r: nat, a: nat) {
    r < DEGREE && exists q: nat :: a == Add(Product(MODULUS, q), r)
  }

  // ---------- sums ----------

  lemma AddNext(a: nat, b: nat)
    ensures Add(a, b) == (a + b) % 2 + 2 * Add(a / 2, b / 2)
  {
  }

  /** What halving makes of a sum. */
  lemma AddHalf(a: nat, b: nat)
    ensures Add(a, b) / 2 == Add(a / 2, b / 2) && Add(a, b) % 2 == (a + b) % 2
  {
    hide Add;
    AddNext(a, b);
    DivModUnique(Add(a, b), 2, Add(a / 2, b / 2), (a + b) % 2);
  }

  lemma {:induction false} AddZero(a: nat)
    ensures Add(a, 0) == a
  {
    if a > 0 {
      AddZero(a / 2);
    }
  }

  lemma {:induction false} AddSame(a: nat)
    ensures Add(a, a) == 0
  {
    if a > 0 {
      AddSame(a / 2);
    }
  }

  lemma {:induction false} AddCommutes(a: nat, b: nat)
    ensures Add(a, b) == Add(b, a)
    decreases a + b
  {
    if a > 0 || b > 0 {
      AddCommutes(a / 2, b / 2);
    }
  }

  lemma {:induction false} AddAssociative(a: nat, b: nat, c: nat)
    ensures Add(Add(a, b), c) == Add(a, Add(b, c))
    decreases a + b + c
  {
    hide Add;
    if a == 0 && b == 0 && c == 0 {
      AddZero(0);
    } else {
      AddHalf(a, b);
      AddHalf(b, c);
      AddNext(Add(a, b), c);
      AddNext(a, Add(b, c));
      AddAssociative(a / 2, b / 2, c / 2);
      ThreeParities(a, b, c);
    }
  }

  lemma ThreeParities(a: nat, b: nat, c: nat)
    ensures forall x: nat, y: nat :: x % 2 == (a + b) % 2 && y % 2 == (b + c) % 2 ==> (x + c) % 2 == (a + y) % 2
  {
  }

  lemma AddFour(a: nat, b: nat, c: nat, d: nat)
    ensures Add(Add(a, b), Add(c, d)) == Add(Add(a, c), Add(b, d))
  {
    hide Add;
    AddAssociative(a, b, Add(c, d));
    AddAssociative(b, c, d);
    AddCommutes(b, c);
    AddAssociative(c, b, d);
    AddAssociative(a, c, Add(b, d));
  }

  lemma AddDouble(a: nat, b: nat)
    ensures Add(2 * a, 2 * b) == 2 * Add(a, b)
  {
    hide Add;
    AddNext(2 * a, 2 * b);
    DivModUnique(2 * a, 2, a, 0);
    DivModUnique(2 * b, 2, b, 0);
    DivModUnique(2 * a + 2 * b, 2, a + b, 0);
  }

  lemma {:induction false} AddIsZero(a: nat, b: nat)
    requires Add(a, b) == 0
    ensures a == b
    decreases a + b
  {
    if a > 0 || b > 0 {
      AddHalf(a, b);
      AddIsZero(a / 2, b / 2);
    }
  }

  lemma {:induction false} AddBound(a: nat, b: nat, n: nat)
    requires a < Pow2(n) && b < Pow2(n)
    ensures Add(a, b) < Pow2(n) && XorBits(a, b, n) == Add(a, b)
  {
    hide Add, XorBits, Pow2;
    if n == 0 {
      Pow2Zero();
      AddZero(0);
      NoBits(a, b);
    } else {
      Pow2Next(n - 1);
      AddBound(a / 2, b / 2, n - 1);
      AddNext(a, b);
      XorBitsNext(a, b, n);
    }
  }

  lemma NoBits(a: nat, b: nat)
    ensures XorBits(a, b, 0) == 0
  {
  }

  /** A summand below the leading bit leaves it. */
  lemma {:induction false} AddKeepsTop(n: nat, x: nat, y: nat)
    requires Pow2(n) <= x < 2 * Pow2(n) && y < Pow2(n)
    ensures Pow2(n) <= Add(x, y) < 2 * Pow2(n)
  {
    hide Add, Pow2;
    if n == 0 {
      Pow2Zero();
      AddZero(x);
    } else {
      Pow2Next(n - 1);
      AddKeepsTop(n - 1, x / 2, y / 2);
      AddNext(x, y);
    }
  }

  /** Without bits in common the sum is the sum of the numbers. */
  lemma {:induction false} AddDisjoint(n: nat, y: nat)
    requires y < Pow2(n)
    ensures Add(Pow2(n), y) == Pow2(n) + y
  {
    hide Add, Pow2;
    if n == 0 {
      Pow2Zero();
      AddZero(1);
    } else {
      Pow2Next(n - 1);
      DivModUnique(Pow2(n), 2, Pow2(n - 1), 0);
      AddNext(Pow2(n), y);
      AddDisjoint(n - 1, y / 2);
      DivModBounds(y, 2);
      DivModUnique(Pow2(n) + y, 2, Pow2(n - 1) + y / 2, y % 2);
    }
  }

  // ---------- products ----------

  lemma ProductNext(a: nat, b: nat)
    ensures Product(a, b) == Add(2 * Product(a, b / 2), if b % 2 == 1 then a else 0)
  {
  }

  lemma {:induction false} ProductDistributes(p: nat, q: nat, r: nat)
    ensures Add(Product(p, q), Product(p, r)) == Product(p, Add(q, r))
    decreases q + r
  {
    hide Add, Product;
    if q == 0 && r == 0 {
      AddZero(0);
      AddSame(Product(p, 0));
      ProductOfZero(p);
    } else {
      var c, d := if q % 2 == 1 then p else 0, if r % 2 == 1 then p else 0;
      ProductNext(p, q);
      ProductNext(p, r);
      AddFour(2 * Product(p, q / 2), c, 2 * Product(p, r / 2), d);
      AddDouble(Product(p, q / 2), Product(p, r / 2));
      ProductDistributes(p, q / 2, r / 2);
      AddHalf(q, r);
      ProductNext(p, Add(q, r));
      AddSame(p);
      AddZero(0);
      AddZero(p);
      AddCommutes(0, p);
      SumParity(q, r);
    }
  }

  lemma ProductOfZero(p: nat)
    ensures Product(p, 0) == 0
  {
  }

  lemma ModulusIs()
    ensures DEGREE == Pow2(128) && MODULUS == Add(Pow2(128), 0x87) == Pow2(128) + 0x87
  {
    hide Add, Pow2;
    Pow2Values();
    Pow2Add(64, 64);
    AddDisjoint(128, 0x87);
  }

  /** A product with the modulus has the degree of both factors. */
  lemma {:induction false} ProductDegree(q: nat, k: nat)
    requires Pow2(k) <= q < 2 * Pow2(k)
    ensures Pow2(128 + k) <= Product(MODULUS, q) < 2 * Pow2(128 + k)
  {
    hide Add, Product, Pow2;
    ModulusIs();
    ProductNext(MODULUS, q);
    Pow2Zero();
    if k == 0 {
      ProductOfZero(MODULUS);
      AddZero(MODULUS);
      AddCommutes(0, MODULUS);
      Pow2Monotonic(8, 128);
      Pow2Values();
    } else {
      Pow2Next(k - 1);
      ProductDegree(q / 2, k - 1);
      Pow2Next(127 + k);
      Pow2Next(128);
      Pow2Monotonic(129, 128 + k);
      Pow2Monotonic(8, 128);
      Pow2Values();
      AddKeepsTop(128 + k, 2 * Product(MODULUS, q / 2), if q % 2 == 1 then MODULUS else 0);
    }
  }

  lemma {:induction false} HasTop(q: nat) returns (k: nat)
    requires q > 0
    ensures Pow2(k) <= q < 2 * Pow2(k)
  {
    hide Pow2;
    Pow2Zero();
    if q == 1 {
      k := 0;
    } else {
      k := HasTop(q / 2);
      Pow2Next(k);
      k := k + 1;
    }
  }

  /** There is only one remainder. */
  lemma RemainderUnique(r: nat, s: nat, a: nat)
    requires IsRemainder(r, a) && IsRemainder(s, a)
    ensures r == s
  {
    hide Add, Product;
    var q: nat :| a == Add(Product(MODULUS, q), r);
    var t: nat :| a == Add(Product(MODULUS, t), s);
    SameRemainder(q, r, t, s);
  }

  lemma SameRemainder(q: nat, r: nat, t: nat, s: nat)
    requires Add(Product(MODULUS, q), r) == Add(Product(MODULUS, t), s) && r < DEGREE && s < DEGREE
    ensures r == s
  {
    hide Add, Product, Pow2;
    var x, y := Product(MODULUS, q), Product(MODULUS, t);
    AddFour(x, r, y, s);
    AddSame(Add(x, r));
    AddIsZero(Add(x, y), Add(r, s));
    ProductDistributes(MODULUS, q, t);
    ModulusIs();
    AddBound(r, s, 128);
    NoProductBelow(Add(q, t));
    ProductOfZero(MODULUS);
    AddIsZero(r, s);
  }

  lemma NoProductBelow(z: nat)
    requires Product(MODULUS, z) < DEGREE
    ensures z == 0
  {
    hide Product, Pow2;
    if z > 0 {
      var k := HasTop(z);
      ProductDegree(z, k);
      Pow2Monotonic(128, 128 + k);
      ModulusIs();
    }
  }
}
