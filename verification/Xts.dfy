/** The tweakable mode of IEEE Std 1619 as its text defines it, over whole data units. */
module XtsSpec {
  import opened Words
  import opened Products
  import opened Blocks
  import Polynomials

  // ---------- the field element a tweak stands for ----------

  /** The number that a row of bytes denotes, least significant first. */
  function LittleEndian(b: seq<byte>): nat {
    if |b| == 0 then 0 else b[0] + 256 * LittleEndian(b[1..])
  }

  function LeBytes(v: nat, n: nat): (b: seq<byte>)
    ensures |b| == n
  {
    if n == 0 then [] else [v % 256] + LeBytes(v / 256, n - 1)
  }

  lemma {:induction false} LeInverse(v: nat, n: nat)
    requires v < Pow2(8 * n)
    ensures LittleEndian(LeBytes(v, n)) == v
  {
    hide LittleEndian, LeBytes, Pow2;
    LeNext(LeBytes(v, n));
    if n == 0 {
      Pow2Zero();
    } else {
      Pow2Values();
      Pow2Add(8, 8 * (n - 1));
      var q, w := v / 256, Pow2(8 * (n - 1));
      assert v < 256 * w ==> q < w;
      LeInverse(q, n - 1);
      LeBytesNext(v, n);
      assert LeBytes(v, n)[1..] == LeBytes(q, n - 1);
    }
  }

  lemma {:induction false} LeUnique(b: seq<byte>)
    ensures LeBytes(LittleEndian(b), |b|) == b
  {
    hide LittleEndian, LeBytes;
    LeNext(b);
    if |b| > 0 {
      LeUnique(b[1..]);
      DivModUnique(LittleEndian(b), 256, LittleEndian(b[1..]), b[0]);
      LeBytesNext(LittleEndian(b), |b|);
      assert b == [b[0]] + b[1..];
    } else {
      LeBytesNone(LittleEndian(b));
    }
  }

  lemma LeNext(b: seq<byte>)
    ensures LittleEndian(b) == if |b| == 0 then 0 else b[0] + 256 * LittleEndian(b[1..])
  {
  }

  lemma LeBytesNext(v: nat, n: nat)
    requires n > 0
    ensures LeBytes(v, n) == [v % 256] + LeBytes(v / 256, n - 1)
  {
  }

  lemma LeBytesNone(v: nat)
    ensures LeBytes(v, 0) == []
  {
  }

  lemma {:induction false} LeBound(b: seq<byte>)
    ensures LittleEndian(b) < Pow2(8 * |b|)
  {
    hide LittleEndian, Pow2;
    LeNext(b);
    if |b| > 0 {
      LeBound(b[1..]);
      Pow2Values();
      Pow2Add(8, 8 * (|b| - 1));
    }
  }

  lemma {:induction false} LeAppend(a: seq<byte>, b: seq<byte>)
    ensures LittleEndian(a + b) == LittleEndian(a) + Pow2(8 * |a|) * LittleEndian(b)
  {
    if |a| == 0 {
      assert a + b == b;
      assert Pow2(0) == 1;
    } else {
      LeAppend(a[1..], b);
      assert (a + b)[1..] == a[1..] + b;
      Pow2Values();
      Pow2Add(8, 8 * (|a| - 1));
      MulAssoc(256, Pow2(8 * (|a| - 1)), LittleEndian(b));
    }
  }

  /** Multiplication by x of a polynomial over the bits, modulo x^128 + x^7 + x^2 + x + 1. */
  function TimesX(v: nat): nat {
    XorBits(2 * v % Pow2(128), if v >= Pow2(127) then 0x87 else 0, 128)
  }

  function Double(t: Block): Block {
    LeBytes(TimesX(LittleEndian(t)), 16)
  }

  function TweakAt(t: Block, j: nat): Block {
    if j == 0 then t else Double(TweakAt(t, j - 1))
  }

  /** What the tweak of block j has to be: x^j times the first one, reduced. */
  ghost predicate IsTweak(u: Block, t: Block, j: nat) {
    Polynomials.IsRemainder(LittleEndian(u), Polynomials.Product(LittleEndian(t), Pow2(j)))
  }

  /** One step of the reduction: at most one multiple of the modulus. */
  lemma TimesXStep(v: nat)
    requires v < Pow2(128)
    ensures TimesX(v) < Pow2(128)
    ensures Polynomials.Add(if v >= Pow2(127) then Polynomials.MODULUS else 0, TimesX(v)) == 2 * v
  {
    hide XorBits, Pow2, Polynomials.Add;
    Pow2Next(127);
    Pow2Monotonic(8, 128);
    Pow2Values();
    if v >= Pow2(127) {
      var w := 2 * v - Pow2(128);
      DivModUnique(2 * v, Pow2(128), 1, w);
      Polynomials.AddBound(w, 0x87, 128);
      Polynomials.ModulusIs();
      Polynomials.AddCommutes(w, 0x87);
      Polynomials.AddFour(Pow2(128), 0x87, 0x87, w);
      Polynomials.AddFour(Pow2(128), 0x87, w, 0x87);
      Polynomials.AddSame(0x87);
      Polynomials.AddDisjoint(128, w);
      Polynomials.AddZero(Pow2(128) + w);
    } else {
      DivModUnique(2 * v, Pow2(128), 0, 2 * v);
      XorBitsZero(2 * v, 128);
      Polynomials.AddCommutes(0, 2 * v);
      Polynomials.AddZero(2 * v);
    }
  }

  /** The factor of the modulus that is taken off: one bit for every step. */
  function Quotient(t: Block, j: nat): nat {
    if j == 0 then 0 else 2 * Quotient(t, j - 1) + if LittleEndian(TweakAt(t, j - 1)) >= Pow2(127) then 1 else 0
  }

  /** Repeated doubling is that multiplication. */
  lemma {:induction false} TweakDivision(t: Block, j: nat)
    ensures Polynomials.Product(LittleEndian(t), Pow2(j))
      == Polynomials.Add(Polynomials.Product(Polynomials.MODULUS, Quotient(t, j)), LittleEndian(TweakAt(t, j)))
  {
    hide LittleEndian, LeBytes, TimesX, Pow2, Polynomials.Add, Polynomials.Product;
    var v, m := LittleEndian(t), Polynomials.MODULUS;
    if j == 0 {
      Pow2Zero();
      Polynomials.ProductNext(v, 1);
      Polynomials.ProductOfZero(v);
      Polynomials.ProductOfZero(m);
    } else {
      var q, u := Quotient(t, j - 1), LittleEndian(TweakAt(t, j - 1));
      var top := if u >= Pow2(127) then 1 else 0;
      TweakDivision(t, j - 1);
      LeBound(TweakAt(t, j - 1));
      TimesXStep(u);
      LeInverse(TimesX(u), 16);
      Pow2Next(j - 1);
      ProductStep(v, Pow2(j - 1), m, q, u, top, TimesX(u));
    }
  }

  lemma ProductStep(v: nat, p: nat, m: nat, q: nat, u: nat, top: nat, w: nat)
    requires top <= 1 && Polynomials.Product(v, p) == Polynomials.Add(Polynomials.Product(m, q), u)
    requires Polynomials.Add(if top == 1 then m else 0, w) == 2 * u
    ensures Polynomials.Product(v, 2 * p) == Polynomials.Add(Polynomials.Product(m, 2 * q + top), w)
  {
    hide Polynomials.Add, Polynomials.Product;
    var x := Polynomials.Product(m, q);
    DivModUnique(2 * p, 2, p, 0);
    DivModUnique(2 * q + top, 2, q, top);
    Polynomials.ProductNext(v, 2 * p);
    Polynomials.AddZero(2 * Polynomials.Product(v, p));
    Polynomials.AddDouble(x, u);
    Polynomials.AddAssociative(2 * x, if top == 1 then m else 0, w);
    Polynomials.ProductNext(m, 2 * q + top);
  }

  lemma TweakIs(t: Block, j: nat)
    ensures IsTweak(TweakAt(t, j), t, j)
  {
    hide LittleEndian, Pow2, Polynomials.Add, Polynomials.Product, TweakAt;
    TweakDivision(t, j);
    LeBound(TweakAt(t, j));
    Polynomials.ModulusIs();
  }

  lemma TweakUnique(u: Block, t: Block, j: nat)
    requires IsTweak(u, t, j)
    ensures u == TweakAt(t, j)
  {
    hide LittleEndian, LeBytes, TweakAt, Polynomials.IsRemainder;
    TweakIs(t, j);
    Polynomials.RemainderUnique(LittleEndian(u), LittleEndian(TweakAt(t, j)), Polynomials.Product(LittleEndian(t), Pow2(j)));
    LeUnique(u);
    LeUnique(TweakAt(t, j));
  }

  // ---------- the mode ----------

  function Xex(F: Block -> Block, t: Block, b: Block): Block {
    XorSeq(F(XorSeq(b, t)), t)
  }

  /** Whole blocks, the first one with tweak t. */
  function Whole(F: Block -> Block, t: Block, data: seq<byte>): (c: seq<byte>)
    requires |data| % 16 == 0
    ensures |c| == |data|
    decreases |data|
  {
    if |data| == 0 then []
    else Whole(F, t, data[..|data| - 16]) + Xex(F, TweakAt(t, |data| / 16 - 1), data[|data| - 16..])
  }

  /**
    A data unit.  An incomplete last block of b bytes is filled up with the end of the preceding result, whose
    beginning takes its place; of the two tweaks involved, decryption uses the later one first.
   */
  function Xts(F: Block -> Block, decrypt: bool, t: Block, data: seq<byte>): (c: seq<byte>)
    requires 16 <= |data|
    ensures |c| == |data|
  {
    if |data| % 16 == 0 then Whole(F, t, data)
    else
      var m, n := |data| / 16, |data| / 16 * 16 - 16;
      Whole(F, t, data[..n])
        + Stolen(F, TweakAt(t, if decrypt then m else m - 1), TweakAt(t, if decrypt then m - 1 else m), data[n..n + 16], data[n + 16..])
  }

  /** The last complete block and the incomplete one behind it. */
  function Stolen(F: Block -> Block, ta: Block, tb: Block, block: Block, rest: seq<byte>): (c: seq<byte>)
    requires 0 < |rest| < 16
    ensures |c| == 16 + |rest|
  {
    var first := Xex(F, ta, block);
    Xex(F, tb, rest + first[|rest|..]) + first[..|rest|]
  }

  lemma {:induction false} WholeAt(F: Block -> Block, t: Block, data: seq<byte>, j: nat)
    requires |data| % 16 == 0 && 16 * j + 16 <= |data|
    ensures BlockAt(Whole(F, t, data), j) == Xex(F, TweakAt(t, j), BlockAt(data, j))
    decreases |data|
  {
    hide Whole, Xex, TweakAt;
    var n := |data| - 16;
    var c := Whole(F, t, data);
    WholeStep(F, t, data);
    assert c[..n] == Whole(F, t, data[..n]);
    if 16 * j < n {
      WholeAt(F, t, data[..n], j);
      BlockOfPrefix(c, n, j);
      BlockOfPrefix(data, n, j);
    } else {
      DivModUnique(|data|, 16, j + 1, 0);
      assert BlockAt(c, j) == c[n..] && BlockAt(data, j) == data[n..];
    }
  }

  /** Full blocks that no stealing touches: exclusive or with the tweak before and after the cipher. */
  lemma XtsBlock(F: Block -> Block, decrypt: bool, t: Block, data: seq<byte>, j: nat, u: Block)
    requires 16 <= |data| && IsTweak(u, t, j) && 16 * j + 16 <= |data| - if |data| % 16 == 0 then 0 else 16 + |data| % 16
    ensures BlockAt(Xts(F, decrypt, t, data), j) == XorSeq(F(XorSeq(BlockAt(data, j), u)), u)
  {
    hide IsTweak, TweakAt, Whole, Stolen, XorSeq;
    TweakUnique(u, t, j);
    if |data| % 16 == 0 {
      WholeAt(F, t, data, j);
    } else {
      var n, c := |data| / 16 * 16 - 16, Xts(F, decrypt, t, data);
      WholeAt(F, t, data[..n], j);
      assert c[..n] == Whole(F, t, data[..n]);
      BlockOfPrefix(c, n, j);
      BlockOfPrefix(data, n, j);
    }
  }

  /** An incomplete last block: encryption uses the two tweaks in their order, decryption the other way round. */
  lemma XtsStolen(F: Block -> Block, decrypt: bool, t: Block, data: seq<byte>, m: nat, b: nat, u: Block, v: Block)
    requires |data| == 16 * m + b && 0 < m && 0 < b < 16 && IsTweak(u, t, m - 1) && IsTweak(v, t, m)
    ensures var first, second := if decrypt then v else u, if decrypt then u else v;
      var c, d := Xts(F, decrypt, t, data), XorSeq(F(XorSeq(BlockAt(data, m - 1), first)), first);
      && c[16 * m..] == d[..b]
      && BlockAt(c, m - 1) == XorSeq(F(XorSeq(data[16 * m..] + d[b..], second)), second)
  {
    hide IsTweak, TweakAt, Whole, XorSeq;
    TweakUnique(u, t, m - 1);
    TweakUnique(v, t, m);
    DivModUnique(|data|, 16, m, b);
    var n, c := 16 * m - 16, Xts(F, decrypt, t, data);
    var s := Stolen(F, if decrypt then v else u, if decrypt then u else v, data[n..n + 16], data[n + 16..]);
    assert c == Whole(F, t, data[..n]) + s;
    assert BlockAt(c, m - 1) == s[..16] && c[16 * m..] == s[16..];
  }

  lemma XexInverse(E: Block -> Block, D: Block -> Block, t: Block, b: Block)
    requires Inverse(E, D)
    ensures Xex(D, t, Xex(E, t, b)) == b
  {
    XorSeqTwice(b, t);
    XorSeqTwice(E(XorSeq(b, t)), t);
  }

  lemma {:induction false} WholeInverse(E: Block -> Block, D: Block -> Block, t: Block, data: seq<byte>)
    requires Inverse(E, D) && |data| % 16 == 0
    ensures Whole(D, t, Whole(E, t, data)) == data
    decreases |data|
  {
    hide Xex, TweakAt, Inverse, Whole;
    if |data| == 0 {
      WholeNone(E, t);
      WholeNone(D, t);
    } else {
      var n := |data| - 16;
      var ta := TweakAt(t, |data| / 16 - 1);
      var head, c := Whole(E, t, data[..n]), Whole(E, t, data);
      WholeInverse(E, D, t, data[..n]);
      XexInverse(E, D, ta, data[n..]);
      WholeStep(E, t, data);
      WholeStep(D, t, c);
      assert c[..n] == head && c[n..] == Xex(E, ta, data[n..]);
      assert data == data[..n] + data[n..];
    }
  }

  lemma WholeNone(F: Block -> Block, t: Block)
    ensures Whole(F, t, []) == []
  {
  }

  lemma WholeStep(F: Block -> Block, t: Block, d: seq<byte>)
    requires 0 < |d| && |d| % 16 == 0
    ensures Whole(F, t, d) == Whole(F, t, d[..|d| - 16]) + Xex(F, TweakAt(t, |d| / 16 - 1), d[|d| - 16..])
  {
    hide Xex, TweakAt;
  }

  /** Decryption undoes encryption for every length, with ciphertext stealing or without. */
  lemma XtsInverse(E: Block -> Block, D: Block -> Block, t: Block, data: seq<byte>)
    requires Inverse(E, D) && 16 <= |data|
    ensures Xts(D, true, t, Xts(E, false, t, data)) == data
  {
    hide Xex, TweakAt, Inverse, Whole, Stolen;
    if |data| % 16 == 0 {
      WholeInverse(E, D, t, data);
    } else {
      var m, n := |data| / 16, |data| / 16 * 16 - 16;
      var head, block, rest := data[..n], data[n..n + 16], data[n + 16..];
      var a, b := TweakAt(t, m - 1), TweakAt(t, m);
      var x, y := Whole(E, t, head), Stolen(E, a, b, block, rest);
      var c := x + y;
      assert c[..n] == x && c[n..n + 16] == y[..16] && c[n + 16..] == y[16..];
      WholeInverse(E, D, t, head);
      StolenInverse(E, D, a, b, block, rest);
      assert data == head + (block + rest);
    }
  }

  lemma StolenInverse(E: Block -> Block, D: Block -> Block, a: Block, b: Block, block: Block, rest: seq<byte>)
    requires Inverse(E, D) && 0 < |rest| < 16
    ensures var y := Stolen(E, a, b, block, rest); Stolen(D, b, a, y[..16], y[16..]) == block + rest
  {
    hide Xex, Inverse;
    var cc := Xex(E, a, block);
    var pp: Block := rest + cc[|rest|..];
    var y := Stolen(E, a, b, block, rest);
    assert y[..16] == Xex(E, b, pp) && y[16..] == cc[..|rest|];
    XexInverse(E, D, b, pp);
    XexInverse(E, D, a, block);
    assert pp[..|rest|] == rest && pp[|rest|..] == cc[|rest|..];
    assert cc[..|rest|] + cc[|rest|..] == cc;
  }
}

/** The in-place implementation. */
module Xts {
  import opened Words
  import opened Products
  import opened Blocks
  import opened XtsSpec

  lemma {:induction false} XorLow(x: nat, y: nat, c: nat, k: nat, m: nat, h: nat)
    requires x < Pow2(k) && c < Pow2(k) && y < Pow2(m) && h == Pow2(k) * y
    ensures XorBits(x + h, c, k + m) == XorBits(x, c, k) + h
  {
    hide XorBits, Pow2;
    if k == 0 {
      Pow2Zero();
      XorBitsZero(y, m);
      XorBitsNone(x, c);
    } else {
      var w := HalfShift(k, y, h);
      Pow2Next(k - 1);
      XorLow(x / 2, y, c / 2, k - 1, m, w);
      XorLowStep(x, w, c, k, k + m);
    }
  }

  lemma HalfShift(k: nat, y: nat, h: nat) returns (w: nat)
    requires k > 0 && h == Pow2(k) * y
    ensures w == Pow2(k - 1) * y && h == 2 * w
  {
    hide Pow2;
    Pow2Next(k - 1);
    MulAssoc(2, Pow2(k - 1), y);
    MulNonNeg(Pow2(k - 1), y);
    w := Pow2(k - 1) * y;
  }

  lemma XorLowStep(x: nat, w: nat, c: nat, k: nat, n: nat)
    requires k > 0 && n > 0 && XorBits(x / 2 + w, c / 2, n - 1) == XorBits(x / 2, c / 2, k - 1) + w
    ensures XorBits(x + 2 * w, c, n) == XorBits(x, c, k) + 2 * w
  {
    hide XorBits;
    XorBitsNext(x, c, k);
    XorBitsNext(x + 2 * w, c, n);
    Halves(x, w, c);
  }

  lemma XorBitsNone(x: nat, c: nat)
    ensures XorBits(x, c, 0) == 0
  {
  }

  lemma Halves(x: nat, w: nat, c: nat)
    ensures (x + 2 * w) / 2 == x / 2 + w && (x + 2 * w + c) % 2 == (x + c) % 2
  {
  }

  /** Doubling a number given as two words. */
  lemma DoubledWords(a: nat, b: nat)
    requires a < Pow2(64) && b < Pow2(64)
    ensures 2 * (a + Pow2(64) * b) % Pow2(128) == 2 * a % Pow2(64) + Pow2(64) * (a / Pow2(63) + 2 * b % Pow2(64))
    ensures a / Pow2(63) + 2 * b % Pow2(64) < Pow2(64)
    ensures a + Pow2(64) * b >= Pow2(127) <==> b >= Pow2(63)
    ensures b / Pow2(63) == if b >= Pow2(63) then 1 else 0
  {
    hide Pow2;
    Pow2Values();
    Pow2Add(64, 64);
    Pow2Add(64, 63);
    Pow2Next(63);
    DoubledInts(a, b, Pow2(63));
  }

  lemma DoubledInts(a: nat, b: nat, h: nat)
    requires h == 0x8000_0000_0000_0000 && a < 2 * h && b < 2 * h
    ensures 2 * (a + 2 * h * b) % (2 * h * (2 * h)) == 2 * a % (2 * h) + 2 * h * (a / h + 2 * b % (2 * h))
    ensures a / h + 2 * b % (2 * h) < 2 * h
    ensures a + 2 * h * b >= 2 * h * h <==> b >= h
    ensures b / h == if b >= h then 1 else 0
  {
    var ca, cb := if a >= h then 1 else 0, if b >= h then 1 else 0;
    var a1, b1 := a - h * ca, b - h * cb;
    DivModUnique(a, h, ca, a1);
    DivModUnique(b, h, cb, b1);
    DivModUnique(2 * a, 2 * h, ca, 2 * a1);
    DivModUnique(2 * b, 2 * h, cb, 2 * b1);
    DivModUnique(2 * (a + 2 * h * b), 2 * h * (2 * h), cb, 2 * a1 + 2 * h * (ca + 2 * b1));
  }

  /** `mbedtls_gf128mul_x_ble`, on two 64-bit words. */
  method GfDouble(x: Block) returns (r: Block)
    ensures r == Double(x)
  {
    hide XorBits, Pow2, Double, LeBytes;
    var a, b := LittleEndian(x[..8]), LittleEndian(x[8..]);
    LeBound(x[..8]);
    LeBound(x[8..]);
    DoubledWords(a, b);
    var top := b / Pow2(63);
    Reduction(top);
    var low, reduction, rb := WordParts(a, b, top);
    var ra := XorBits(low, reduction, 64);
    r := LeBytes(ra, 8) + LeBytes(rb, 8);
    DoubledIs(x, a, b, ra, rb, r);
  }

  /** `a << 1`, `0x0087 >> (8 - (top << 3))` and `(a >> 63) | (b << 1)` on words. */
  method WordParts(a: nat, b: nat, top: nat) returns (low: nat, reduction: nat, rb: nat)
    requires a < Pow2(64) && b < Pow2(64) && top <= 1
    ensures low == 2 * a % Pow2(64) && reduction == (if top == 1 then 0x87 else 0)
    ensures rb == a / Pow2(63) + 2 * b % Pow2(64) < Pow2(64)
  {
    hide Pow2;
    DoubledWords(a, b);
    Reduction(top);
    DivModBounds(2 * a, Pow2(64));
    DivModBounds(2 * b, Pow2(64));
    DivModBounds(a, Pow2(63));
    low := 2 * a % Pow2(64);
    reduction := 0x87 / Pow2(8 - 8 * top);
    rb := a / Pow2(63) + 2 * b % Pow2(64);
  }

  lemma Reduction(top: nat)
    requires top <= 1
    ensures 0x87 / Pow2(8 - 8 * top) == if top == 1 then 0x87 else 0
  {
    Pow2Zero();
    Pow2Values();
    if top == 1 {
      assert 8 - 8 * top == 0;
    }
  }

  lemma DoubledIs(x: Block, a: nat, b: nat, ra: nat, rb: nat, r: Block)
    requires a == LittleEndian(x[..8]) < Pow2(64) && b == LittleEndian(x[8..]) < Pow2(64)
    requires ra == XorBits(2 * a % Pow2(64), if b >= Pow2(63) then 0x87 else 0, 64)
    requires rb == a / Pow2(63) + 2 * b % Pow2(64) < Pow2(64)
    requires r == LeBytes(ra, 8) + LeBytes(rb, 8)
    ensures r == Double(x)
  {
    hide XorBits, Pow2, LeBytes, LittleEndian, TimesX;
    assert x == x[..8] + x[8..];
    LeAppend(x[..8], x[8..]);
    TimesXInWords(a, b, 2 * a % Pow2(64), ra, rb);
    LeInverse(ra, 8);
    LeInverse(rb, 8);
    LeAppend(LeBytes(ra, 8), LeBytes(rb, 8));
    LeUnique(r);
  }

  lemma TimesXIs(v: nat, shifted: nat, c: nat)
    requires shifted == 2 * v % Pow2(128) && c == if v >= Pow2(127) then 0x87 else 0
    ensures TimesX(v) == XorBits(shifted, c, 128)
  {
    hide XorBits, Pow2;
  }

  lemma TimesXInWords(a: nat, b: nat, low: nat, ra: nat, rb: nat)
    requires a < Pow2(64) && b < Pow2(64) && low == 2 * a % Pow2(64)
    requires ra == XorBits(low, if b >= Pow2(63) then 0x87 else 0, 64)
    requires rb == a / Pow2(63) + 2 * b % Pow2(64) < Pow2(64)
    ensures TimesX(Joint(a, b)) == Joint(ra, rb)
  {
    hide XorBits, Pow2, TimesX;
    Pow2Values();
    DoubledWords(a, b);
    var c := if b >= Pow2(63) then 0x87 else 0;
    XorLow(low, rb, c, 64, 64, Pow2(64) * rb);
    TimesXIs(Joint(a, b), low + Pow2(64) * rb, c);
  }

  /** The number that two words stand for. */
  function Joint(a: nat, b: nat): nat {
    a + Pow2(64) * b
  }

  /** `b[i] ^ t[i]` for a block that is read from a buffer. */
  method CryptBlock(F: Block -> Block, t: Block, b: Block, output: array<byte>, o: nat)
    requires o + 16 <= output.Length
    modifies output
    ensures output[o..o + 16] == Xex(F, t, b)
    ensures output[..o] == old(output[..o]) && output[o + 16..] == old(output[o + 16..])
  {
    hide Xor, XorSeq;
    var tmp := F(XorSeq(b, t));
    var c := XorSeq(tmp, t);
    forall i | 0 <= i < 16 {
      output[o + i] := c[i];
    }
    assert output[o..o + 16] == c;
  }

  datatype XtsStatus = Ok | InvalidInputLength

  /** `mbedtls_aes_crypt_xts`; in place only when there are no leftover bytes. */
  method CryptXts(E: Block -> Block, D: Block -> Block, TweakCipher: Block -> Block, decrypt: bool, dataUnit: Block,
                  input: array<byte>, output: array<byte>, length: nat) returns (st: XtsStatus)
    requires length <= input.Length && length <= output.Length && (input == output ==> length % 16 == 0)
    modifies output
    ensures st == if 16 <= length <= 0x100_0000 then Ok else InvalidInputLength
    ensures st.Ok? ==> output[..length] == Xts(if decrypt then D else E, decrypt, TweakCipher(dataUnit), old(input[..length]))
    ensures st.Ok? ==> output[length..] == old(output[length..])
  {
    hide Xts, BlocksDone, TweakAt;
    if length < 16 {
      return InvalidInputLength;
    }
    if length > 0x10_0000 * 16 {
      return InvalidInputLength;
    }
    var F := if decrypt then D else E;
    var t := TweakCipher(dataUnit);
    ghost var in0, data := input[..], input[..length];
    var leftover := length % 16;
    var m := length / 16;
    var tweak, prev := FullBlocks(F, decrypt, t, input, output, m, leftover);
    assert output[length..] == output[16 * m..][leftover..];
    if leftover > 0 {
      DonePrefix(F, decrypt, t, in0, output[..], m, length);
      Steal(F, decrypt, t, input, output, length, if decrypt then prev else tweak);
    } else {
      NoLeftover(F, decrypt, t, in0, output[..], m);
    }
    st := Ok;
  }

  lemma DonePrefix(F: Block -> Block, swap: bool, t: Block, data: seq<byte>, out: seq<byte>, m: nat, length: nat)
    requires m > 0 && BlocksDone(F, swap, t, data, out, m) && 16 * m <= length <= |data|
    ensures BlocksDone(F, swap, t, data[..length], out, m)
  {
    hide Whole, Xex, TweakAt;
    assert data[..length][..16 * (m - 1)] == data[..16 * (m - 1)];
    assert data[..length][16 * (m - 1)..16 * m] == data[16 * (m - 1)..16 * m];
  }

  lemma NoLeftover(F: Block -> Block, decrypt: bool, t: Block, data: seq<byte>, out: seq<byte>, m: nat)
    requires m > 0 && BlocksDone(F, false, t, data, out, m)
    ensures out[..16 * m] == Xts(F, decrypt, t, data[..16 * m])
  {
    hide Whole, Xex, TweakAt;
    WholeNext(F, t, data, m - 1);
    assert out[..16 * m] == out[..16 * (m - 1)] + out[16 * (m - 1)..16 * m];
  }

  /** What the loop over the full blocks leaves: the last block apart when decryption has leftover bytes. */
  ghost predicate BlocksDone(F: Block -> Block, swap: bool, t: Block, data: seq<byte>, out: seq<byte>, m: nat)
    requires m > 0
  {
    && 16 * m <= |data| && 16 * m <= |out|
    && out[..16 * (m - 1)] == Whole(F, t, data[..16 * (m - 1)])
    && out[16 * (m - 1)..16 * m] == Xex(F, TweakAt(t, if swap then m else m - 1), data[16 * (m - 1)..16 * m])
  }

  lemma WholeNext(F: Block -> Block, t: Block, data: seq<byte>, k: nat)
    requires 16 * (k + 1) <= |data|
    ensures Whole(F, t, data[..16 * (k + 1)]) == Whole(F, t, data[..16 * k]) + Xex(F, TweakAt(t, k), data[16 * k..16 * (k + 1)])
  {
    hide Whole, Xex, TweakAt;
    var a, b := data[..16 * k], data[16 * k..16 * (k + 1)];
    assert data[..16 * (k + 1)] == a + b;
    WholeLast(F, t, a, b, k);
  }

  lemma WholeLast(F: Block -> Block, t: Block, a: seq<byte>, b: Block, k: nat)
    requires |a| == 16 * k
    ensures Whole(F, t, a + b) == Whole(F, t, a) + Xex(F, TweakAt(t, k), b)
  {
    hide Xex, TweakAt, Whole;
    var d := a + b;
    DivModUnique(|d|, 16, k + 1, 0);
    WholeStep(F, t, d);
    assert d[..|d| - 16] == a && d[|d| - 16..] == b;
  }

  /** The state of the loop before block k. */
  ghost predicate UpTo(F: Block -> Block, t: Block, data: seq<byte>, out0: seq<byte>, input: seq<byte>, out: seq<byte>, k: nat) {
    && |input| == |data| && |out| == |out0| && 16 * k <= |data| && 16 * k <= |out|
    && out[16 * k..] == out0[16 * k..] && input[16 * k..] == data[16 * k..]
    && out[..16 * k] == Whole(F, t, data[..16 * k])
  }

  lemma UpToNext(F: Block -> Block, swap: bool, t: Block, data: seq<byte>, out0: seq<byte>, in1: seq<byte>, out1: seq<byte>,
                 in2: seq<byte>, out2: seq<byte>, k: nat)
    requires UpTo(F, t, data, out0, in1, out1, k) && 16 * (k + 1) <= |data| && 16 * (k + 1) <= |out1|
    requires |in2| == |in1| && |out2| == |out1| && (in2 == in1 || (in2 == out2 && in1 == out1))
    requires out2[..16 * k] == out1[..16 * k] && out2[16 * k + 16..] == out1[16 * k + 16..]
    requires out2[16 * k..16 * k + 16] == Xex(F, TweakAt(t, if swap then k + 1 else k), in1[16 * k..16 * k + 16])
    ensures BlocksDone(F, swap, t, data, out2, k + 1)
    ensures !swap ==> UpTo(F, t, data, out0, in2, out2, k + 1)
    ensures out2[16 * (k + 1)..] == out0[16 * (k + 1)..]
  {
    hide Whole, TweakAt, Xex;
    assert in1[16 * k..16 * k + 16] == in1[16 * k..][..16] == data[16 * k..16 * k + 16];
    assert out2[16 * k + 16..] == out1[16 * k..][16..] == out0[16 * k + 16..];
    assert in2[16 * k + 16..] == data[16 * k + 16..] by {
      assert in1[16 * k + 16..] == in1[16 * k..][16..];
    }
    WholeNext(F, t, data, k);
    assert out2[..16 * (k + 1)] == out2[..16 * k] + out2[16 * k..16 * k + 16];
  }

  method FullBlocks(F: Block -> Block, decrypt: bool, t: Block, input: array<byte>, output: array<byte>, m: nat, leftover: nat)
      returns (tweak: Block, prev: Block)
    requires m > 0 && 16 * m <= input.Length && 16 * m <= output.Length
    modifies output
    ensures BlocksDone(F, decrypt && leftover > 0, t, old(input[..]), output[..], m)
    ensures !(decrypt && leftover > 0) ==> tweak == TweakAt(t, m)
    ensures decrypt && leftover > 0 ==> prev == TweakAt(t, m - 1)
    ensures output[16 * m..] == old(output[16 * m..])
  {
    hide Whole, Double, BlocksDone, UpTo, Xex;
    ghost var data, out0 := input[..], output[..];
    tweak, prev := t, t;
    NothingDone(F, t, data, out0);
    var k := 0;
    while k < m
      invariant 0 <= k <= m
      invariant k < m ==> tweak == TweakAt(t, k) && UpTo(F, t, data, out0, input[..], output[..], k)
      invariant k == m ==> BlocksDone(F, decrypt && leftover > 0, t, data, output[..], m)
      invariant k == m ==> output[16 * m..] == out0[16 * m..]
      invariant k == m ==> if decrypt && leftover > 0 then prev == TweakAt(t, m - 1) else tweak == TweakAt(t, m)
    {
      if leftover > 0 && decrypt && k == m - 1 {
        prev := tweak;
        tweak := GfDouble(tweak);
      }
      ghost var in1, out1 := input[..], output[..];
      CryptBlock(F, tweak, input[16 * k..16 * k + 16], output, 16 * k);
      UpToNext(F, leftover > 0 && decrypt && k == m - 1, t, data, out0, in1, out1, input[..], output[..], k);
      tweak := GfDouble(tweak);
      k := k + 1;
    }
  }

  lemma NothingDone(F: Block -> Block, t: Block, data: seq<byte>, out0: seq<byte>)
    ensures UpTo(F, t, data, out0, data, out0, 0)
  {
    WholeNone(F, t);
  }

  /** The two loops that fill `tmp`; the first also moves the beginning of the preceding block to the end. */
  method Gather(input: array<byte>, output: array<byte>, o: nat, b: nat, u: Block) returns (tmp: Block)
    requires 0 < b < 16 && 16 <= o && o + b <= input.Length && o + b <= output.Length && input != output
    modifies output
    ensures tmp == XorSeq(input[o..o + b] + old(output[o - 16..o])[b..], u)
    ensures output[o..o + b] == old(output[o - 16..o])[..b]
    ensures output[..o] == old(output[..o]) && output[o + b..] == old(output[o + b..])
  {
    hide Xor, XorSeq;
    ghost var before, first := output[..], output[o - 16..o];
    ghost var stolen := input[o..o + b] + first[b..];
    var t: seq<byte> := [];
    assert XorSeq(stolen[..0], u[..0]) == [];
    for i := 0 to b
      invariant t == XorSeq(stolen[..i], u[..i])
      invariant output[o..o + i] == first[..i]
      invariant output[..o] == before[..o] && output[o + i..] == before[o + i..]
    {
      XorSeqNext(stolen, u, i);
      t := t + [Xor(input[o + i], u[i])];
      assert output[o - 16 + i] == output[..o][o - 16 + i] == first[i];
      ghost var rest := output[o + i..];
      output[o + i] := output[o - 16 + i];
      assert output[o + i + 1..] == rest[1..];
      assert output[o..o + i + 1] == output[o..o + i] + [first[i]];
    }
    ghost var moved := output[..];
    for i := b to 16
      invariant t == XorSeq(stolen[..i], u[..i]) && output[..] == moved
    {
      assert output[o - 16 + i] == output[..o][o - 16 + i] == first[i] == stolen[i];
      XorSeqNext(stolen, u, i);
      t := t + [Xor(output[o - 16 + i], u[i])];
    }
    assert stolen[..16] == stolen && u[..16] == u;
    tmp := t;
  }

  /** The leftover bytes: ciphertext stealing. */
  method Steal(F: Block -> Block, decrypt: bool, t: Block, input: array<byte>, output: array<byte>, length: nat, u: Block)
    requires 16 <= length <= input.Length && length <= output.Length && length % 16 > 0 && input != output
    requires BlocksDone(F, decrypt, t, input[..length], output[..], length / 16)
    requires u == TweakAt(t, if decrypt then length / 16 - 1 else length / 16)
    modifies output
    ensures output[..length] == Xts(F, decrypt, t, input[..length])
    ensures output[length..] == old(output[length..])
  {
    hide Whole, TweakAt, Xex, XorSeq;
    var o := 16 * (length / 16);
    var b := length % 16;
    ghost var data, first, head, tail := input[..length], output[o - 16..o], output[..o - 16], output[length..];
    var tmp := Gather(input, output, o, b, u);
    assert output[..o - 16] == output[..o][..o - 16] == head;
    ghost var stolen: Block := data[o..] + first[b..];
    assert input[o..o + b] == data[o..];
    ghost var after := output[o..];
    assert after[..b] == output[o..o + b] == first[..b];
    Overwrite(F, u, stolen, tmp, output, o);
    assert output[length..] == after[b..];
    ghost var out := output[..length];
    assert out[o..] == after[..b];
    assert out[o - 16..o] == Xex(F, u, stolen) && out[..o - 16] == head;
    StolenIs(F, decrypt, t, data, out, first, u, o - 16, b);
  }

  lemma StolenIs(F: Block -> Block, decrypt: bool, t: Block, data: seq<byte>, out: seq<byte>, first: Block, u: Block, n: nat, b: nat)
    requires n % 16 == 0 && 0 < b < 16 && |data| == |out| == n + 16 + b
    requires out[..n] == Whole(F, t, data[..n])
    requires first == Xex(F, TweakAt(t, if decrypt then n / 16 + 1 else n / 16), data[n..n + 16])
    requires u == TweakAt(t, if decrypt then n / 16 else n / 16 + 1)
    requires out[n..n + 16] == Xex(F, u, data[n + 16..] + first[b..]) && out[n + 16..] == first[..b]
    ensures out == Xts(F, decrypt, t, data)
  {
    hide Whole, TweakAt, Xex;
    DivModUnique(|data|, 16, n / 16 + 1, b);
    assert |data| / 16 * 16 - 16 == n;
    assert out == out[..n] + (out[n..n + 16] + out[n + 16..]);
  }

  method Overwrite(F: Block -> Block, u: Block, ghost stolen: Block, tmp: Block, output: array<byte>, o: nat)
    requires 16 <= o <= output.Length && tmp == XorSeq(stolen, u)
    modifies output
    ensures output[o - 16..o] == Xex(F, u, stolen)
    ensures output[..o - 16] == old(output[..o - 16]) && output[o..] == old(output[o..])
  {
    hide Xor, XorSeq;
    var c := XorSeq(F(tmp), u);
    forall i | 0 <= i < 16 {
      output[o - 16 + i] := c[i];
    }
    assert output[o - 16..o] == c;
  }
}
