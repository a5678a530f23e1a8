/** Conversion between big numbers and strings of digits. */
module Numerals {
  import opened Words
  import opened Products

  /** The digits of v, most significant first; zero has one digit. */
  function Digits(v: nat, radix: nat): (d: seq<nat>)
    requires 2 <= radix
    ensures |d| > 0 && forall k :: 0 <= k < |d| ==> d[k] < radix
  {
    if v < radix then [v] else Smaller(v, radix); Digits(v / radix, radix) + [v % radix]
  }

  lemma Smaller(v: nat, radix: nat)
    requires 2 <= radix <= v
    ensures 0 < v / radix < v
  {
    var q := v / radix;
    MulMono(2, radix, q);
    assert v == radix * q + v % radix;
  }

  /** The value of a row of digits, most significant first. */
  function Value(d: seq<nat>, radix: nat): nat {
    if |d| == 0 then 0 else Value(d[..|d| - 1], radix) * radix + d[|d| - 1]
  }

  lemma ValueSnoc(d: seq<nat>, x: nat, radix: nat)
    ensures Value(d + [x], radix) == Value(d, radix) * radix + x
  {
    assert (d + [x])[..|d|] == d;
  }

  lemma {:induction false} ValueOfDigits(v: nat, radix: nat)
    requires 2 <= radix
    ensures Value(Digits(v, radix), radix) == v
  {
    hide Value, Digits;
    DigitsAre(v, radix);
    if v < radix {
      ValueNone(radix);
      ValueSnoc([], v, radix);
      assert [] + [v] == [v];
    } else {
      Smaller(v, radix);
      ValueOfDigits(v / radix, radix);
      ValueSnoc(Digits(v / radix, radix), v % radix, radix);
    }
  }

  lemma DigitsAre(v: nat, radix: nat)
    requires 2 <= radix
    ensures v < radix ==> Digits(v, radix) == [v]
    ensures v >= radix ==> 0 < v / radix < v && Digits(v, radix) == Digits(v / radix, radix) + [v % radix]
  {
    if v >= radix {
      Smaller(v, radix);
    }
  }

  lemma ValueNone(radix: nat)
    ensures Value([], radix) == 0
  {
  }

  /** The ASCII code of a digit. */
  function Code(d: nat): (c: byte)
    requires d < 16
    ensures c != 0 && c != 0x2D
  {
    if d < 10 then 0x30 + d else 0x41 + (d - 10)
  }

  /** The value of an ASCII digit, 255 for any other character; both cases of the letters are accepted. */
  function DigitOf(c: byte): nat {
    if 0x30 <= c <= 0x39 then c - 0x30
    else if 0x41 <= c <= 0x46 then c - 0x37
    else if 0x61 <= c <= 0x66 then c - 0x57
    else 255
  }

  function Codes(d: seq<nat>): (c: seq<byte>)
    requires forall k :: 0 <= k < |d| ==> d[k] < 16
    ensures |c| == |d| && forall k :: 0 <= k < |c| ==> c[k] == Code(d[k])
  {
    seq(|d|, k requires 0 <= k < |d| => Code(d[k]))
  }

  /** The characters. */
  lemma CodeIs(x: nat)
    requires x < 16
    ensures Code(x) == "0123456789ABCDEF"[x] as int && DigitOf(Code(x)) == x
  {
  }

  function DigitsOf(c: seq<byte>): (d: seq<nat>)
    ensures |d| == |c| && forall k :: 0 <= k < |c| ==> d[k] == DigitOf(c[k])
  {
    seq(|c|, k requires 0 <= k < |c| => DigitOf(c[k]))
  }

  lemma CodesInverse(d: seq<nat>)
    requires forall k :: 0 <= k < |d| ==> d[k] < 16
    ensures DigitsOf(Codes(d)) == d
  {
    var e := DigitsOf(Codes(d));
    forall k | 0 <= k < |d| ensures e[k] == d[k] {
      assert Codes(d)[k] == Code(d[k]);
    }
  }

  /** A number below 2^bits has at most `bits` digits, and at most half as many, rounded up, from radix 4 on. */
  lemma {:induction false} DigitCount(v: nat, radix: nat, m: nat, bits: nat)
    requires 2 <= radix && 1 <= m && Pow2(m) <= radix && v < Pow2(bits * m)
    ensures |Digits(v, radix)| <= bits || (bits == 0 && |Digits(v, radix)| == 1)
    decreases bits
  {
    assert Pow2(0 * m) == 1;
    if v >= radix && bits > 0 {
      Smaller(v, radix);
      Pow2Add((bits - 1) * m, m);
      MulDist(m, bits, 1);
      QuotientBelow(v, radix, Pow2(m), Pow2((bits - 1) * m));
      DigitCount(v / radix, radix, m, bits - 1);
    }
  }

  lemma QuotientBelow(v: nat, radix: nat, p: nat, w: nat)
    requires 0 < p <= radix && v < w * p
    ensures v / radix < w
  {
    var q := v / radix;
    if q >= w {
      MulMono(w, q, radix);
      MulMono(p, radix, w);
    }
  }

  /** Every byte as two hexadecimal digits. */
  function Nibbles(e: seq<nat>): (d: seq<nat>)
    requires forall k :: 0 <= k < |e| ==> e[k] < 256
    ensures |d| == 2 * |e| && forall k :: 0 <= k < |d| ==> d[k] < 16
  {
    if |e| == 0 then [] else Nibbles(e[..|e| - 1]) + [e[|e| - 1] / 16, e[|e| - 1] % 16]
  }

  lemma OneDigit(c: nat, radix: nat)
    requires c < radix && 2 <= radix
    ensures Digits(c, radix) == [c]
  {
  }

  lemma DigitsSnoc(u: nat, c: nat, radix: nat)
    requires 0 < u && c < radix && 2 <= radix
    ensures Digits(radix * u + c, radix) == Digits(u, radix) + [c]
  {
    DivModUnique(radix * u + c, radix, u, c);
    MulMono(1, u, radix);
  }

  lemma NibblesSnoc(e: seq<nat>, c: nat)
    requires c < 256 && forall k :: 0 <= k < |e| ==> e[k] < 256
    ensures Nibbles([]) == [] && Nibbles([] + [c]) == [c / 16, c % 16]
    ensures Nibbles(e + [c]) == Nibbles(e) + [c / 16, c % 16]
  {
    assert ([] + [c])[..0] == [];
    assert (e + [c])[..|e|] == e;
  }

  lemma {:induction false} NibblesValue(e: seq<nat>)
    requires forall k :: 0 <= k < |e| ==> e[k] < 256
    ensures Value(Nibbles(e), 16) == Value(e, 256)
  {
    if |e| > 0 {
      var f, x := Nibbles(e[..|e| - 1]), e[|e| - 1];
      NibblesValue(e[..|e| - 1]);
      assert Nibbles(e) == (f + [x / 16]) + [x % 16];
      ValueSnoc(f, x / 16, 16);
      ValueSnoc(f + [x / 16], x % 16, 16);
    }
  }

  /** The digits `mbedtls_mpi_write_string` prints for a magnitude: hexadecimal comes in whole bytes. */
  function Printed(v: nat, radix: nat): (d: seq<nat>)
    requires 2 <= radix <= 16
    ensures forall k :: 0 <= k < |d| ==> d[k] < radix
  {
    if radix == 16 then Nibbles(Digits(v, 256)) else Digits(v, radix)
  }

  function Sign(negative: bool): (t: seq<byte>)
    ensures |t| == if negative then 1 else 0
  {
    if negative then [0x2D] else []
  }

  function Print(negative: bool, v: nat, radix: nat): seq<byte>
    requires 2 <= radix <= 16
  {
    Sign(negative) + Codes(Printed(v, radix))
  }

  /** -254 and 254 in hexadecimal, which comes in whole bytes: 10 is 0A. */
  lemma Examples()
    ensures Print(true, 254, 10) == [0x2D, 0x32, 0x35, 0x34]
    ensures Print(false, 254, 16) == [0x46, 0x45] && Print(false, 10, 16) == [0x30, 0x41]
  {
    hide Digits, Nibbles;
    OneDigit(2, 10);
    DigitsSnoc(2, 5, 10);
    DigitsSnoc(25, 4, 10);
    assert Printed(254, 10) == [2, 5, 4];
    HexByte(254);
    HexByte(10);
  }

  lemma HexByte(c: nat)
    requires c < 256
    ensures Printed(c, 16) == [c / 16, c % 16]
  {
    hide Digits, Nibbles;
    OneDigit(c, 256);
    NibblesSnoc([], c);
    assert [] + [c] == [c];
  }

  /** Which characters are digits, and their values. */
  lemma DigitIs(c: byte, x: nat)
    requires x < 16
    ensures DigitOf(c) == x <==>
      c == "0123456789ABCDEF"[x] as int || (x >= 10 && c == "abcdef"[x - 10] as int)
  {
    CodeIs(x);
  }

  /** The syntax `mbedtls_mpi_read_string` accepts: an optional minus, then any number of digits. */
  predicate IsNumeral(t: seq<byte>, radix: nat) {
    AllDigits(if |t| > 0 && t[0] == 0x2D then t[1..] else t, radix)
  }

  predicate AllDigits(d: seq<byte>, radix: nat) {
    forall k :: 0 <= k < |d| ==> DigitOf(d[k]) < radix
  }

  function NumeralValue(t: seq<byte>, radix: nat): int {
    if |t| > 0 && t[0] == 0x2D then 0 - Value(DigitsOf(t[1..]), radix) else Value(DigitsOf(t), radix)
  }

  lemma PrintedValue(v: nat, radix: nat)
    requires 2 <= radix <= 16
    ensures Value(Printed(v, radix), radix) == v
  {
    hide Digits, Value;
    if radix == 16 {
      ValueOfDigits(v, 256);
      NibblesValue(Digits(v, 256));
    } else {
      ValueOfDigits(v, radix);
    }
  }

  lemma NumeralOf(negative: bool, c: seq<byte>, radix: nat)
    requires forall k :: 0 <= k < |c| ==> DigitOf(c[k]) < radix && c[k] != 0x2D
    ensures IsNumeral(Sign(negative) + c, radix)
    ensures NumeralValue(Sign(negative) + c, radix) == if negative then 0 - Value(DigitsOf(c), radix) else Value(DigitsOf(c), radix)
  {
    hide Value, DigitOf, DigitsOf;
    var t := Sign(negative) + c;
    if negative {
      assert t[1..] == c;
    } else {
      assert t == c;
    }
  }

  lemma ParseCodes(negative: bool, d: seq<nat>, radix: nat)
    requires radix <= 16 && forall k :: 0 <= k < |d| ==> d[k] < radix
    ensures IsNumeral(Sign(negative) + Codes(d), radix)
    ensures NumeralValue(Sign(negative) + Codes(d), radix) == if negative then 0 - Value(d, radix) else Value(d, radix)
  {
    hide Value, IsNumeral, NumeralValue, Sign, DigitOf, Code;
    CodesInverse(d);
    var c := Codes(d);
    forall k | 0 <= k < |c| ensures DigitOf(c[k]) < radix && c[k] != 0x2D {
      assert DigitsOf(c)[k] == DigitOf(c[k]);
      assert c[k] == Code(d[k]);
    }
    NumeralOf(negative, c, radix);
  }

  /** Reading back what was printed. */
  lemma ParsePrint(negative: bool, v: nat, radix: nat)
    requires 2 <= radix <= 16
    ensures IsNumeral(Print(negative, v, radix), radix)
    ensures NumeralValue(Print(negative, v, radix), radix) == if negative then 0 - v else v
  {
    hide Value, Printed, IsNumeral, NumeralValue;
    PrintedValue(v, radix);
    ParseCodes(negative, Printed(v, radix), radix);
  }

  /** The buffer size `mbedtls_mpi_write_string` asks for, terminator included. */
  function Needed(bits: nat, radix: nat): nat {
    var n := if radix >= 16 then bits / 2 / 2 else if radix >= 4 then bits / 2 else bits;
    n + 3 + (n + 3) % 2
  }

  /** The estimate is not wasteful. */
  lemma NeededAtMost(bits: nat, radix: nat)
    requires 2 <= radix <= 16
    ensures Needed(bits, radix) <= 4 + if radix == 16 then bits / 4 else if radix >= 4 then bits / 2 else bits
  {
    DivModUnique(bits, 4, bits / 2 / 2, bits % 4);
  }

  /** The estimate always leaves room for sign, digits and terminator. */
  lemma PrintFits(negative: bool, v: nat, radix: nat, bits: nat)
    requires 2 <= radix <= 16 && v < Pow2(bits)
    ensures |Print(negative, v, radix)| + 1 <= Needed(bits, radix)
  {
    hide Pow2, Digits, Nibbles, Codes, Needed;
    NeededBound(|Printed(v, radix)|, bits, radix);
    if radix == 16 {
      FewDigits(v, 256, 8, bits);
    } else if radix >= 4 {
      FewDigits(v, radix, 2, bits);
    } else {
      FewDigits(v, radix, 1, bits);
    }
  }

  lemma NeededBound(n: nat, bits: nat, radix: nat)
    ensures radix == 16 && (n <= 2 * ((bits + 7) / 8) || (bits == 0 && n == 2)) ==> n + 2 <= Needed(bits, radix)
    ensures 4 <= radix < 16 && (n <= (bits + 1) / 2 || (bits == 0 && n == 1)) ==> n + 2 <= Needed(bits, radix)
    ensures radix < 4 && (n <= bits || (bits == 0 && n == 1)) ==> n + 2 <= Needed(bits, radix)
  {
  }

  lemma FewDigits(v: nat, radix: nat, m: nat, bits: nat)
    requires v < Pow2(bits) && 2 <= radix
    requires m == 1 || (m == 2 && 4 <= radix) || (m == 8 && 256 <= radix)
    ensures |Digits(v, radix)| <= (bits + m - 1) / m || (bits == 0 && |Digits(v, radix)| == 1)
  {
    hide Pow2, Digits;
    Pow2Values();
    Pow2Zero();
    Pow2Monotonic(bits, (bits + m - 1) / m * m);
    DigitCount(v, radix, m, (bits + m - 1) / m);
  }

  /** One digit more in front. */
  lemma {:induction false} ValuePush(x: nat, d: seq<nat>, m: nat)
    ensures Value([x] + d, Pow2(m)) == x * Pow2(m * |d|) + Value(d, Pow2(m))
  {
    hide Value, Pow2;
    var b := Pow2(m);
    ValueNone(b);
    if |d| == 0 {
      assert [x] + d == [] + [x] && d == [];
      ValueSnoc([], x, b);
      assert m * |d| == 0;
      Pow2Zero();
    } else {
      var k := |d| - 1;
      ValuePush(x, d[..k], m);
      assert d == d[..k] + [d[k]];
      ValueSnoc(d[..k], d[k], b);
      assert [x] + d == ([x] + d[..k]) + [d[k]];
      ValueSnoc([x] + d[..k], d[k], b);
      Pow2Add(m * k, m);
      MulDist(m, k, 1);
      MulAssoc(x, Pow2(m * k), b);
      MulDist(b, x * Pow2(m * k), Value(d[..k], b));
    }
  }

  lemma {:induction false} ValueBound(d: seq<nat>, m: nat)
    requires forall k :: 0 <= k < |d| ==> d[k] < Pow2(m)
    ensures Value(d, Pow2(m)) < Pow2(m * |d|)
  {
    hide Value, Pow2;
    if |d| == 0 {
      ValueNone(Pow2(m));
      assert m * |d| == 0 && d == [];
      Pow2Zero();
    } else {
      var k := |d| - 1;
      ValueBound(d[..k], m);
      assert d == d[..k] + [d[k]];
      ValueSnoc(d[..k], d[k], Pow2(m));
      Pow2Add(m * k, m);
      MulDist(m, k, 1);
      MulMono(Value(d[..k], Pow2(m)) + 1, Pow2(m * k), Pow2(m));
      MulDist(Pow2(m), Value(d[..k], Pow2(m)), 1);
    }
  }

  lemma {:induction false} ValueLeadingZeros(n: nat, d: seq<nat>, radix: nat)
    ensures Value(seq(n, _ => 0) + d, radix) == Value(d, radix)
    decreases n, |d|
  {
    if |d| > 0 {
      ValueLeadingZeros(n, d[..|d| - 1], radix);
      assert seq(n, _ => 0) + d == (seq(n, _ => 0) + d[..|d| - 1]) + [d[|d| - 1]];
      ValueSnoc(seq(n, _ => 0) + d[..|d| - 1], d[|d| - 1], radix);
    } else if n > 0 {
      ValueLeadingZeros(n - 1, d, radix);
      assert seq(n, _ => 0) + d == (seq(n - 1, _ => 0) + d) + [0];
      ValueSnoc(seq(n - 1, _ => 0) + d, 0, radix);
    }
  }
}

module MpiString {
  import opened Words
  import opened Products
  import opened Limbs
  import opened LimbKernel
  import opened Congruence
  import opened Status
  import opened MpiModule
  import opened MpiBits
  import opened MpiDiv
  import opened Numerals
  import MpiExp

  /** `y = (y << biH) | h; z = y / b; y -= z * b` on wrapping limbs; the shifted bits are zero, so `|` is a sum. */
  function HalfLimbStep(y: nat, h: nat, b: nat): (r: nat)
    requires 0 < b
    ensures r < b
  {
    (Wrap(y * HALF) + h) % b
  }

  /** The remainder that the loop of `mbedtls_mpi_mod_int` computes, half a limb at a time from the top. */
  function HalfSteps(p: seq<limb>, b: nat): (r: nat)
    requires 0 < b
    ensures r < b
  {
    if |p| == 0 then 0
    else HalfLimbStep(HalfLimbStep(HalfSteps(p[1..], b), HighHalf(p[0]), b), LowHalf(p[0]), b)
  }

  /** The divisors for which shifting the remainder by half a limb loses nothing modulo b. */
  predicate ExactDivisor(b: nat)
    requires 0 < b
  {
    b <= HALF || BASE % b == 0
  }

  lemma HalfLimbStepExact(y: nat, h: nat, b: nat)
    requires 0 < b && ExactDivisor(b) && y < b && h < HALF
    ensures Cong(HalfLimbStep(y, h, b), y * HALF + h, b)
  {
    hide Cong;
    BaseIsPow2();
    var w := Wrap(y * HALF);
    if b <= HALF {
      HalfStepFits(y);
    } else {
      WrapCong(y * HALF, b);
    }
    CongRefl(y * HALF, b);
    CongRefl(h, b);
    CongAdd(w, y * HALF, h, h, b);
    CongMod(w + h, b);
    CongTrans((w + h) % b, w + h, y * HALF + h, b);
  }

  lemma WrapCong(x: nat, b: nat)
    requires 0 < b && BASE % b == 0
    ensures Cong(Wrap(x), x, b)
  {
    hide Cong;
    var q, c := x / BASE, BASE / b;
    assert BASE == c * b;
    MulAssoc(q, c, b);
    CongIntro(x, Wrap(x), b, q * c);
    CongSym(x, Wrap(x), b);
  }

  lemma HalfStepFits(y: nat)
    requires y < HALF
    ensures Wrap(y * HALF) == y * HALF
  {
    BaseIsPow2();
    MulMono(y, HALF - 1, HALF);
    MulDist(HALF, HALF, 1);
    MulNonNeg(y, HALF);
    WrapId(y * HALF);
  }

  lemma LimbStep(y0: nat, v: nat, y1: nat, hi: nat, y2: nat, lo: nat, x: nat, b: nat)
    requires Cong(y0, v, b) && Cong(y1, y0 * HALF + hi, b) && Cong(y2, y1 * HALF + lo, b) && x == hi * HALF + lo
    ensures Cong(y2, x + BASE * v, b)
  {
    hide Cong;
    BaseIsPow2();
    CongScale(y1, y0 * HALF + hi, HALF, b);
    CongRefl(lo, b);
    CongAdd(y1 * HALF, (y0 * HALF + hi) * HALF, lo, lo, b);
    CongTrans(y2, y1 * HALF + lo, (y0 * HALF + hi) * HALF + lo, b);
    MulDist(HALF, y0 * HALF, hi);
    MulAssoc(y0, HALF, HALF);
    CongScale(y0, v, BASE, b);
    CongRefl(x, b);
    CongAdd(BASE * y0, BASE * v, x, x, b);
    CongTrans(y2, BASE * y0 + x, x + BASE * v, b);
  }

  lemma {:induction false} HalfStepsExact(p: seq<limb>, b: nat)
    requires 0 < b && ExactDivisor(b)
    ensures HalfSteps(p, b) == Val(p) % b
  {
    hide Val, HalfLimbStep;
    if |p| == 0 {
      ValNone(p);
      DivModUnique(0, b, 0, 0);
    } else {
      var y0 := HalfSteps(p[1..], b);
      var y1 := HalfLimbStep(y0, HighHalf(p[0]), b);
      HalfStepsExact(p[1..], b);
      CongMod(Val(p[1..]), b);
      HalfLimbStepExact(y0, HighHalf(p[0]), b);
      HalfLimbStepExact(y1, LowHalf(p[0]), b);
      LimbStep(y0, Val(p[1..]), y1, HighHalf(p[0]), HalfLimbStep(y1, LowHalf(p[0]), b), LowHalf(p[0]), p[0], b);
      ValFirst(p);
      MpiExp.ResidueOf(HalfSteps(p, b), Val(p), b);
    }
  }

  /** The number HALF * BASE, on which every other divisor goes wrong: the set bit is shifted out. */
  lemma HalfStepsWrong(b: nat)
    requires 0 < b < BASE && !ExactDivisor(b)
    ensures HalfSteps([0, HALF], b) != Val([0, HALF]) % b
  {
    BaseIsPow2();
    var p: seq<limb> := [0, HALF];
    assert p[1..] == [HALF] && p[1..][1..] == [];
    assert HighHalf(HALF) == 1 && LowHalf(HALF) == 0 && HighHalf(0) == LowHalf(0) == 0;
    WrapId(0);
    WrapId(HALF);
    DivModUnique(BASE, BASE, 1, 0);
    DivModUnique(1, b, 0, 1);
    DivModUnique(HALF, b, 0, HALF);
    DivModUnique(0, b, 0, 0);
    assert HalfSteps([HALF], b) == HALF;
    assert HalfSteps(p, b) == 0;
    ValFirst(p);
    ValOne(HALF);
    if BASE * HALF % b == 0 {
      Pow2Add(BIL, HBIL);
      PowerOfTwoDivisor(b, BASE * HALF / b, BIL + HBIL, BIL);
    }
  }

  /** A divisor of a power of two divides every power of two that is larger. */
  lemma {:induction false} PowerOfTwoDivisor(b: nat, c: nat, k: nat, m: nat)
    requires 0 < b < Pow2(m) && b * c == Pow2(k)
    ensures Pow2(m) % b == 0
    decreases k
  {
    if k <= m {
      Pow2Add(k, m - k);
      MulAssoc(b, c, Pow2(m - k));
      DivModUnique(Pow2(m), b, c * Pow2(m - k), 0);
    } else if b % 2 == 0 {
      var h := b / 2;
      HalfProduct(h, c, Pow2(k - 1));
      PowerOfTwoDivisor(h, c, k - 1, m - 1);
      var q := Pow2(m - 1) / h;
      assert Pow2(m - 1) == h * q;
      MulAssoc(2, h, q);
      DivModUnique(Pow2(m), b, q, 0);
    } else {
      OddTimes(b, c, Pow2(k - 1));
      PowerOfTwoDivisor(b, c / 2, k - 1, m);
    }
  }

  lemma HalfProduct(h: nat, c: nat, p: nat)
    requires 2 * h * c == 2 * p
    ensures h * c == p
  {
    MulAssoc(2, h, c);
  }

  lemma OddTimes(b: nat, c: nat, p: nat)
    requires b % 2 == 1 && b * c == 2 * p
    ensures c % 2 == 0 && b * (c / 2) == p
  {
    var h, d := b / 2, c / 2;
    if c % 2 == 1 {
      MulDist(c, 2 * h, 1);
      MulAssoc(2, h, c);
    } else {
      MulAssoc(2, b, d);
      assert b * (2 * d) == 2 * (b * d);
    }
  }

  /** `mbedtls_mpi_mod_int` is right for all numbers exactly for these divisors. */
  lemma ModIntExactIff(b: nat)
    requires 0 < b < BASE
    ensures ExactDivisor(b) <==> forall p :: HalfSteps(p, b) == Val(p) % b
  {
    if ExactDivisor(b) {
      forall p ensures HalfSteps(p, b) == Val(p) % b {
        HalfStepsExact(p, b);
      }
    } else {
      HalfStepsWrong(b);
    }
  }

  /** The residue of a signed number from the residue of its magnitude. */
  function SignedResidue(s: sign, y: nat, b: nat): int {
    if s < 0 && y != 0 then b - y else y
  }

  /** `mbedtls_mpi_mod_int` */
  method ModInt(A: Mpi, b: int) returns (st: Status, r: nat)
    requires 0 - BASE <= 2 * b < BASE
    requires b == 2 ==> |A.p| > 0
    ensures st.Ok? || st.DivisionByZero? || st.NegativeValue?
    ensures st.DivisionByZero? <==> b == 0
    ensures st.NegativeValue? <==> b < 0
    ensures st.Ok? ==> r == SignedResidue(A.s, HalfSteps(A.p, b), b)
    ensures st.Ok? && ExactDivisor(b) ==> r == A.Int() % b
  {
    hide Val, HalfSteps, HalfLimbStep;
    st, r := Ok, 0;
    if b == 0 {
      return DivisionByZero, 0;
    }
    if b < 0 {
      return NegativeValue, 0;
    }
    NegativeResidue(Val(A.p), b);
    if ExactDivisor(b) {
      HalfStepsExact(A.p, b);
    }
    if b == 1 {
      return;
    }
    if b == 2 {
      MpiExp.OddIsLowBit(A.p);
      BaseIsPow2();
      HalfStepsExact(A.p, b);
      r := A.p[0] % 2;
      return;
    }
    r := HalfStepsLoop(A.p, b);
    if A.s < 0 && r != 0 {
      r := b - r;
    }
  }

  /** Its loop. */
  method HalfStepsLoop(p: seq<limb>, b: nat) returns (y: limb)
    requires 0 < b < BASE
    ensures y == HalfSteps(p, b)
  {
    hide HalfLimbStep;
    y := 0;
    for i := |p| downto 0
      invariant y == HalfSteps(p[i..], b)
    {
      assert p[i..][1..] == p[i + 1..];
      var x := p[i];
      y := TakeHalf(y, HighHalf(x), b);
      y := TakeHalf(y, LowHalf(x), b);
    }
    assert p[0..] == p;
  }

  method TakeHalf(y: limb, h: nat, b: nat) returns (y': limb)
    requires 0 < b < BASE && h < HALF
    ensures y' == HalfLimbStep(y, h, b)
  {
    RoomForHalf(y, h);
    var t: limb := Wrap(y * HALF) + h;
    var z := t / b;
    assert t - z * b == t % b;
    WrapId(t - z * b);
    y' := Wrap(t - z * b);
  }

  lemma RoomForHalf(y: nat, h: nat)
    requires h < HALF
    ensures Wrap(y * HALF) + h < BASE
  {
    BaseIsPow2();
    var q := y * HALF / BASE;
    MulAssoc(HALF, HALF, q);
    var m := y - HALF * q;
    MulDist(HALF, y, HALF * q);
    assert Wrap(y * HALF) == HALF * m;
    if m >= HALF {
      MulMono(HALF, m, HALF);
      assert false;
    }
    MulMono(m, HALF - 1, HALF);
    MulDist(HALF, HALF, 1);
  }

  lemma NegativeResidue(v: nat, b: nat)
    requires 0 < b
    ensures (0 - v) % b == if v % b == 0 then 0 else b - v % b
  {
    var q, r := v / b, v % b;
    if r == 0 {
      DivModUnique(0 - v, b, 0 - q, 0);
    } else {
      MulDist(b, 0 - q, 1);
      DivModUnique(0 - v, b, 0 - q - 1, b - r);
    }
  }

  lemma TruncatedIsFloor(a: int, b: int, q: int, rem: int)
    requires 0 <= a && 0 < b && IsTruncatedDivision(a, b, q, rem)
    ensures q == a / b
  {
    MulMono(b, b, q);
    DivModUnique(a, b, q, rem);
  }

  /** `mbedtls_mpi_div_int` in place, on a number that is not negative. */
  method DivIntInPlace(X: Mpi, b: sint) returns (r: Status)
    requires b > 0 && X.s == 1
    modifies X
    ensures r.Ok? || r.AllocFailed?
    ensures r.Ok? ==> Val(X.p) == old(Val(X.p)) / b && X.s == 1 && |X.p| > 0
  {
    hide Val, IsTruncatedDivision;
    var B := new Mpi.FromInt(b);
    ghost var a, q, rem := Val(X.p), 0, 0;
    r, q, rem := DivMpi(X, null, X, B);
    if r.Ok? {
      TruncatedIsFloor(a, b, q, rem);
    }
  }

  /** `mpi_get_digit` */
  method GetDigit(radix: nat, c: byte) returns (st: Status, d: nat)
    requires 2 <= radix <= 16
    ensures st.Ok? || st.InvalidCharacter?
    ensures d == DigitOf(c) && (st.Ok? <==> d < radix)
  {
    d := 255;
    if c >= 0x30 && c <= 0x39 {
      d := c - 0x30;
    }
    if c >= 0x41 && c <= 0x46 {
      d := c - 0x37;
    }
    if c >= 0x61 && c <= 0x66 {
      d := c - 0x57;
    }
    st := if d >= radix then InvalidCharacter else Ok;
  }

  /** One digit more in front of the digits that were written from the back. */
  lemma CodesPush(x: nat, d: seq<nat>)
    requires x < 16 && forall k :: 0 <= k < |d| ==> d[k] < 16
    ensures Codes([x] + d) == [Code(x)] + Codes(d)
  {
  }

  method PutDigit(buf: array<byte>, p: nat, at: nat, end: nat, r: nat, ghost d: seq<nat>)
    requires p <= at < end <= buf.Length && r < 16 && (forall k :: 0 <= k < |d| ==> d[k] < 16) && buf[at + 1..end] == Codes(d)
    modifies buf
    ensures buf[..p] == old(buf[..p]) && buf[at..end] == Codes([r] + d)
  {
    hide Codes;
    CodesPush(r, d);
    buf[at] := Code(r);
    assert buf[at..end] == [Code(r)] + buf[at + 1..end];
  }

  lemma DigitsStep(v: nat, radix: nat, d: seq<nat>)
    requires 2 <= radix
    ensures v / radix == 0 ==> Digits(v, radix) == [v % radix]
    ensures v / radix != 0 ==> Digits(v, radix) + d == Digits(v / radix, radix) + ([v % radix] + d)
    ensures v / radix <= v && (v / radix != 0 ==> v / radix < v)
  {
    if v < radix {
      DivModUnique(v, radix, 0, v);
    } else {
      Smaller(v, radix);
    }
  }

  /**
    `mpi_write_hlp`: the digits of X, written from the end of the free part of the buffer and then moved to
    its front.  It fails for lack of room exactly when there is not room for the digits.
   */
  method WriteHlp(X: Mpi, radix: nat, buf: array<byte>, p: nat, buflen: nat) returns (st: Status, p': nat)
    requires 2 <= radix <= 16 && X.s == 1 && |X.p| > 0 && p + buflen <= buf.Length
    modifies X, buf
    ensures st.Ok? || st.AllocFailed? || st.BufferTooSmall?
    ensures st.BufferTooSmall? ==> buflen < |Digits(old(Val(X.p)), radix)|
    ensures st.Ok? ==> p' == p + |Digits(old(Val(X.p)), radix)| <= p + buflen
    ensures st.Ok? ==> buf[p..p'] == Codes(Digits(old(Val(X.p)), radix)) && buf[..p] == old(buf[..p])
  {
    hide Val, Digits, Written, Codes;
    BaseIsPow2();
    p' := p;
    ghost var all := Digits(Val(X.p), radix);
    ghost var d: seq<nat> := [];
    var length := 0;
    var more := true;
    NoneWritten(Val(X.p), radix);
    while more
      invariant X.s == 1 && |X.p| > 0 && |d| == length <= buflen && forall k :: 0 <= k < |d| ==> d[k] < 16
      invariant Written(all, Val(X.p), radix, more, d)
      invariant buf[..p] == old(buf[..p])
      invariant buf[p + buflen - length..p + buflen] == Codes(d)
      decreases more, Val(X.p)
    {
      WrittenBound(all, Val(X.p), radix, d);
      if length >= buflen {
        return BufferTooSmall, p;
      }
      ghost var v := Val(X.p);
      var r;
      st, r := ModInt(X, radix);
      assert st.Ok?;
      st := DivIntInPlace(X, radix);
      if !st.Ok? {
        return;
      }
      PutDigit(buf, p, p + buflen - length - 1, p + buflen, r, d);
      WriteStep(all, v, radix, d);
      d := [r] + d;
      length := length + 1;
      var c := X.CmpInt(0);
      more := c != 0;
    }
    AllWritten(all, Val(X.p), radix, d);
    MoveDown(buf, p, buflen - length, length);
    p' := p + length;
    st := Ok;
  }

  /** The digits d have been written, those of v remain if there are more. */
  ghost predicate Written(all: seq<nat>, v: nat, radix: nat, more: bool, d: seq<nat>)
    requires 2 <= radix
  {
    all == (if more then Digits(v, radix) else []) + d
  }

  lemma NoneWritten(v: nat, radix: nat)
    requires 2 <= radix
    ensures Written(Digits(v, radix), v, radix, true, []) && Codes([]) == []
  {
    assert Digits(v, radix) + [] == Digits(v, radix);
  }

  lemma WrittenBound(all: seq<nat>, v: nat, radix: nat, d: seq<nat>)
    requires 2 <= radix <= 16 && Written(all, v, radix, true, d)
    ensures |d| < |all|
  {
    hide Digits;
  }

  lemma AllWritten(all: seq<nat>, v: nat, radix: nat, d: seq<nat>)
    requires 2 <= radix && Written(all, v, radix, false, d)
    ensures all == d
  {
    hide Digits;
  }

  lemma WriteStep(all: seq<nat>, v: nat, radix: nat, d: seq<nat>)
    requires 2 <= radix && Written(all, v, radix, true, d)
    ensures v / radix <= v && (v / radix != 0 ==> v / radix < v)
    ensures Written(all, v / radix, radix, v / radix != 0, [v % radix] + d)
  {
    hide Digits;
    DigitsStep(v, radix, d);
  }

  /** `memmove` of a row of bytes to an earlier place of the same buffer. */
  method MoveDown(buf: array<byte>, p: nat, gap: nat, length: nat)
    requires p + gap + length <= buf.Length
    modifies buf
    ensures buf[p..p + length] == old(buf[p + gap..p + gap + length]) && buf[..p] == old(buf[..p])
  {
    ghost var before := buf[..];
    for i := 0 to length
      invariant buf[p..p + i] == before[p + gap..p + gap + i] && buf[..p] == before[..p]
      invariant forall k :: p + i <= k < buf.Length ==> buf[k] == before[k]
    {
      buf[p + i] := buf[p + gap + i];
      assert buf[p..p + i + 1] == buf[p..p + i] + [before[p + gap + i]];
    }
    assert before[p + gap..p + gap + length] == old(buf[p + gap..p + gap + length]);
  }

  /** v without its last m bytes. */
  function Front(v: nat, m: nat): nat {
    hide Pow2;
    DivModBounds(v, Pow2(8 * m));
    v / Pow2(8 * m)
  }

  /** The state of the hexadecimal printer before the last m bytes: nothing but zero bytes seen, or the rest printed. */
  ghost predicate Progress(v: nat, m: nat, k: nat, out: seq<byte>) {
    && k <= 1
    && (k == 0 ==> m > 0 && out == [] && Front(v, m) == 0)
    && (k == 1 ==> out == Codes(Nibbles(Digits(Front(v, m), 256))))
    && (k == 1 && m > 0 ==> Front(v, m) > 0)
  }

  lemma {:induction false} DigitsShift(v: nat, m: nat)
    requires Front(v, m) > 0
    ensures |Digits(v, 256)| == |Digits(Front(v, m), 256)| + m
  {
    hide Pow2;
    if m == 0 {
      Pow2Zero();
      DivByOne(v);
    } else {
      Pow2Values();
      Pow2Add(8, 8 * (m - 1));
      DivTwice(v, 256, Pow2(8 * (m - 1)));
      DigitsShift(v / 256, m - 1);
      if v < 256 {
        DivModUnique(v, 256, 0, v);
        DivModUnique(0, Pow2(8 * (m - 1)), 0, 0);
        assert false;
      }
    }
  }

  lemma HexStep(v: nat, m: nat, k: nat, out: seq<byte>, c: nat)
    requires m > 0 && Progress(v, m, k, out) && c < 256
    requires Front(v, m - 1) == 256 * Front(v, m) + c
    ensures c == 0 && k == 0 && m != 1 ==> Progress(v, m - 1, 0, out)
    ensures !(c == 0 && k == 0 && m != 1) ==> Progress(v, m - 1, 1, out + [Code(c / 16)] + [Code(c % 16)])
    ensures !(c == 0 && k == 0 && m != 1) ==> |out| + 2 <= 2 * |Digits(v, 256)|
  {
    hide Front, Codes, Digits, Nibbles, Code, Progress;
    if c == 0 && k == 0 && m != 1 {
      HexSkip(v, m, out);
    } else {
      HexPrint(v, m, k, out, c);
    }
  }

  lemma HexSkip(v: nat, m: nat, out: seq<byte>)
    requires m > 1 && Progress(v, m, 0, out) && Front(v, m - 1) == 256 * Front(v, m)
    ensures Progress(v, m - 1, 0, out)
  {
    hide Front, Codes, Digits, Nibbles;
  }

  lemma HexPrint(v: nat, m: nat, k: nat, out: seq<byte>, c: nat)
    requires m > 0 && Progress(v, m, k, out) && c < 256 && !(c == 0 && k == 0 && m != 1)
    requires Front(v, m - 1) == 256 * Front(v, m) + c
    ensures Progress(v, m - 1, 1, out + [Code(c / 16)] + [Code(c % 16)])
    ensures |out| + 2 <= 2 * |Digits(v, 256)|
  {
    hide Front, Codes, Digits, Nibbles, Code;
    HexDigits(Front(v, m), c, Front(v, m - 1), out);
    HexRoom(v, m - 1, |out| + 2);
  }

  lemma HexRoom(v: nat, m: nat, n: nat)
    requires n == 2 * |Digits(Front(v, m), 256)|
    ensures n <= 2 * |Digits(v, 256)|
  {
    hide Front;
    if Front(v, m) > 0 {
      DigitsShift(v, m);
    } else {
      OneDigit(0, 256);
    }
  }

  /** One byte more is two digits more. */
  lemma HexDigits(u: nat, c: nat, u': nat, out: seq<byte>)
    requires c < 256 && u' == 256 * u + c && out == if u == 0 then [] else Codes(Nibbles(Digits(u, 256)))
    ensures Codes(Nibbles(Digits(u', 256))) == out + [Code(c / 16)] + [Code(c % 16)]
    ensures |out| + 2 == 2 * |Digits(u', 256)|
  {
    hide Digits, Nibbles, Codes;
    var e := if u == 0 then [] else Digits(u, 256);
    if u == 0 {
      OneDigit(c, 256);
    } else {
      DigitsSnoc(u, c, 256);
    }
    assert e + [c] == Digits(u', 256);
    NibblesSnoc(e, c);
    CodesSnoc(Nibbles(e), c / 16, c % 16);
  }

  lemma CodesSnoc(d: seq<nat>, x: nat, y: nat)
    requires x < 16 && y < 16 && forall k :: 0 <= k < |d| ==> d[k] < 16
    ensures Codes(d + [x, y]) == Codes(d) + [Code(x)] + [Code(y)] && Codes([]) == []
  {
  }

  lemma BytePosition(p: seq<limb>, i: nat, j: nat)
    requires i < |p| && j < CIL
    ensures Front(Val(p), i * CIL + j) == 256 * Front(Val(p), i * CIL + j + 1) + p[i] / Pow2(8 * j) % 256
  {
    hide Val, Pow2;
    Pow2Values();
    FieldPosition(p, i, 8 * j, 8);
    MulAssoc(i, CIL, 8);
  }

  /** The hexadecimal branch of `mbedtls_mpi_write_string`: bytes from the top, without leading zero bytes. */
  method WriteHex(X: Mpi, buf: array<byte>, start: nat) returns (p: nat)
    requires |X.p| > 0 && start + |Printed(Val(X.p), 16)| <= buf.Length
    modifies buf
    ensures p == start + |Printed(Val(X.p), 16)| && buf[start..p] == Codes(Printed(Val(X.p), 16))
    ensures buf[..start] == old(buf[..start])
  {
    hide Val, Pow2, Digits, Progress, Front;
    ghost var v := Val(X.p);
    ghost var out: seq<byte> := [];
    var k := 0;
    p := start;
    NothingPrinted(X.p);
    for i := |X.p| downto 0
      invariant Progress(v, i * CIL, k, out)
      invariant p == start + |out| <= buf.Length && buf[start..p] == out
      invariant buf[..start] == old(buf[..start])
    {
      var j := CIL;
      MulDist(CIL, i, 1);
      MulNonNeg(i, CIL);
      while j > 0
        invariant 0 <= j <= CIL && Progress(v, i * CIL + j, k, out)
        invariant p == start + |out| <= buf.Length && buf[start..p] == out
        invariant buf[..start] == old(buf[..start])
      {
        var c := X.p[i] / Pow2(8 * (j - 1)) % 256;
        BytePosition(X.p, i, j - 1);
        HexStep(v, i * CIL + j, k, out, c);
        j := j - 1;
        if c == 0 && k == 0 && i + j != 0 {
          LastByte(i, j);
          continue;
        }
        LastByte(i, j);
        PutHex(buf, start, p, c, out);
        out := out + [Code(c / 16)] + [Code(c % 16)];
        p := p + 2;
        k := 1;
      }
    }
    AllPrinted(v, k, out);
  }

  method PutHex(buf: array<byte>, start: nat, p: nat, c: nat, ghost out: seq<byte>)
    requires start <= p && p + 2 <= buf.Length && buf[start..p] == out && c < 256
    modifies buf
    ensures buf[start..p + 2] == out + [Code(c / 16)] + [Code(c % 16)] && buf[..start] == old(buf[..start])
  {
    hide Code;
    buf[p] := Code(c / 16);
    buf[p + 1] := Code(c % 16);
    assert buf[start..p + 2] == buf[start..p] + [buf[p]] + [buf[p + 1]];
  }

  lemma LastByte(i: nat, j: nat)
    ensures i + j == 0 <==> i * CIL + j == 0
  {
    if i > 0 {
      MulMono(1, i, CIL);
    }
  }

  lemma NothingPrinted(p: seq<limb>)
    requires |p| > 0
    ensures Progress(Val(p), |p| * CIL, 0, [])
  {
    hide Val, Pow2, BPow;
    ValBound(p);
    BPowIsPow2(|p|);
    MulAssoc(|p|, CIL, 8);
    DivModUnique(Val(p), BPow(|p|), 0, Val(p));
    MulMono(1, |p|, CIL);
  }

  lemma AllPrinted(v: nat, k: nat, out: seq<byte>)
    requires Progress(v, 0, k, out)
    ensures out == Codes(Printed(v, 16))
  {
    DivByOne(v);
  }

  /** The digits of |X|, in either branch of `mbedtls_mpi_write_string`. */
  method WriteMagnitude(X: Mpi, radix: nat, buf: array<byte>, start: nat) returns (st: Status, p: nat)
    requires |X.p| > 0 && 2 <= radix <= 16 && start + |Printed(Val(X.p), radix)| <= buf.Length
    modifies buf
    ensures st.Ok? || st.AllocFailed?
    ensures st.Ok? ==> p == start + |Printed(Val(X.p), radix)| && buf[start..p] == Codes(Printed(Val(X.p), radix))
    ensures st.Ok? ==> buf[..start] == old(buf[..start])
  {
    hide Val, Digits;
    p := start;
    if radix == 16 {
      p := WriteHex(X, buf, start);
      return Ok, p;
    }
    var T := new Mpi();
    st := T.Copy(X);
    if !st.Ok? {
      return;
    }
    if T.s == -1 {
      T.s := 1;
    }
    st, p := WriteHlp(T, radix, buf, start, buf.Length - start);
  }

  /** `mbedtls_mpi_write_string` */
  method WriteString(X: Mpi, radix: int, buf: array<byte>) returns (st: Status, olen: nat)
    requires |X.p| > 0
    modifies buf
    ensures st.Ok? || st.AllocFailed? || st.BadInputData? || st.BufferTooSmall?
    ensures st.BadInputData? <==> !(2 <= radix <= 16)
    ensures st.BufferTooSmall? <==> 2 <= radix <= 16 && buf.Length < Needed(BitCount(Val(X.p)), radix)
    ensures st.BufferTooSmall? ==> olen == Needed(BitCount(Val(X.p)), radix)
    ensures st.Ok? ==> 0 < olen <= buf.Length && buf[..olen] == Print(X.s == -1, Val(X.p), radix) + [0]
  {
    hide Val, Pow2, Needed, Printed, Codes;
    olen := 0;
    if radix < 2 || radix > 16 {
      return BadInputData, 0;
    }
    var bits := BitLen(X);
    PrintFits(X.s == -1, Val(X.p), radix, bits);
    var n := NeededSize(bits, radix);
    if buf.Length < n {
      return BufferTooSmall, n;
    }
    var p := 0;
    if X.s == -1 {
      buf[p] := 0x2D;
      p := p + 1;
    }
    ghost var m := p;
    assert buf[..m] == Sign(X.s == -1);
    st, p := WriteMagnitude(X, radix, buf, p);
    if !st.Ok? {
      return;
    }
    ghost var text := Print(X.s == -1, Val(X.p), radix);
    assert buf[..p] == buf[..m] + buf[m..p] == text;
    buf[p] := 0;
    p := p + 1;
    assert buf[..p] == text + [0];
    return Ok, p;
  }

  /** The computation of the size. */
  method NeededSize(bits: nat, radix: nat) returns (n: nat)
    ensures n == Needed(bits, radix)
  {
    n := bits;
    if radix >= 4 {
      n := n / 2;
    }
    if radix >= 16 {
      n := n / 2;
    }
    n := n + 1;
    n := n + 1;
    n := n + 1;
    n := n + n % 2;
  }

  /** A hexadecimal digit goes to bits of the row that are still zero, so the `|` of the C code is a sum. */
  lemma NibblePosition(p: seq<limb>, j: nat, d: nat)
    requires j / (2 * CIL) < |p| && d < 16 && Val(p) < Pow2(4 * j)
    ensures var k, f := j / (2 * CIL), Pow2(4 * (j % (2 * CIL)));
      p[k] < f && p[k] + d * f < BASE && Val(p[k := p[k] + d * f]) == Val(p) + d * Pow2(4 * j) < Pow2(4 * (j + 1))
  {
    hide Val, Pow2, BPow;
    var k, r := j / (2 * CIL), j % (2 * CIL);
    var f := Pow2(4 * r);
    NibbleWeight(j, k, r);
    ValAtLeast(p, k);
    BelowShift(p[k], f, BPow(k), Val(p));
    NibbleFits(r, d);
    ValUpdate(p, k, p[k] + d * f);
    MulAssoc(d, f, BPow(k));
    Pow2Values();
    Pow2Add(4 * j, 4);
    MulMono(d, 15, Pow2(4 * j));
  }

  lemma NibbleWeight(j: nat, k: nat, r: nat)
    requires k == j / (2 * CIL) && r == j % (2 * CIL)
    ensures Pow2(4 * j) == BPow(k) * Pow2(4 * r) == Pow2(4 * r) * BPow(k)
  {
    hide Pow2, BPow;
    assert j == 2 * CIL * k + r;
    MulAssoc(4, 2 * CIL, k);
    Pow2Add(k * BIL, 4 * r);
    BPowIsPow2(k);
  }

  lemma NibbleFits(r: nat, d: nat)
    requires r < 2 * CIL && d < 16
    ensures d * Pow2(4 * r) + Pow2(4 * r) <= BASE
  {
    hide Pow2;
    Pow2Values();
    Pow2Add(4 * r, 4);
    BaseIsPow2();
    Pow2Monotonic(4 * r + 4, BIL);
    MulMono(d, 15, Pow2(4 * r));
  }

  lemma BelowShift(x: nat, f: nat, w: nat, v: nat)
    requires x * w <= v < w * f
    ensures x < f
  {
    if x >= f {
      MulMono(f, x, w);
    }
  }

  /** The hexadecimal branch of `mbedtls_mpi_read_string`: digits from the back, each put in its place. */
  method ReadHex(X: Mpi, t: seq<byte>) returns (st: Status)
    requires Val(X.p) == 0 && X.s == 1 && BitsToLimbs(4 * |t|) <= |X.p|
    modifies X
    ensures st.Ok? || st.InvalidCharacter?
    ensures st.Ok? <==> AllDigits(t, 16)
    ensures st.Ok? ==> X.Int() == Value(DigitsOf(t), 16)
  {
    hide Val, Pow2, Value, DigitOf;
    var i, j := |t|, 0;
    EmptyValue(t, 16);
    Pow2Zero();
    while i > 0
      invariant 0 <= i <= |t| && i + j == |t| && X.s == 1 && |X.p| == old(|X.p|)
      invariant forall k :: i <= k < |t| ==> DigitOf(t[k]) < 16
      invariant Val(X.p) == Value(DigitsOf(t[i..]), 16) < Pow2(4 * j)
    {
      var d;
      st, d := GetDigit(16, t[i - 1]);
      if !st.Ok? {
        return;
      }
      RoomForNibble(|t|, j, |X.p|);
      NibbleInFront(t, i, d);
      PlaceNibble(X, j, d);
      i, j := i - 1, j + 1;
    }
    assert t[0..] == t;
    st := Ok;
  }

  /** `X->p[j / (2 * ciL)] |= d << ((j % (2 * ciL)) << 2)` */
  method PlaceNibble(X: Mpi, j: nat, d: nat)
    requires j / (2 * CIL) < |X.p| && d < 16 && Val(X.p) < Pow2(4 * j)
    modifies X
    ensures X.s == old(X.s) && |X.p| == old(|X.p|) && Val(X.p) == old(Val(X.p)) + d * Pow2(4 * j) < Pow2(4 * (j + 1))
  {
    hide Val, Pow2;
    NibblePosition(X.p, j, d);
    var k := j / (2 * CIL);
    X.p := X.p[k := X.p[k] + d * Pow2(4 * (j % (2 * CIL)))];
  }

  lemma NibbleInFront(t: seq<byte>, i: nat, d: nat)
    requires 0 < i <= |t| && d == DigitOf(t[i - 1])
    ensures Value(DigitsOf(t[i - 1..]), 16) == d * Pow2(4 * (|t| - i)) + Value(DigitsOf(t[i..]), 16)
  {
    hide Value, Pow2;
    Pow2Values();
    ValuePush(d, DigitsOf(t[i..]), 4);
    assert DigitsOf(t[i - 1..]) == [d] + DigitsOf(t[i..]);
  }

  lemma EmptyValue(t: seq<byte>, radix: nat)
    ensures Value(DigitsOf(t[|t|..]), radix) == 0 && Value(DigitsOf(t[..0]), radix) == 0
  {
  }

  lemma RoomForNibble(n: nat, j: nat, l: nat)
    requires j < n && BitsToLimbs(4 * n) <= l
    ensures j / (2 * CIL) < l
  {
    var k := j / (2 * CIL);
    assert 2 * CIL * k <= j;
    assert BIL == 4 * (2 * CIL);
    assert 4 * n <= l * BIL == BIL * l;
    MulAssoc(4, 2 * CIL, l);
    if k >= l {
      MulMono(l, k, 2 * CIL);
    }
  }

  /** The other radices: one multiplication and one addition for a digit. */
  method ReadDigits(X: Mpi, T: Mpi, radix: nat, t: seq<byte>) returns (st: Status)
    requires 2 <= radix <= 16 && X.Int() == 0 && X != T
    modifies X, T
    ensures st.Ok? || st.InvalidCharacter? || st.AllocFailed?
    ensures st.InvalidCharacter? ==> !AllDigits(t, radix)
    ensures st.Ok? ==> AllDigits(t, radix)
    ensures st.Ok? ==> X.Int() == Value(DigitsOf(t), radix)
  {
    hide Val, Value;
    BaseIsPow2();
    EmptyValue(t, radix);
    for i := 0 to |t|
      invariant X.Int() == Value(DigitsOf(t[..i]), radix)
      invariant forall k :: 0 <= k < i ==> DigitOf(t[k]) < radix
    {
      var d;
      st, d := GetDigit(radix, t[i]);
      if !st.Ok? {
        return;
      }
      st := T.MulInt(X, radix);
      if !st.Ok? {
        return;
      }
      st := X.AddInt(T, d);
      if !st.Ok? {
        return;
      }
      ValueSnoc(DigitsOf(t[..i]), d, radix);
      assert DigitsOf(t[..i + 1]) == DigitsOf(t[..i]) + [d];
    }
    assert t[..|t|] == t;
    st := Ok;
  }

  /** `mbedtls_mpi_read_string`; t is the string without its terminator. */
  method ReadString(X: Mpi, radix: int, t: seq<byte>) returns (st: Status)
    modifies X
    ensures st.Ok? || st.InvalidCharacter? || st.AllocFailed? || st.BadInputData?
    ensures st.BadInputData? <==> !(2 <= radix <= 16)
    ensures st.InvalidCharacter? ==> !IsNumeral(t, radix)
    ensures st.Ok? ==> IsNumeral(t, radix) && X.Int() == NumeralValue(t, radix)
  {
    hide Val;
    if radix < 2 || radix > 16 {
      return BadInputData;
    }
    if |t| == 0 {
      X.s, X.p := 1, [];
      ValNone(X.p);
      return Ok;
    }
    var s, negative := t, false;
    if t[0] == 0x2D {
      s, negative := t[1..], true;
    }
    if radix == 16 {
      :- X.Grow(BitsToLimbs(4 * |s|));
      :- X.Lset(0);
      st := ReadHex(X, s);
    } else {
      var T := new Mpi();
      :- X.Lset(0);
      st := ReadDigits(X, T, radix, s);
    }
    if !st.Ok? {
      return;
    }
    assert X.Int() == Value(DigitsOf(s), radix);
    var bits := BitLen(X);
    Pow2Zero();
    if negative && bits != 0 {
      X.s := -1;
    }
  }

  /** Printing and reading back gives the same number, in a buffer of the size that was asked for. */
  method RoundTrip(X: Mpi, radix: int, Y: Mpi) returns (st: Status)
    requires |X.p| > 0 && 2 <= radix <= 16 && X != Y
    modifies Y
    ensures st.Ok? || st.AllocFailed?
    ensures st.Ok? ==> Y.Int() == X.Int()
  {
    hide Val, Print, Needed, Pow2, IsNumeral, NumeralValue;
    ghost var text := Print(X.s == -1, Val(X.p), radix);
    ParsePrint(X.s == -1, Val(X.p), radix);
    var none := new byte[0];
    var size, olen;
    st, size := WriteString(X, radix, none);
    if st.Ok? || st.AllocFailed? {
      return;
    }
    var buf := new byte[size];
    st, olen := WriteString(X, radix, buf);
    if !st.Ok? {
      return;
    }
    assert buf[..olen - 1] == text;
    st := ReadString(Y, radix, buf[..olen - 1]);
  }
}
