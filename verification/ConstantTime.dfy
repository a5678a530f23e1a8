/** The branch-free helpers, bit by bit, and what they compute. */
module ConstantTime {
  import opened Words
  import opened Products
  import opened Blocks

  // ---------- the bit operations on words of n bits ----------

  function Or(a: nat, b: nat, n: nat): (c: nat)
    ensures c < Pow2(n)
  {
    if n == 0 then 0 else (if a % 2 + b % 2 > 0 then 1 else 0) + 2 * Or(a / 2, b / 2, n - 1)
  }

  function And(a: nat, b: nat, n: nat): (c: nat)
    ensures c < Pow2(n)
  {
    if n == 0 then 0 else (a % 2) * (b % 2) + 2 * And(a / 2, b / 2, n - 1)
  }

  /** `~a` */
  function Not(a: nat, n: nat): (c: nat)
    requires a < Pow2(n)
    ensures c < Pow2(n)
  {
    Pow2(n) - 1 - a
  }

  /** Unsigned wrap-around to n bits. */
  function WrapTo(a: int, n: nat): (c: nat)
    ensures c < Pow2(n)
  {
    a % Pow2(n)
  }

  lemma {:induction false} OrZero(a: nat, b: nat, n: nat)
    requires a < Pow2(n) && b < Pow2(n)
    ensures Or(a, b, n) == 0 <==> a == 0 && b == 0
    ensures Or(a, 0, n) == a && Or(0, b, n) == b
  {
    if n > 0 {
      OrZero(a / 2, b / 2, n - 1);
    }
  }

  lemma {:induction false} AndOnes(a: nat, n: nat)
    requires a < Pow2(n)
    ensures And(Pow2(n) - 1, a, n) == a && And(a, Pow2(n) - 1, n) == a
    ensures And(0, a, n) == 0 && And(a, 0, n) == 0
  {
    hide And, Pow2;
    if n > 0 {
      Pow2Next(n - 1);
      AndOnes(a / 2, n - 1);
      var w := Pow2(n - 1);
      assert (2 * w - 1) / 2 == w - 1 && (2 * w - 1) % 2 == 1;
      AndNext(2 * w - 1, a, n);
      AndNext(a, 2 * w - 1, n);
      AndNext(0, a, n);
      AndNext(a, 0, n);
    } else {
      AndNone(a);
    }
  }

  lemma AndNext(a: nat, b: nat, n: nat)
    requires n > 0
    ensures And(a, b, n) == (if a % 2 == 1 && b % 2 == 1 then 1 else 0) + 2 * And(a / 2, b / 2, n - 1)
  {
  }

  lemma AndNone(a: nat)
    ensures Pow2(0) == 1 && And(a, 0, 0) == And(0, a, 0) == And(0, 0, 0) == 0
  {
  }

  lemma OrNext(a: nat, b: nat, n: nat)
    requires n > 0
    ensures Or(a, b, n) == (if a % 2 == 1 || b % 2 == 1 then 1 else 0) + 2 * Or(a / 2, b / 2, n - 1)
  {
  }

  /** The top bit of a word of n bits. */
  function Top(a: nat, n: nat): (t: nat)
    requires 0 < n && a < Pow2(n)
    ensures t == if a >= Pow2(n - 1) then 1 else 0
  {
    TopIs(a, Pow2(n - 1));
    a / Pow2(n - 1)
  }

  lemma TopIs(a: nat, w: nat)
    requires 0 < w && a < 2 * w
    ensures a / w == if a >= w then 1 else 0
  {
    if a >= w {
      DivModUnique(a, w, 1, a - w);
    } else {
      DivModUnique(a, w, 0, a);
    }
  }

  lemma BitNone(a: nat, b: nat)
    ensures Pow2(0) == 1 && Pow2(1) == 2 && Or(a, b, 0) == 0 && And(a, b, 0) == 0 && XorBits(a, b, 0) == 0
  {
  }

  lemma {:induction false} TopOr(a: nat, b: nat, n: nat)
    requires 0 < n && a < Pow2(n) && b < Pow2(n)
    ensures Top(Or(a, b, n), n) == if Top(a, n) + Top(b, n) > 0 then 1 else 0
  {
    hide Or, Pow2;
    OrNext(a, b, n);
    if n == 1 {
      assert Pow2(1) == 2 && Pow2(0) == 1 && Or(a / 2, b / 2, 0) == 0 by {
        BitNone(a / 2, b / 2);
      }
    } else {
      Pow2Next(n - 1);
      Pow2Next(n - 2);
      TopOr(a / 2, b / 2, n - 1);
    }
  }

  lemma {:induction false} TopAnd(a: nat, b: nat, n: nat)
    requires 0 < n && a < Pow2(n) && b < Pow2(n)
    ensures Top(And(a, b, n), n) == Top(a, n) * Top(b, n)
  {
    hide And, Pow2;
    AndNext(a, b, n);
    BitNone(a / 2, b / 2);
    var x, y := Top(a, n), Top(b, n);
    assert x * y == if x == 1 && y == 1 then 1 else 0;
    if n > 1 {
      Pow2Next(n - 1);
      Pow2Next(n - 2);
      TopAnd(a / 2, b / 2, n - 1);
    }
  }

  lemma {:induction false} TopXor(a: nat, b: nat, n: nat)
    requires 0 < n && a < Pow2(n) && b < Pow2(n)
    ensures Top(XorBits(a, b, n), n) == if Top(a, n) == Top(b, n) then 0 else 1
  {
    hide XorBits, Pow2;
    XorBitsNext(a, b, n);
    BitNone(a / 2, b / 2);
    if n > 1 {
      Pow2Next(n - 1);
      Pow2Next(n - 2);
      TopXor(a / 2, b / 2, n - 1);
    }
  }

  // ---------- the helpers ----------

  /** `(value | -value) >> (n - 1)` */
  function Nonzero(v: nat, n: nat): nat
    requires 0 < n && v < Pow2(n)
  {
    Top(Or(v, WrapTo(0 - v, n), n), n)
  }

  lemma NonzeroIs(v: nat, n: nat)
    requires 0 < n && v < Pow2(n)
    ensures Nonzero(v, n) == if v != 0 then 1 else 0
  {
    hide Or;
    var m := WrapTo(0 - v, n);
    NegateIs(v, Pow2(n - 1));
    TopOr(v, m, n);
  }

  lemma NegateIs(v: nat, w: nat)
    requires 0 < w && v < 2 * w
    ensures (0 - v) % (2 * w) == if v == 0 then 0 else 2 * w - v
  {
    if v == 0 {
      DivModUnique(0, 2 * w, 0, 0);
    } else {
      DivModUnique(0 - v, 2 * w, -1, 2 * w - v);
    }
  }

  /** `mbedtls_ct_uint_mask` and its relatives for other widths: all ones or nothing. */
  function Mask(v: nat, n: nat): (m: nat)
    requires 0 < n && v < Pow2(n)
    ensures m < Pow2(n)
  {
    WrapTo(0 - Nonzero(v, n), n)
  }

  lemma MaskIs(v: nat, n: nat)
    requires 0 < n && v < Pow2(n)
    ensures Mask(v, n) == if v != 0 then Pow2(n) - 1 else 0
  {
    NonzeroIs(v, n);
    NegateIs(Nonzero(v, n), Pow2(n - 1));
  }

  /** `mbedtls_ct_uint_if` */
  function If(condition: nat, if1: nat, if0: nat, n: nat): (r: nat)
    requires 0 < n && condition < Pow2(n)
    ensures r < Pow2(n)
  {
    var mask := Mask(condition, n);
    Or(And(mask, if1, n), And(Not(mask, n), if0, n), n)
  }

  lemma IfIs(condition: nat, if1: nat, if0: nat, n: nat)
    requires 0 < n && condition < Pow2(n) && if1 < Pow2(n) && if0 < Pow2(n)
    ensures If(condition, if1, if0, n) == if condition != 0 then if1 else if0
  {
    hide Mask, Or, And;
    MaskIs(condition, n);
    AndOnes(if1, n);
    AndOnes(if0, n);
    OrZero(if1, if0, n);
  }

  /** `mbedtls_ct_size_gt`: the sign bit of y - x. */
  function Gt(x: nat, y: nat, n: nat): nat
    requires 0 < n
  {
    Top(WrapTo(y - x, n), n)
  }

  /** It is right for numbers that are less than half the range apart. */
  lemma GtIs(x: nat, y: nat, n: nat)
    requires 0 < n && x < Pow2(n - 1) && y < Pow2(n - 1)
    ensures Gt(x, y, n) == if x > y then 1 else 0
  {
    var w := Pow2(n - 1);
    if x > y {
      DivModUnique(y - x, 2 * w, -1, 2 * w + y - x);
    } else {
      DivModUnique(y - x, 2 * w, 0, y - x);
    }
  }

  /** `mbedtls_ct_mpi_uint_lt` */
  function Lt(x: nat, y: nat, n: nat): nat
    requires 0 < n && x < Pow2(n) && y < Pow2(n)
  {
    var cond := XorBits(x, y, n);
    Top(Or(And(WrapTo(x - y, n), Not(cond, n), n), And(y, cond, n), n), n)
  }

  /** It compares any two words. */
  lemma LtIs(x: nat, y: nat, n: nat)
    requires 0 < n && x < Pow2(n) && y < Pow2(n)
    ensures Lt(x, y, n) == if x < y then 1 else 0
  {
    hide Or, And, XorBits, Pow2, Top, WrapTo;
    var cond, d := XorBits(x, y, n), WrapTo(x - y, n);
    TopDifference(x, y, n);
    TopXor(x, y, n);
    TopOr(And(d, Not(cond, n), n), And(y, cond, n), n);
    TopAnd(d, Not(cond, n), n);
    TopAnd(y, cond, n);
    TopNot(cond, n);
  }

  /** Words with the same top bit compare by the top bit of their difference, others by that of the larger. */
  lemma TopDifference(x: nat, y: nat, n: nat)
    requires 0 < n && x < Pow2(n) && y < Pow2(n)
    ensures Top(x, n) == Top(y, n) ==> Top(WrapTo(x - y, n), n) == if x < y then 1 else 0
    ensures Top(x, n) != Top(y, n) ==> Top(y, n) == if x < y then 1 else 0
    ensures Top(WrapTo(x - y, n), n) <= 1 && Top(y, n) <= 1
  {
    hide Pow2;
    Pow2Next(n - 1);
    WrapDifference(x, y, Pow2(n - 1));
  }

  lemma TopNot(a: nat, n: nat)
    requires 0 < n && a < Pow2(n)
    ensures Top(Not(a, n), n) == 1 - Top(a, n)
  {
    hide Pow2;
    Pow2Next(n - 1);
  }

  lemma WrapDifference(x: nat, y: nat, w: nat)
    requires 0 < w && x < 2 * w && y < 2 * w
    ensures (x - y) % (2 * w) == if x < y then x - y + 2 * w else x - y
  {
    if x < y {
      DivModUnique(x - y, 2 * w, -1, x - y + 2 * w);
    } else {
      DivModUnique(x - y, 2 * w, 0, x - y);
    }
  }
}

/** RSA encryption padding of PKCS #1 v1.5, taken off without branching on its contents. */
module Pkcs1 {
  import opened Words
  import opened Products
  import opened Blocks
  import opened ConstantTime

  // ---------- the plain decoder ----------

  datatype Decoded = Message(m: seq<byte>) | Malformed

  /** The first zero byte from position i on, or the end. */
  function FirstZero(b: seq<byte>, i: nat): (z: nat)
    requires i <= |b|
    ensures i <= z <= |b| && (z < |b| ==> b[z] == 0) && forall k :: i <= k < z ==> b[k] != 0
    decreases |b| - i
  {
    if i == |b| || b[i] == 0 then i else FirstZero(b, i + 1)
  }

  /** 00 02, at least eight nonzero bytes, 00, message (section 7.2.2 of RFC 8017). */
  function Decode(b: seq<byte>): Decoded
    requires 11 <= |b|
  {
    var z := FirstZero(b, 2);
    if b[0] == 0 && b[1] == 2 && z < |b| && 10 <= z then Message(b[z + 1..]) else Malformed
  }

  function Encode(ps: seq<byte>, m: seq<byte>): seq<byte> {
    [0, 2] + ps + [0] + m
  }

  ghost predicate IsPadding(ps: seq<byte>) {
    8 <= |ps| && forall k :: 0 <= k < |ps| ==> ps[k] != 0
  }

  /** The decoder finds exactly the encoded messages. */
  lemma DecodeIff(b: seq<byte>, m: seq<byte>)
    requires 11 <= |b|
    ensures Decode(b) == Message(m) <==>
      exists ps :: 8 <= |ps| && (forall k :: 0 <= k < |ps| ==> ps[k] != 0) && b == [0, 2] + ps + [0] + m
  {
    DecodeEncoded(b, m);
    if ps :| IsPadding(ps) && b == Encode(ps, m) {
      assert 8 <= |ps| && (forall k :: 0 <= k < |ps| ==> ps[k] != 0) && b == [0, 2] + ps + [0] + m;
    }
    if ps :| 8 <= |ps| && (forall k :: 0 <= k < |ps| ==> ps[k] != 0) && b == [0, 2] + ps + [0] + m {
      assert IsPadding(ps) && b == Encode(ps, m);
    }
  }

  lemma DecodeEncoded(b: seq<byte>, m: seq<byte>)
    requires 11 <= |b|
    ensures Decode(b) == Message(m) <==> exists ps :: IsPadding(ps) && b == Encode(ps, m)
  {
    var z := FirstZero(b, 2);
    if Decode(b) == Message(m) {
      var ps := b[2..z];
      assert b == Encode(ps, m);
      assert IsPadding(ps);
    }
    if ps :| IsPadding(ps) && b == Encode(ps, m) {
      var n := 2 + |ps|;
      assert b[n] == 0;
      forall k | 2 <= k < n ensures b[k] != 0 {
        assert b[k] == ps[k - 2];
      }
      assert z == n;
      assert b[n + 1..] == m;
    }
  }

  // ---------- the branch-free code ----------

  datatype RsaStatus = Ok | InvalidPadding | OutputTooLarge

  /** `((x | -x) >> 7) ^ 1` on a byte */
  function ZeroFlag(x: byte): (f: nat) {
    Pow2Values();
    XorBits(Nonzero(x, 8), 1, 8)
  }

  lemma ZeroFlagIs(x: byte)
    ensures ZeroFlag(x) == if x == 0 then 1 else 0
  {
    Pow2Values();
    NonzeroIs(x, 8);
    XorOne();
  }

  lemma XorOne()
    ensures XorBits(0, 1, 8) == 1 && XorBits(1, 1, 8) == 0
  {
    Pow2Values();
    XorBitsZero(1, 8);
    XorBitsCommutes(0, 1, 8);
    XorBitsTwice(0, 1, 8);
  }

  lemma OrFlags(a: nat, b: nat)
    requires a <= 1 && b <= 1
    ensures Or(a, b, 8) == if a + b > 0 then 1 else 0
  {
    hide Or, Pow2;
    Pow2Values();
    OrZero(a, b, 8);
    if a == 1 && b == 1 {
      Pow2Split(8, 7);
      OrZero(0, 0, 7);
      OrNext(1, 1, 8);
    }
  }

  /** The scan over the whole buffer: whether there is a separator, and how long the padding is. */
  method Scan(input: array<byte>, ilen: nat) returns (padDone: nat, padCount: nat)
    requires 11 <= ilen <= input.Length
    ensures padDone == if FirstZero(input[..ilen], 2) < ilen then 1 else 0
    ensures padCount == FirstZero(input[..ilen], 2) - 2
  {
    hide Or, Nonzero, XorBits, ZeroFlag;
    ghost var z := FirstZero(input[..ilen], 2);
    padDone, padCount := 0, 0;
    for i := 2 to ilen
      invariant padDone == if z < i then 1 else 0
      invariant padCount == (if z < i then z else i) - 2
    {
      ZeroFlagIs(input[i]);
      assert i < z ==> input[..ilen][i] != 0;
      assert i == z ==> input[..ilen][i] == 0;
      OrFlags(padDone, ZeroFlag(input[i]));
      padDone := Or(padDone, ZeroFlag(input[i]), 8);
      ZeroFlagIs(padDone);
      padCount := padCount + ZeroFlag(padDone);
    }
  }

  /** The lengths involved fit the types in which they are compared and selected. */
  lemma Fits(n: nat)
    requires n < 0x8000_0000
    ensures n < Pow2(32) && n < Pow2(BIL - 1) && 0 < BIL
  {
    Pow2Values();
    Pow2Next(31);
    Pow2Monotonic(31, BIL - 1);
  }

  /** One pass over the buffer: nothing, or a shift by one byte with a zero at the end. */
  method Pass(buf: array<byte>, start: nat, total: nat, noOp: nat)
    requires 0 < total && start + total <= buf.Length && noOp <= 1
    modifies buf
    ensures buf[start..start + total] == if noOp != 0 then old(buf[start..start + total]) else old(buf[start + 1..start + total]) + [0]
    ensures buf[..start] == old(buf[..start]) && buf[start + total..] == old(buf[start + total..])
  {
    hide If, Pow2;
    Pow2Values();
    ghost var before := buf[..];
    var last := start + total - 1;
    for n := start to last
      invariant forall k :: 0 <= k < buf.Length ==> buf[k] == Moving(before, start, n, noOp == 0, k)
    {
      var current := buf[n];
      var next := buf[n + 1];
      IfIs(noOp, current, next, 32);
      buf[n] := If(noOp, current, next, 32);
    }
    ghost var moved := buf[..];
    IfIs(noOp, buf[last], 0, 32);
    buf[last] := If(noOp, buf[last], 0, 32);
    assert buf[..] == moved[last := if noOp != 0 then moved[last] else 0];
    Passed(before, moved, buf[..], start, total, noOp == 0);
    assert buf[start..start + total] == buf[..][start..start + total];
    assert buf[..start] == buf[..][..start] && buf[start + total..] == buf[..][start + total..];
  }

  /** What a whole pass leaves. */
  lemma Passed(before: seq<byte>, moved: seq<byte>, after: seq<byte>, start: nat, total: nat, shift: bool)
    requires 0 < total && start + total <= |before| == |moved|
    requires forall k :: 0 <= k < |moved| ==> moved[k] == Moving(before, start, start + total - 1, shift, k)
    requires after == moved[start + total - 1 := if shift then 0 else moved[start + total - 1]]
    ensures after[start..start + total] == if shift then before[start + 1..start + total] + [0] else before[start..start + total]
    ensures after[..start] == before[..start] && after[start + total..] == before[start + total..]
  {
    if shift {
      var wanted := before[start + 1..start + total] + [0];
      forall k | 0 <= k < total ensures after[start + k] == wanted[k] {
        if k < total - 1 {
          assert moved[start + k] == before[start + 1..start + total][k];
        }
      }
      assert after[start..start + total] == wanted;
    } else {
      assert after == before;
    }
  }

  /** Byte k while the pass is at n. */
  function Moving(before: seq<byte>, start: nat, n: nat, shift: bool, k: nat): byte
    requires k < |before| && n < |before|
  {
    if shift && start <= k < n then before[k + 1] else before[k]
  }

  /** `mbedtls_ct_mem_move_to_left`: the quadratic loop drops the first `offset` bytes and fills with zeros. */
  method MoveToLeft(buf: array<byte>, start: nat, total: nat, offset: nat)
    requires start + total <= buf.Length && offset <= total < 0x8000_0000
    modifies buf
    ensures buf[start..start + total] == Shifted(old(buf[start..start + total]), offset)
    ensures buf[..start] == old(buf[..start]) && buf[start + total..] == old(buf[start + total..])
  {
    hide Gt, Shifted, Pow2;
    if total == 0 {
      return;
    }
    ghost var row := buf[start..start + total];
    ghost var k := 0;
    ShiftedNone(row);
    for i := 0 to total
      invariant k == if i <= total - offset then 0 else i - (total - offset)
      invariant buf[start..start + total] == Shifted(row, k)
      invariant buf[..start] == old(buf[..start]) && buf[start + total..] == old(buf[start + total..])
    {
      Fits(total - offset);
      Fits(i);
      GtIs(total - offset, i, BIL);
      var noOp := Gt(total - offset, i, BIL);
      assert buf[start + 1..start + total] == buf[start..start + total][1..];
      Pass(buf, start, total, noOp);
      if noOp == 0 {
        ShiftedNext(row, k);
        k := k + 1;
      }
    }
  }

  function Shifted(row: seq<byte>, k: nat): (s: seq<byte>)
    requires k <= |row|
    ensures |s| == |row|
  {
    row[k..] + ZeroBytes(k)
  }

  lemma ShiftedNext(row: seq<byte>, k: nat)
    requires k < |row|
    ensures Shifted(row, k + 1) == Shifted(row, k)[1..] + [0]
  {
  }

  lemma ShiftedNone(row: seq<byte>)
    ensures Shifted(row, 0) == row
  {
  }

  /**
    What the comment above that function says it does: move, then fill with zeros from `offset` on, which is
    the same only for half the buffer.
   */
  function Documented(row: seq<byte>, offset: nat): seq<byte>
    requires offset <= |row|
  {
    (row[offset..] + row[|row| - offset..])[..offset] + ZeroBytes(|row| - offset)
  }

  lemma DocumentedIff(total: nat, offset: nat)
    requires offset <= total
    ensures 2 * offset == total <==> forall row :: |row| == total ==> Documented(row, offset) == Shifted(row, offset)
  {
    hide Documented, Shifted;
    if 2 * offset == total {
      forall row: seq<byte> | |row| == total ensures Documented(row, offset) == Shifted(row, offset) {
        DocumentedHalf(row, offset);
      }
    } else {
      var ones := Ones(total);
      DocumentedOnes(total, offset);
    }
  }

  function Ones(n: nat): (s: seq<byte>)
    ensures |s| == n && forall k :: 0 <= k < n ==> s[k] == 1
  {
    seq(n, _ => 1)
  }

  lemma DocumentedHalf(row: seq<byte>, offset: nat)
    requires 2 * offset == |row|
    ensures Documented(row, offset) == Shifted(row, offset)
  {
    assert (row[offset..] + row[|row| - offset..])[..offset] == row[offset..];
  }

  lemma DocumentedOnes(total: nat, offset: nat)
    requires offset <= total && 2 * offset != total
    ensures Documented(Ones(total), offset) != Shifted(Ones(total), offset)
  {
    var ones := Ones(total);
    if offset < total - offset {
      var moved := ones[offset..] + ones[total - offset..];
      assert Documented(ones, offset) == moved[..offset] + ZeroBytes(total - offset);
      assert Documented(ones, offset)[offset] == 0;
      assert ones[offset + offset] == 1;
      assert Shifted(ones, offset)[offset] == ones[offset..][offset] == ones[offset + offset];
    } else {
      var moved := ones[offset..] + ones[total - offset..];
      assert ones[total - offset] == 1;
      assert moved[total - offset] == ones[total - offset..][0] == ones[total - offset];
      assert Documented(ones, offset)[total - offset] == moved[total - offset];
      assert Shifted(ones, offset)[total - offset] == 0;
    }
  }

  /** All checks, collected in one word that is zero exactly for well-formed blocks. */
  method CheckPadding(input: array<byte>, ilen: nat) returns (bad: nat, padCount: nat)
    requires 11 <= ilen <= input.Length && ilen < 0x8000_0000
    ensures bad < Pow2(32) && (bad == 0 <==> Decode(input[..ilen]).Message?)
    ensures padCount == FirstZero(input[..ilen], 2) - 2
  {
    hide Or, If, Gt, Pow2, XorBits;
    Pow2Values();
    var padDone;
    padDone, padCount := Scan(input, ilen);
    OrZero(0, input[0], 32);
    bad := Or(0, input[0], 32);
    XorIsZero(input[1], 2);
    OrZero(bad, Xor(input[1], 2), 32);
    bad := Or(bad, Xor(input[1], 2), 32);
    IfIs(padDone, 0, 1, 32);
    OrZero(bad, If(padDone, 0, 1, 32), 32);
    bad := Or(bad, If(padDone, 0, 1, 32), 32);
    Fits(8);
    Fits(padCount);
    GtIs(8, padCount, BIL);
    OrZero(bad, Gt(8, padCount, BIL), 32);
    bad := Or(bad, Gt(8, padCount, BIL), 32);
  }

  /** `input[i] &= ~mask` from byte 11 on. */
  method Blank(input: array<byte>, ilen: nat, mask: nat)
    requires 11 <= ilen <= input.Length && (mask == 0 || mask == Pow2(32) - 1)
    modifies input
    ensures input[11..ilen] == if mask == 0 then old(input[11..ilen]) else ZeroBytes(ilen - 11)
  {
    hide And, Pow2;
    Pow2Values();
    for i := 11 to ilen
      invariant forall k :: 0 <= k < input.Length ==> input[k] == if 11 <= k < i && mask != 0 then 0 else old(input[k])
    {
      AndOnes(input[i], 32);
      input[i] := And(input[i], Not(mask, 32), 32);
    }
    if mask != 0 {
      assert input[11..ilen] == ZeroBytes(ilen - 11);
    }
  }

  /** Where the message of a well-formed block lies, and that it fits the compare. */
  lemma MessageLength(b: seq<byte>, padCount: nat)
    requires 11 <= |b| < 0x8000_0000 && padCount == FirstZero(b, 2) - 2
    ensures Decode(b).Message? ==>
      (|b| - padCount - 3 == |Decode(b).m| <= |b| - 11 && b[|b| - |Decode(b).m|..] == Decode(b).m)
  {
  }

  /** The most plaintext that is ever copied. */
  function Room(ilen: nat, outputMax: nat): nat
    requires 11 <= ilen
  {
    if outputMax > ilen - 11 then ilen - 11 else outputMax
  }

  /** The sizes and the return code, selected without branches. */
  method Select(bad: nat, pms: nat, size: int) returns (plaintextSize: nat, tooLarge: nat, code: nat)
    requires bad < Pow2(32) && pms < 0x8000_0000 && size < 0x8000_0000 && (bad == 0 ==> 0 <= size)
    ensures plaintextSize == if bad != 0 then pms else size
    ensures tooLarge == if plaintextSize > pms then 1 else 0
    ensures code == if bad != 0 then 0x4100 else if tooLarge != 0 then 0x4400 else 0
  {
    hide If, Gt, Pow2;
    Pow2Values();
    Fits(pms);
    IfIs(bad, pms, WrapTo(size, 32), 32);
    plaintextSize := If(bad, pms, WrapTo(size, 32), 32);
    if bad == 0 {
      Fits(size);
      DivModUnique(size, Pow2(32), 0, size);
    }
    Fits(plaintextSize);
    GtIs(plaintextSize, pms, BIL);
    tooLarge := Gt(plaintextSize, pms, BIL);
    IfIs(tooLarge, 0x4400, 0, 32);
    IfIs(bad, 0x4100, If(tooLarge, 0x4400, 0, 32), 32);
    code := If(bad, 0x4100, If(tooLarge, 0x4400, 0, 32), 32);
  }

  /**
    `mbedtls_ct_rsaes_pkcs1_v15_unpadding` agrees with the plain decoder on the result code, the length, and
    every byte it writes; what does not decode or does not fit leaves only zeros.
   */
  method Unpadding(input: array<byte>, ilen: nat, output: array<byte>, outputMax: nat) returns (st: RsaStatus, olen: nat)
    requires 11 <= ilen <= input.Length && ilen < 0x8000_0000 && outputMax <= output.Length && input != output
    modifies input, output
    ensures st == match Decode(old(input[..ilen]))
      case Malformed => InvalidPadding
      case Message(m) => if |m| <= outputMax then Ok else OutputTooLarge
    ensures st.Ok? ==> olen == |Decode(old(input[..ilen])).m| <= Room(ilen, outputMax) && output[..olen] == Decode(old(input[..ilen])).m
    ensures !st.Ok? ==> olen == Room(ilen, outputMax)
    ensures output[if st.Ok? then olen else 0..Room(ilen, outputMax)] == ZeroBytes(Room(ilen, outputMax) - if st.Ok? then olen else 0)
    ensures output[Room(ilen, outputMax)..] == old(output[Room(ilen, outputMax)..])
  {
    hide Decode, ZeroBytes, Pow2;
    var pms := Room(ilen, outputMax);
    var mask;
    st, olen, mask := Verdict(input, ilen, outputMax);
    Produce(input, ilen, output, outputMax, pms, mask, olen);
    ghost var n := if mask == 0 then olen else 0;
    assert output[..olen] == output[..pms][..olen] && output[n..pms] == output[..pms][n..];
  }

  /** The message, or zero bytes. */
  method Produce(input: array<byte>, ilen: nat, output: array<byte>, outputMax: nat, pms: nat, mask: nat, size: nat)
    requires 11 <= ilen <= input.Length && ilen < 0x8000_0000 && outputMax <= output.Length && input != output
    requires pms == Room(ilen, outputMax) && size <= pms && (mask == 0 || mask == Pow2(32) - 1)
    requires if mask == 0 then Decode(input[..ilen]).Message? && input[ilen - size..ilen] == Decode(input[..ilen]).m else size == pms
    modifies input, output
    ensures mask == 0 ==> output[..pms][..size] == Decode(old(input[..ilen])).m && output[..pms][size..] == ZeroBytes(pms - size)
    ensures mask != 0 ==> output[..pms][0..] == ZeroBytes(pms)
    ensures output[pms..] == old(output[pms..])
  {
    hide Decode, Shifted, ZeroBytes, Pow2;
    ghost var b := input[..ilen];
    ghost var tail := if mask == 0 then input[11..ilen] else ZeroBytes(ilen - 11);
    assert b[11..] == input[11..ilen] && b[ilen - size..] == input[ilen - size..ilen];
    Deliver(input, ilen, output, outputMax, pms, mask, size);
    Delivered(b, tail, output[..pms], pms, size, mask == 0);
  }

  /** The checks: result code, length to report, and the mask that blanks the data unless all is well. */
  method Verdict(input: array<byte>, ilen: nat, outputMax: nat) returns (st: RsaStatus, size: nat, mask: nat)
    requires 11 <= ilen <= input.Length && ilen < 0x8000_0000
    ensures st == match Decode(input[..ilen])
      case Malformed => InvalidPadding
      case Message(m) => if |m| <= outputMax then Ok else OutputTooLarge
    ensures size == if st.Ok? then |Decode(input[..ilen]).m| else Room(ilen, outputMax)
    ensures st.Ok? ==> size <= Room(ilen, outputMax) && input[ilen - size..ilen] == Decode(input[..ilen]).m
    ensures (mask == 0 <==> st.Ok?) && (mask == 0 || mask == Pow2(32) - 1)
  {
    hide Or, If, Mask, Decode, Pow2;
    Pow2Values();
    var pms := Room(ilen, outputMax);
    var bad, padCount := CheckPadding(input, ilen);
    ghost var b := input[..ilen];
    MessageLength(b, padCount);
    if Decode(b).Message? {
      assert b[ilen - |Decode(b).m|..] == input[ilen - |Decode(b).m|..ilen];
    }
    var tooLarge, code;
    size, tooLarge, code := Select(bad, pms, ilen - padCount - 3);
    st := if code == 0x4100 then InvalidPadding else if code == 0x4400 then OutputTooLarge else Ok;
    Fits(tooLarge);
    OrZero(bad, tooLarge, 32);
    Fits(0);
    MaskIs(Or(bad, tooLarge, 32), 32);
    mask := Mask(Or(bad, tooLarge, 32), 32);
    Fits(pms);
    Fits(size);
    IfIs(tooLarge, pms, size, 32);
    size := If(tooLarge, pms, size, 32);
  }

  /** Blanking, the move, and the copy. */
  method Deliver(input: array<byte>, ilen: nat, output: array<byte>, outputMax: nat, pms: nat, mask: nat, size: nat)
    requires 11 <= ilen <= input.Length && ilen < 0x8000_0000 && outputMax <= output.Length && input != output
    requires pms == Room(ilen, outputMax) && size <= pms && (mask == 0 || mask == Pow2(32) - 1)
    modifies input, output
    ensures var tail := if mask == 0 then old(input[11..ilen]) else ZeroBytes(ilen - 11);
      output[..pms] == Shifted(tail[|tail| - pms..], pms - size)
    ensures output[pms..] == old(output[pms..])
  {
    hide Shifted, Pow2, ZeroBytes;
    Blank(input, ilen, mask);
    TailOf(input[..], ilen, pms, input[11..ilen]);
    assert input[ilen - pms..ilen] == input[..][ilen - pms..ilen];
    MoveOut(input, ilen - pms, ilen, pms - size, output, outputMax);
  }

  /** The move within the input buffer, and the copy. */
  method MoveOut(input: array<byte>, start: nat, end: nat, drop: nat, output: array<byte>, outputMax: nat)
    requires start <= end <= input.Length && drop <= end - start < 0x8000_0000 && end - start <= outputMax <= output.Length && input != output
    modifies input, output
    ensures output[..end - start] == Shifted(old(input[start..end]), drop)
    ensures output[end - start..] == old(output[end - start..])
  {
    hide Shifted;
    var n := end - start;
    assert input[start..start + n] == input[start..end];
    MoveToLeft(input, start, n, drop);
    if outputMax != 0 {
      CopyBytes(input, start, n, output, 0);
      assert output[0..0 + n] == output[..n];
    } else {
      assert output[..n] == [] == input[start..start + n];
    }
  }

  lemma TailOf(row: seq<byte>, end: nat, n: nat, tail: seq<byte>)
    requires 11 + n <= end <= |row| && tail == row[11..end]
    ensures row[end - n..end] == tail[|tail| - n..]
  {
  }

  /** The part of the buffer that is copied out, after the move. */
  lemma Region(b: seq<byte>, tail: seq<byte>, pms: nat, size: nat, ok: bool, region: seq<byte>)
    requires 11 <= |b| && |tail| == |b| - 11 && pms <= |tail| && region == tail[|tail| - pms..]
    requires if ok then Decode(b).Message? && size == |Decode(b).m| <= pms && b[|b| - size..] == Decode(b).m && tail == b[11..]
      else tail == ZeroBytes(|b| - 11) && size == pms
    ensures Shifted(region, pms - size) == if ok then Decode(b).m + ZeroBytes(pms - size) else ZeroBytes(pms)
  {
    hide Decode;
    if ok {
      assert region[pms - size..] == b[|b| - size..];
    }
  }

  /** What is in the output buffer then. */
  lemma Delivered(b: seq<byte>, tail: seq<byte>, o: seq<byte>, pms: nat, size: nat, ok: bool)
    requires 11 <= |b| && |tail| == |b| - 11 && size <= pms <= |tail| && o == Shifted(tail[|tail| - pms..], pms - size)
    requires if ok then Decode(b).Message? && size == |Decode(b).m| <= pms && b[|b| - size..] == Decode(b).m && tail == b[11..]
      else tail == ZeroBytes(|b| - 11) && size == pms
    ensures ok ==> o[..size] == Decode(b).m && o[size..] == ZeroBytes(pms - size)
    ensures !ok ==> o[0..] == ZeroBytes(pms)
  {
    hide Decode, Shifted;
    Region(b, tail, pms, size, ok, tail[|tail| - pms..]);
  }
}
