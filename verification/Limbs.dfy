/**
  The natural number that a little-endian row of limbs denotes, and how it reacts to the edits that the
  big-number code makes: cutting, joining, and overwriting single limbs.
 */
module Limbs {
  import opened Words
  import opened Products

  function BPow(n: nat): (r: nat)
    ensures r >= 1
  {
    if n == 0 then 1 else BPow(n - 1) * BASE
  }

  /** The number denoted by `s`, least significant limb first. */
  function Val(s: seq<limb>): nat {
    if |s| == 0 then 0 else Val(s[..|s| - 1]) + s[|s| - 1] * BPow(|s| - 1)
  }

  function Zeros(n: nat): (s: seq<limb>)
    ensures |s| == n && forall k :: 0 <= k < n ==> s[k] == 0
  {
    seq(n, _ => 0)
  }

  lemma {:induction false} BPowAdd(m: nat, n: nat)
    ensures BPow(m + n) == BPow(m) * BPow(n)
  {
    if n > 0 {
      BPowAdd(m, n - 1);
      MulAssoc(BPow(m), BPow(n - 1), BASE);
    }
  }

  lemma {:induction false} BPowIsPow2(n: nat)
    ensures BPow(n) == Pow2(n * BIL)
  {
    if n > 0 {
      BPowIsPow2(n - 1);
      BaseIsPow2();
      Pow2Add((n - 1) * BIL, BIL);
      MulDist(BIL, n, 1);
    }
  }

  lemma BPowZero()
    ensures BPow(0) == 1
  {
  }

  lemma BPow1()
    ensures BPow(1) == BASE
  {
    assert BPow(0) == 1;
  }

  lemma BPowNext(n: nat)
    ensures BPow(n + 1) == BPow(n) * BASE
  {
  }

  lemma BPowMonotonic(m: nat, n: nat)
    requires m <= n
    ensures BPow(m) <= BPow(n)
  {
    BPowAdd(m, n - m);
    MulMono(1, BPow(n - m), BPow(m));
  }

  /** One limb more. */
  lemma ValSnoc(s: seq<limb>, i: nat)
    requires i < |s|
    ensures Val(s[..i + 1]) == Val(s[..i]) + s[i] * BPow(i)
  {
    assert s[..i + 1][..i] == s[..i];
  }

  lemma ValNone(s: seq<limb>)
    ensures Val(s[..0]) == Val([]) == 0
  {
  }

  lemma ValPush(s: seq<limb>, x: limb)
    ensures Val(s + [x]) == Val(s) + x * BPow(|s|)
  {
    assert (s + [x])[..|s|] == s;
  }

  lemma ValOne(x: limb)
    ensures Val([x]) == x
  {
    ValPush([], x);
    assert [] + [x] == [x];
  }

  lemma {:induction false} ValAppend(a: seq<limb>, b: seq<limb>)
    ensures Val(a + b) == Val(a) + BPow(|a|) * Val(b)
    decreases |b|
  {
    if |b| == 0 {
      assert a + b == a;
    } else {
      var m := |b| - 1;
      ValAppend(a, b[..m]);
      assert a + b == (a + b[..m]) + [b[m]];
      ValPush(a + b[..m], b[m]);
      BPowAdd(|a|, m);
      ShiftedDigit(BPow(|a|), Val(b[..m]), b[m], BPow(m));
    }
  }

  lemma ShiftedDigit(p: int, v: int, x: int, q: int)
    ensures p * (v + x * q) == p * v + x * (p * q)
  {
    MulDist(p, v, x * q);
    MulAssoc(p, x, q);
    MulAssoc(x, p, q);
  }

  lemma ValSplit(s: seq<limb>, k: nat)
    requires k <= |s|
    ensures Val(s) == Val(s[..k]) + BPow(k) * Val(s[k..])
  {
    assert s == s[..k] + s[k..];
    ValAppend(s[..k], s[k..]);
  }

  /** Peels off the least significant limb. */
  lemma ValFirst(s: seq<limb>)
    requires |s| > 0
    ensures Val(s) == s[0] + BASE * Val(s[1..])
  {
    ValSplit(s, 1);
    assert s[..1] == [s[0]];
    ValOne(s[0]);
    BPow1();
  }

  lemma {:induction false} ValBound(s: seq<limb>)
    ensures Val(s) < BPow(|s|)
  {
    if |s| > 0 {
      var m := |s| - 1;
      ValBound(s[..m]);
      MulMono(s[m], BASE - 1, BPow(m));
      MulDist(BPow(m), BASE, 1);
    }
  }

  lemma {:induction false} ValZeros(n: nat)
    ensures Val(Zeros(n)) == 0
  {
    if n > 0 {
      ValZeros(n - 1);
      assert Zeros(n)[..n - 1] == Zeros(n - 1);
    }
  }

  lemma ValGrow(s: seq<limb>, n: nat)
    ensures Val(s + Zeros(n)) == Val(s)
  {
    ValAppend(s, Zeros(n));
    ValZeros(n);
  }

  /** Leading zero limbs may be cut off. */
  lemma ValTrim(s: seq<limb>, k: nat)
    requires k <= |s|
    requires forall j :: k <= j < |s| ==> s[j] == 0
    ensures Val(s) == Val(s[..k])
  {
    assert s == s[..k] + Zeros(|s| - k);
    ValGrow(s[..k], |s| - k);
  }

  lemma ValUpdate(s: seq<limb>, i: nat, x: limb)
    requires i < |s|
    ensures Val(s[i := x]) == Val(s) + (x - s[i]) * BPow(i)
  {
    var t := s[i := x];
    ValSplit(s, i + 1);
    ValSplit(t, i + 1);
    assert t[i + 1..] == s[i + 1..];
    assert t[..i] == s[..i];
    ValSnoc(s, i);
    ValSnoc(t, i);
    MulDist(BPow(i), x, s[i]);
  }

  /** A number is at least what any one of its limbs contributes. */
  lemma ValAtLeast(s: seq<limb>, i: nat)
    requires i < |s|
    ensures Val(s) >= s[i] * BPow(i)
  {
    ValSplit(s, i + 1);
    ValSnoc(s, i);
    MulNonNeg(BPow(i + 1), Val(s[i + 1..]));
  }

  /** All limbs zero means the number zero, and the other way round. */
  lemma ValIsZero(s: seq<limb>)
    ensures Val(s) == 0 <==> forall k :: 0 <= k < |s| ==> s[k] == 0
  {
    if forall k :: 0 <= k < |s| ==> s[k] == 0 {
      assert s == Zeros(|s|);
      ValZeros(|s|);
    } else {
      var k :| 0 <= k < |s| && s[k] != 0;
      ValAtLeast(s, k);
      MulMono(1, s[k], BPow(k));
    }
  }

  /** A number below b^i has no limbs from position i on. */
  lemma ZerosAbove(p: seq<limb>, i: nat)
    requires Val(p) < BPow(i)
    ensures forall k :: i <= k < |p| ==> p[k] == 0
  {
    hide Val, BPow;
    forall k | i <= k < |p| ensures p[k] == 0 {
      ValAtLeast(p, k);
      BPowMonotonic(i, k);
      if p[k] > 0 {
        MulMono(1, p[k], BPow(k));
      }
    }
  }

  /** Equally long rows compare like their most significant different limbs. */
  lemma ValCompare(a: seq<limb>, b: seq<limb>, i: nat)
    requires i < |a| == |b|
    requires a[i] < b[i]
    requires a[i + 1..] == b[i + 1..]
    ensures Val(a) < Val(b)
  {
    ValSplit(a, i + 1);
    ValSplit(b, i + 1);
    ValSnoc(a, i);
    ValSnoc(b, i);
    ValBound(a[..i]);
    MulMono(a[i] + 1, b[i], BPow(i));
    MulDist(BPow(i), a[i], 1);
  }

  /** A row of limbs is determined by its length and its number. */
  lemma {:induction false} ValInjective(a: seq<limb>, b: seq<limb>)
    requires |a| == |b|
    requires Val(a) == Val(b)
    ensures a == b
  {
    if |a| > 0 {
      var m := |a| - 1;
      if a[m] < b[m] {
        ValCompare(a, b, m);
      } else if b[m] < a[m] {
        ValCompare(b, a, m);
      }
      ValInjective(a[..m], b[..m]);
      assert a == a[..m] + [a[m]];
      assert b == b[..m] + [b[m]];
    }
  }

  /** The low limbs of a number are its residue, the high limbs its quotient. */
  lemma ValDivMod(s: seq<limb>, k: nat)
    requires k <= |s|
    ensures Val(s) / BPow(k) == Val(s[k..])
    ensures Val(s) % BPow(k) == Val(s[..k])
  {
    ValSplit(s, k);
    ValBound(s[..k]);
    DivModUnique(Val(s), BPow(k), Val(s[k..]), Val(s[..k]));
  }
}
