/** Return codes of the big-number functions; `:-` is the `MBEDTLS_MPI_CHK` of the C code. */
module Status {
  datatype Status =
    | Ok
    | BadInputData
    | InvalidCharacter
    | BufferTooSmall
    | NegativeValue
    | DivisionByZero
    | NotAcceptable
    | AllocFailed
    | RngFailed
    | VerifyFailed
    | InvalidKey
    | MakeFailed
  {
    predicate IsFailure() {
      !Ok?
    }

    function PropagateFailure(): Status {
      this
    }
  }
}

/**
  Multi-precision integers: a sign and a row of limbs, updated in place.  The limbs live in a buffer that
  is reallocated when it grows, so they are a sequence that the methods reassign.  An operand that is also
  the destination is the same object, and all methods accept that unless their precondition says otherwise.
 */
module MpiModule {
  import opened Words
  import opened Limbs
  import opened LimbKernel
  import opened Products
  import opened Status

  const MAX_LIMBS := 10000

  type sign = x: int | x == 1 || x == -1 witness 1

  /** A signed word (`mbedtls_mpi_sint`) whose negation is representable. */
  type sint = z: int | 0 - BASE < 2 * z < BASE witness 0

  function Abs(z: int): (a: nat) {
    if z < 0 then -z else z
  }

  function Cmp(a: int, b: int): int {
    if a < b then -1 else if a > b then 1 else 0
  }

  function Max(a: nat, b: nat): nat {
    if a >= b then a else b
  }

  function Signed(s: sign, v: nat): int {
    if s == 1 then v else 0 - v
  }

  /** How many limbs remain when the leading zero limbs are dropped. */
  ghost function Used(p: seq<limb>): (n: nat)
    ensures n <= |p|
  {
    if |p| == 0 || p[|p| - 1] != 0 then |p| else Used(p[..|p| - 1])
  }

  lemma {:induction false} UsedIs(p: seq<limb>, i: nat)
    requires i <= |p| && (i > 0 ==> p[i - 1] != 0)
    requires forall k :: i <= k < |p| ==> p[k] == 0
    ensures Used(p) == i && Val(p) == Val(p[..i])
    ensures i > 0 ==> BPow(i - 1) <= Val(p) < BPow(i)
    ensures Val(p) == 0 <==> i == 0
  {
    ValTrim(p, i);
    ValBound(p[..i]);
    if i > 0 {
      ValAtLeast(p, i - 1);
      MulMono(1, p[i - 1], BPow(i - 1));
    }
    UsedLength(p, i);
  }

  lemma {:induction false} UsedLength(p: seq<limb>, i: nat)
    requires i <= |p| && (i > 0 ==> p[i - 1] != 0)
    requires forall k :: i <= k < |p| ==> p[k] == 0
    ensures Used(p) == i
  {
    if i < |p| {
      UsedLength(p[..|p| - 1], i);
    }
  }

  /** The scan for the leading nonzero limb that most functions start with. */
  method UsedLimbs(p: seq<limb>) returns (i: nat)
    ensures i == Used(p) && Val(p) == Val(p[..i])
    ensures i > 0 ==> p[i - 1] != 0
    ensures i > 0 ==> BPow(i - 1) <= Val(p) < BPow(i)
    ensures Val(p) == 0 <==> i == 0
    ensures forall k :: i <= k < |p| ==> p[k] == 0
  {
    i := |p|;
    while i > 0
      invariant i <= |p|
      invariant forall k :: i <= k < |p| ==> p[k] == 0
    {
      if p[i - 1] != 0 {
        break;
      }
      i := i - 1;
    }
    UsedIs(p, i);
  }

  /** Compares two rows of limbs, `mbedtls_mpi_cmp_abs`. */
  method CompareLimbs(x: seq<limb>, y: seq<limb>) returns (c: int)
    ensures c == Cmp(Val(x), Val(y))
  {
    hide Val, BPow;
    var i := UsedLimbs(x);
    var j := UsedLimbs(y);
    if i == 0 && j == 0 {
      return 0;
    }
    if i > j {
      BPowMonotonic(j, i - 1);
      return 1;
    }
    if j > i {
      BPowMonotonic(i, j - 1);
      return -1;
    }
    ghost var a, b := x[..i], y[..i];
    while i > 0
      invariant i <= |a| == |b| <= |x| && |b| <= |y| && a == x[..|a|] && b == y[..|b|]
      invariant a[i..] == b[i..]
    {
      if x[i - 1] > y[i - 1] {
        ValCompare(b, a, i - 1);
        return 1;
      }
      if x[i - 1] < y[i - 1] {
        ValCompare(a, b, i - 1);
        return -1;
      }
      assert a[i - 1..] == [a[i - 1]] + a[i..] == b[i - 1..];
      i := i - 1;
    }
    assert a == a[0..] == b[0..] == b;
    return 0;
  }

  /** One column of an addition: the new limb x and carry c2 stand for the sum of two limbs and the old carry. */
  lemma AddColumn(t: seq<limb>, a: seq<limb>, b: seq<limb>, i: nat, c: nat, x: limb, c2: nat)
    requires i == |t| && i < |a| && i < |b|
    requires Val(t) + c * BPow(i) == Val(a[..i]) + Val(b[..i])
    requires x + c2 * BASE == a[i] + b[i] + c
    ensures Val(t + [x]) + c2 * BPow(i + 1) == Val(a[..i + 1]) + Val(b[..i + 1])
  {
    ValPush(t, x);
    ValSnoc(a, i);
    ValSnoc(b, i);
    AddColumnInts(x, a[i], b[i], c, c2, BASE, BPow(i));
  }

  lemma AddColumnInts(x: int, a: int, b: int, c: int, c2: int, base: int, w: int)
    requires x == a + b + c - c2 * base
    ensures x * w + c2 * (w * base) == a * w + b * w + c * w
  {
  }

  /** A carry that enters at position i and leaves at position i + 1 does not change the total. */
  lemma CarryStep(t: seq<limb>, i: nat, x: limb, c: nat, c2: nat)
    requires i < |t| && x + c2 * BASE == t[i] + c
    ensures Val(t[i := x]) + c2 * BPow(i + 1) == Val(t) + c * BPow(i)
  {
    ValUpdate(t, i, x);
    CarryInts(x, t[i], c, c2, BASE, BPow(i));
  }

  lemma CarryInts(x: int, t: int, c: int, c2: int, base: int, w: int)
    requires x == t + c - c2 * base
    ensures (x - t) * w + c2 * (w * base) == c * w
  {
  }

  /** One column of a subtraction. */
  lemma SubColumn(d: seq<limb>, l: seq<limb>, r: seq<limb>, i: nat, c: nat, x: limb, c2: nat)
    requires i == |d| && i < |l| && i < |r|
    requires Val(d) == Val(l[..i]) - Val(r[..i]) + c * BPow(i)
    requires x == l[i] - r[i] - c + c2 * BASE
    ensures Val(d + [x]) == Val(l[..i + 1]) - Val(r[..i + 1]) + c2 * BPow(i + 1)
  {
    ValPush(d, x);
    ValSnoc(l, i);
    ValSnoc(r, i);
    SubColumnInts(x, l[i], r[i], c, c2, BASE, BPow(i));
  }

  lemma SubColumnInts(x: int, l: int, r: int, c: int, c2: int, base: int, w: int)
    requires x == l - r - c + c2 * base
    ensures x * w == l * w - r * w - c * w + c2 * (w * base)
  {
  }

  /** `z = (l < c); t = l - c; c = (t < r) + z; d = t - r`, all wrapping. */
  method SubLimb(l: limb, r: limb, c: limb) returns (d: limb, c': limb)
    requires c <= 1
    ensures c' <= 1 && d == l - r - c + c' * BASE
  {
    hide Wrap;
    BorrowIs(l, c);
    var z := if l < c then 1 else 0;
    var t := Wrap(l - c);
    BorrowIs(t, r);
    c' := (if t < r then 1 else 0) + z;
    d := Wrap(t - r);
  }

  lemma BorrowIs(a: limb, b: limb)
    ensures Wrap(a - b) == a - b + if a < b then BASE else 0
  {
    if a < b {
      DivModUnique(a - b, BASE, -1, a - b + BASE);
    } else {
      DivModUnique(a - b, BASE, 0, a - b);
    }
  }

  /** `x += c; c = (x < c)` */
  method AddLimb(x: limb, c: limb) returns (x': limb, c': limb)
    ensures x' + c' * BASE == x + c && c' <= 1
  {
    CarryOut(x, c);
    x' := Wrap(x + c);
    c' := if x' < c then 1 else 0;
  }

  /** `x += c; c = (x < c); x += b; c += (x < b)`: of the two additions at most one carries. */
  method AddLimbs(x: limb, c: limb, b: limb) returns (y: limb, c': limb)
    requires c <= 1
    ensures y + c' * BASE == x + b + c && c' <= 1
  {
    var c1, c2;
    y, c1 := AddLimb(x, c);
    y, c2 := AddLimb(y, b);
    c' := c1 + c2;
  }

  /** Writing the next limb of a part that is being filled from below. */
  lemma FillNext(p: seq<limb>, head: seq<limb>, done: seq<limb>, row: seq<limb>, k: nat, x: limb)
    requires k < |row| && p == head + done + row[k..]
    ensures |head| + |done| < |p| && p[|head| + |done|] == row[k]
    ensures p[|head| + |done| := x] == head + (done + [x]) + row[k + 1..]
  {
  }

  lemma SliceItem(row: seq<limb>, off: nat, n: nat, i: nat)
    requires off + n <= |row| && i < n
    ensures row[off..off + n][i] == row[off + i]
  {
  }

  lemma FillOne(p: seq<limb>, t: seq<limb>, a: seq<limb>, i: nat, x: limb)
    requires i == |t| && i < |a| && p == t + a[i..]
    ensures i < |p| && p[i] == a[i] && p[i := x] == (t + [x]) + a[i + 1..]
  {
  }

  /** One column of a subtraction; d are the limbs written so far. */
  method SubStep(D: Mpi, off: nat, y: limb, z: limb, c: limb, i: nat, ghost head: seq<limb>, ghost d: seq<limb>, ghost d0: seq<limb>,
                 ghost l: seq<limb>, ghost r: seq<limb>) returns (c': limb, ghost d': seq<limb>)
    requires i == |d| && i < |l| && i < |r| && y == l[i] && z == r[i] && c <= 1
    requires off == |head| && off + i < |d0| && D.p == head + d + d0[off + i..]
    requires Val(d) == Val(l[..i]) - Val(r[..i]) + c * BPow(i)
    modifies D
    ensures D.s == old(D.s) && |d'| == i + 1 && D.p == head + d' + d0[off + i + 1..]
    ensures c' <= 1 && Val(d') == Val(l[..i + 1]) - Val(r[..i + 1]) + c' * BPow(i + 1)
  {
    hide Val, BPow;
    var x;
    x, c' := SubLimb(y, z, c);
    SubColumn(d, l, r, i, c, x, c');
    FillNext(D.p, head, d, d0, off + i, x);
    D.p := D.p[off + i := x];
    d' := d + [x];
  }

  /** The part of d from `off` on becomes the difference of that part of l and r, `mpi_sub_hlp`. */
  method SubHlp(n: nat, D: Mpi, L: Mpi, off: nat, R: Mpi) returns (c: limb)
    requires off + n <= |D.p| && off + n <= |L.p| && n <= |R.p|
    requires R == D ==> off == 0
    modifies D
    ensures c <= 1 && |D.p| == old(|D.p|) && D.s == old(D.s)
    ensures Val(D.p[off..off + n]) == old(Val(L.p[off..off + n])) - old(Val(R.p[..n])) + c * BPow(n)
    ensures D.p[..off] == old(D.p[..off]) && D.p[off + n..] == old(D.p[off + n..])
  {
    hide Val, BPow;
    ghost var l, r, d0 := L.p[off..off + n], R.p[..n], D.p;
    ghost var d;
    c, d := SubLoop(n, D, L, off, R);
    assert l[..n] == l && r[..n] == r;
    Filled(D.p, d0[..off], d, d0[off + n..]);
  }

  /** Where the parts of a filled row lie. */
  lemma Filled(p: seq<limb>, head: seq<limb>, done: seq<limb>, rest: seq<limb>)
    requires p == head + done + rest
    ensures var m, n := |head|, |head| + |done|;
      |p| == n + |rest| && p[..m] == head && p[m..n] == done && p[n..] == rest && p[m..] == done + rest
  {
  }

  method SubLoop(n: nat, D: Mpi, L: Mpi, off: nat, R: Mpi) returns (c: limb, ghost d: seq<limb>)
    requires off + n <= |D.p| && off + n <= |L.p| && n <= |R.p|
    requires R == D ==> off == 0
    modifies D
    ensures c <= 1 && D.s == old(D.s) && |d| == n && D.p == old(D.p)[..off] + d + old(D.p)[off + n..]
    ensures var l, r := old(L.p[off..off + n]), old(R.p[..n]); Val(d) == Val(l[..n]) - Val(r[..n]) + c * BPow(n)
  {
    hide Val, BPow;
    ghost var l0, r0, d0, head := L.p, R.p, D.p, D.p[..off];
    ghost var l, r := l0[off..off + n], r0[..n];
    d := [];
    ValNone(l);
    ValNone(r);
    c := 0;
    var i := 0;
    while i < n
      invariant i <= n && c <= 1 && |d| == i && D.s == old(D.s)
      invariant D.p == head + d + d0[off + i..]
      invariant Val(d) == Val(l[..i]) - Val(r[..i]) + c * BPow(i)
    {
      FillNext(D.p, head, d, d0, off + i, 0);
      SliceItem(l0, off, n, i);
      assert L.p[off + i] == l0[off + i] && R.p[i] == r0[i] == r[i];
      c, d := SubStep(D, off, L.p[off + i], R.p[i], c, i, head, d, d0, l, r);
      i := i + 1;
    }
  }

  /** Whether the compiler has a type twice as wide as a limb (`MBEDTLS_HAVE_UDBL`). */
  const HAVE_UDBL: bool

  method MulAddCore(s: limb, b: limb, c: limb, d: limb) returns (c': limb, d': limb)
    ensures Pair(c', d') == s * b + c + d
  {
    if HAVE_UDBL {
      c', d' := MulAddWide(s, b, c, d);
    } else {
      c', d' := MulAddHalf(s, b, c, d);
    }
  }

  /** One column of a multiplication by a limb. */
  lemma MulColumn(t: seq<limb>, d: seq<limb>, s: seq<limb>, i: nat, b: limb, c: nat, x: limb, c2: nat)
    requires i == |t| && i < |d| && i < |s|
    requires Val(t) + c * BPow(i) == Val(d[..i]) + b * Val(s[..i])
    requires Pair(c2, x) == s[i] * b + c + d[i]
    ensures Val(t + [x]) + c2 * BPow(i + 1) == Val(d[..i + 1]) + b * Val(s[..i + 1])
  {
    hide Val, BPow;
    ValPush(t, x);
    ValSnoc(d, i);
    ValSnoc(s, i);
    BPowNext(i);
    MulColumnInts(x, c2, s[i], b, c, d[i], BASE, BPow(i), Val(s[..i]));
  }

  lemma MulColumnInts(x: int, c2: int, s: int, b: int, c: int, d: int, base: int, w: int, v: int)
    requires x == s * b + c + d - c2 * base
    ensures x * w + c2 * (w * base) == b * (v + s * w) - b * v + c * w + d * w
  {
  }

  /** One column: t are the limbs written so far. */
  method MulStep(D: Mpi, off: nat, y: limb, b: limb, c: limb, k: nat, ghost head: seq<limb>, ghost t: seq<limb>, ghost d: seq<limb>,
                 ghost s: seq<limb>) returns (c': limb, ghost t': seq<limb>)
    requires k == |t| && k < |d| && k < |s| && y == s[k] && off == |head| && D.p == head + t + d[k..]
    requires Val(t) + c * BPow(k) == Val(d[..k]) + b * Val(s[..k])
    modifies D
    ensures D.s == old(D.s) && |t'| == k + 1 && D.p == head + t' + d[k + 1..]
    ensures Val(t') + c' * BPow(k + 1) == Val(d[..k + 1]) + b * Val(s[..k + 1])
  {
    hide Val, BPow, Pair;
    FillNext(D.p, head, t, d, k, 0);
    var x;
    c', x := MulAddCore(y, b, c, D.p[off + k]);
    MulColumn(t, d, s, k, b, c, x, c');
    FillNext(D.p, head, t, d, k, x);
    D.p := D.p[off + k := x];
    t' := t + [x];
  }

  /**
    `mpi_mul_hlp`: adds b times the low i limbs of S to the number that starts at limb `off` of D.  S may be
    D itself when off is 0.  There must be room for the sum, which is what lets the carry loop stop in time.
   */
  method MulHlp(i: nat, S: Mpi, D: Mpi, off: nat, b: limb)
    requires i <= |S.p| && off + i <= |D.p|
    requires S == D ==> off == 0
    requires Val(D.p[off..]) + b * Val(S.p[..i]) < BPow(|D.p| - off)
    modifies D
    ensures D.s == old(D.s) && |D.p| == old(|D.p|) && D.p[..off] == old(D.p[..off])
    ensures Val(D.p[off..]) == old(Val(D.p[off..])) + b * old(Val(S.p[..i]))
  {
    hide Val, BPow, Pair;
    ghost var head, d, s := D.p[..off], D.p[off..], S.p[..i];
    var c;
    ghost var t;
    c, t := MulLoop(i, S, D, off, b);
    Filled(D.p, head, t, d[i..]);
    assert s[..i] == s;
    ValAppend(t, d[i..]);
    ValSplit(d, i);
    MulCarry(D, off, i, c, Val(d) + b * Val(s));
  }

  /** The columns of the multiplier. */
  method MulLoop(i: nat, S: Mpi, D: Mpi, off: nat, b: limb) returns (c: limb, ghost t: seq<limb>)
    requires i <= |S.p| && off + i <= |D.p|
    requires S == D ==> off == 0
    modifies D
    ensures D.s == old(D.s) && |t| == i && D.p == old(D.p[..off]) + t + old(D.p[off..])[i..]
    ensures var d, s := old(D.p[off..]), old(S.p[..i]); Val(t) + c * BPow(i) == Val(d[..i]) + b * Val(s[..i])
  {
    hide Val, BPow;
    ghost var s0, head, d := S.p, D.p[..off], D.p[off..];
    ghost var s := s0[..i];
    t := [];
    c := 0;
    var k := 0;
    ValNone(d);
    ValNone(s);
    while k < i
      invariant k <= i && |t| == k && D.s == old(D.s)
      invariant D.p == head + t + d[k..]
      invariant Val(t) + c * BPow(k) == Val(d[..k]) + b * Val(s[..k])
    {
      FillNext(D.p, head, t, d, k, 0);
      assert S.p[k] == s0[k] == s[k];
      c, t := MulStep(D, off, S.p[k], b, c, k, head, t, d, s);
      k := k + 1;
    }
  }

  /** The carry loop at the end of `mpi_mul_hlp`. */
  method MulCarry(D: Mpi, off: nat, k: nat, c: limb, ghost total: nat)
    requires off + k <= |D.p|
    requires Val(D.p[off..]) + c * BPow(k) == total < BPow(|D.p| - off)
    modifies D
    ensures D.s == old(D.s) && |D.p| == old(|D.p|) && D.p[..off] == old(D.p[..off])
    ensures Val(D.p[off..]) == total
  {
    hide Val, BPow;
    var k, c: limb := k, c;
    while c != 0
      invariant D.s == old(D.s) && off + k <= |D.p| == old(|D.p|) && D.p[..off] == old(D.p[..off])
      invariant Val(D.p[off..]) + c * BPow(k) == total
      decreases |D.p| - k
    {
      if off + k == |D.p| {
        MulMono(1, c, BPow(k));
        assert false;
      }
      ghost var e := D.p[off..];
      var x, c' := AddLimb(D.p[off + k], c);
      CarryStep(e, k, x, c, c');
      D.p := D.p[off + k := x];
      assert D.p[off..] == e[k := x];
      k, c := k + 1, c';
    }
  }

  class Mpi {
    var s: sign
    var p: seq<limb>

    ghost function Int(): int
      reads this
    {
      Signed(s, Val(p))
    }

    constructor ()
      ensures s == 1 && p == []
    {
      s, p := 1, [];
    }

    /** A one-limb number on the stack, as the `_int` variants build it. */
    constructor FromInt(z: sint)
      ensures p == [Abs(z)] && s == (if z < 0 then -1 else 1) && Int() == z && Val(p) == Abs(z)
    {
      s, p := if z < 0 then -1 else 1, [Abs(z)];
      ValOne(Abs(z));
    }

    /** Enlarges to at least n limbs. */
    method Grow(n: nat) returns (r: Status)
      modifies this
      ensures r.Ok? || r.AllocFailed?
      ensures s == old(s) && Val(p) == old(Val(p))
      ensures r.Ok? ==> |p| == Max(old(|p|), n) && p == old(p) + Zeros(|p| - old(|p|))
      ensures !r.Ok? ==> p == old(p)
    {
      hide Val, BPow;
      if n > MAX_LIMBS {
        return AllocFailed;
      }
      if |p| < n {
        if * {
          return AllocFailed;
        }
        ValGrow(p, n - |p|);
        p := p + Zeros(n - |p|);
      }
      return Ok;
    }

    /** Copies Y; the buffer never shrinks, and leading zeros of Y may be dropped. */
    method Copy(Y: Mpi) returns (r: Status)
      modifies this
      ensures r.Ok? || r.AllocFailed?
      ensures r.Ok? ==> Int() == old(Y.Int()) && Val(p) == old(Val(Y.p))
      ensures r.Ok? && old(|Y.p|) > 0 ==> s == old(Y.s)
      ensures r.Ok? && this != Y ==> |p| == Max(old(|p|), if |Y.p| == 0 then 0 else Max(1, Used(Y.p)))
      ensures this == Y ==> s == old(s) && p == old(p)
      ensures r.Ok? && old(|Y.p|) == 0 && old(|p|) > 0 ==> s == 1
    {
      hide Val, BPow;
      if this == Y {
        return Ok;
      }
      if |Y.p| == 0 {
        ValNone(p);
        ValZeros(|p|);
        if |p| != 0 {
          s := 1;
          p := Zeros(|p|);
        }
        return Ok;
      }
      var i := UsedLimbs(Y.p);
      if i == 0 {
        i := 1;
        ValTrim(Y.p, 1);
      }
      s := Y.s;
      if |p| < i {
        :- Grow(i);
      } else {
        p := p[..i] + Zeros(|p| - i);
      }
      p := Y.p[..i] + p[i..];
      assert p == Y.p[..i] + Zeros(|p| - i);
      ValGrow(Y.p[..i], |p| - i);
      return Ok;
    }

    /** Sets the value from a signed word. */
    method Lset(z: sint) returns (r: Status)
      modifies this
      ensures r.Ok? || r.AllocFailed?
      ensures r.Ok? ==> Int() == z && s == (if z < 0 then -1 else 1) && Val(p) == Abs(z)
      ensures r.Ok? ==> |p| == Max(old(|p|), 1) && p == [Abs(z)] + Zeros(|p| - 1)
    {
      hide Val, BPow;
      :- Grow(1);
      p := Zeros(|p|);
      p := p[0 := Abs(z)];
      s := if z < 0 then -1 else 1;
      assert p == [Abs(z)] + Zeros(|p| - 1);
      ValGrow([Abs(z)], |p| - 1);
      ValOne(Abs(z));
      return Ok;
    }

    method CmpAbs(Y: Mpi) returns (c: int)
      ensures c == Cmp(Val(p), Val(Y.p))
    {
      c := CompareLimbs(p, Y.p);
    }

    /** Compares signed values; zero with either sign is zero. */
    method CmpMpi(Y: Mpi) returns (c: int)
      ensures c == Cmp(Int(), Y.Int())
    {
      hide Val, BPow;
      var i := UsedLimbs(p);
      var j := UsedLimbs(Y.p);
      if i == 0 && j == 0 {
        return 0;
      }
      if i > j {
        BPowMonotonic(j, i - 1);
        return s;
      }
      if j > i {
        BPowMonotonic(i, j - 1);
        return 0 - Y.s;
      }
      if s > 0 && Y.s < 0 {
        return 1;
      }
      if Y.s > 0 && s < 0 {
        return -1;
      }
      var m := CompareLimbs(p[..i], Y.p[..i]);
      return if m > 0 then s else if m < 0 then 0 - s else 0;
    }

    method CmpInt(z: sint) returns (c: int)
      ensures c == Cmp(Int(), z)
    {
      var Y := new Mpi.FromInt(z);
      c := CmpMpi(Y);
    }

    /** this = |A| + |B|; any of the three may be the same object. */
    method AddAbs(A: Mpi, B: Mpi) returns (r: Status)
      modifies this
      ensures r.Ok? || r.AllocFailed?
      ensures r.Ok? ==> s == 1 && Val(p) == old(Val(A.p)) + old(Val(B.p))
      ensures r.Ok? ==> |p| >= old(|p|)
    {
      hide Val, BPow;
      var A, B := A, B;
      if this == B {
        A, B := this, A;
      }
      if this != A {
        :- Copy(A);
      }
      s := 1;
      var j := UsedLimbs(B.p);
      assert Val(B.p[..j]) == Val(B.p);
      :- Grow(j);
      assert B.p[..j] == old(B.p[..j]);
      ghost var a, b := p, B.p;
      var c: limb := AddColumns(B, j);
      :- PropagateCarry(j, c);
      return Ok;
    }

    /** The columns of the addition that B takes part in. */
    method AddColumns(B: Mpi, j: nat) returns (c: limb)
      requires j <= |p| && j <= |B.p|
      modifies this
      ensures c <= 1 && s == old(s) && |p| == old(|p|)
      ensures Val(p) + c * BPow(j) == old(Val(p)) + old(Val(B.p[..j]))
    {
      hide Val, BPow;
      ghost var a, b, t := p, B.p, [];
      ValNone(a);
      ValNone(b);
      c := 0;
      var i := 0;
      while i < j
        invariant i <= j && c <= 1 && s == old(s) && |t| == i
        invariant p == t + a[i..]
        invariant B != this ==> B.p == b
        invariant Val(t) + c * BPow(i) == Val(a[..i]) + Val(b[..i])
      {
        FillOne(p, t, a, i, 0);
        var y, c' := AddLimbs(p[i], c, B.p[i]);
        AddColumn(t, a, b, i, c, y, c');
        FillOne(p, t, a, i, y);
        p := p[i := y];
        t := t + [y];
        c, i := c', i + 1;
      }
      AddedLow(t, a, b, p, j, c);
    }

    /** Adds a carry at position i, growing if it runs past the end. */
    method PropagateCarry(i: nat, c: limb) returns (r: Status)
      requires i <= |p| && c <= 1
      modifies this
      ensures r.Ok? || r.AllocFailed?
      ensures s == old(s) && |p| >= old(|p|)
      ensures r.Ok? ==> Val(p) == old(Val(p)) + c * BPow(i)
    {
      hide Val, BPow;
      var i, c: limb := i, c;
      ghost var n, total := |p|, Val(p) + c * BPow(i);
      while c != 0
        invariant i <= |p| && |p| >= n && c <= 1 && s == old(s)
        invariant c != 0 ==> |p| == n
        invariant Val(p) + c * BPow(i) == total
        decreases n + 1 - i, c
      {
        if i >= |p| {
          :- Grow(i + 1);
        }
        var x, c' := AddLimb(p[i], c);
        CarryStep(p, i, x, c, c');
        p := p[i := x];
        c, i := c', i + 1;
      }
      return Ok;
    }

    /** this = |A| - |B|, an error exactly when that is negative; any of the three may be the same object. */
    method SubAbs(A: Mpi, B: Mpi) returns (r: Status)
      modifies this
      ensures r.Ok? || r.AllocFailed? || r.NegativeValue?
      ensures r.Ok? ==> s == 1 && Val(p) == old(Val(A.p)) - old(Val(B.p))
      ensures r.Ok? ==> |p| == Max(old(|p|), old(|A.p|))
      ensures r.NegativeValue? ==> old(Val(A.p)) < old(Val(B.p))
    {
      hide Val, BPow;
      var n := UsedLimbs(B.p);
      if n > |A.p| {
        ValBound(A.p);
        BPowMonotonic(|A.p|, n - 1);
        return NegativeValue;
      }
      ghost var a, b := A.p, B.p;
      assert Val(b[..n]) == Val(b);
      :- Grow(|A.p|);
      assert A.p == a;
      KeepLow(p, a, n);
      p := p[..n] + A.p[n..] + Zeros(|p| - |A.p|);
      assert A.p == a && B.p[..n] == b[..n];
      assert A.p[0..0 + n] == a[..n];
      var carry := SubHlp(n, this, A, 0, B);
      assert p[0..0 + n] == p[..n] && p[n..] == p[0 + n..];
      SubtractedLow(p, a, b, n, carry);
      if carry != 0 {
        var ok := PropagateBorrow(n);
        if !ok {
          return NegativeValue;
        }
      }
      s := 1;
      return Ok;
    }

    /** Takes one from the limb at position n, borrowing upwards; false when there is nothing to borrow from. */
    method PropagateBorrow(n: nat) returns (ok: bool)
      requires n <= |p|
      modifies this
      ensures |p| == old(|p|) && s == old(s)
      ensures ok ==> Val(p) == old(Val(p)) - BPow(n)
      ensures !ok ==> old(Val(p)) < BPow(n)
    {
      hide Val, BPow;
      var n := n;
      ghost var total := Val(p) - BPow(n);
      while n < |p| && p[n] == 0
        invariant n <= |p| == old(|p|) && s == old(s)
        invariant Val(p) == total + BPow(n)
      {
        ValUpdate(p, n, BASE - 1);
        BorrowInts(p[n], BASE, BPow(n));
        BPowNext(n);
        p := p[n := Wrap(p[n] as int - 1)];
        n := n + 1;
      }
      if n == |p| {
        ValBound(p);
        return false;
      }
      ValUpdate(p, n, p[n] - 1);
      p := p[n := p[n] - 1];
      return true;
    }

    /** this = A + B, whatever coincides. */
    method AddMpi(A: Mpi, B: Mpi) returns (r: Status)
      modifies this
      ensures r.Ok? || r.AllocFailed?
      ensures r.Ok? ==> Int() == old(A.Int()) + old(B.Int())
      ensures r.Ok? ==> |p| >= old(|p|)
    {
      hide Val, BPow;
      var s' := A.s;
      if A.s * B.s < 0 {
        var c := A.CmpAbs(B);
        if c >= 0 {
          :- SubAbs(A, B);
          s := s';
        } else {
          :- SubAbs(B, A);
          s := 0 - s';
        }
      } else {
        :- AddAbs(A, B);
        s := s';
      }
      return Ok;
    }

    /** this = A - B, whatever coincides. */
    method SubMpi(A: Mpi, B: Mpi) returns (r: Status)
      modifies this
      ensures r.Ok? || r.AllocFailed?
      ensures r.Ok? ==> Int() == old(A.Int()) - old(B.Int())
      ensures r.Ok? ==> |p| >= old(|p|)
      ensures r.Ok? && old(A.s) == 1 && old(B.s) == 1 && old(Val(A.p)) >= old(Val(B.p)) ==> s == 1
    {
      hide Val, BPow;
      var s' := A.s;
      if A.s * B.s > 0 {
        var c := A.CmpAbs(B);
        if c >= 0 {
          :- SubAbs(A, B);
          s := s';
        } else {
          :- SubAbs(B, A);
          s := 0 - s';
        }
      } else {
        :- AddAbs(A, B);
        s := s';
      }
      return Ok;
    }

    method AddInt(A: Mpi, b: sint) returns (r: Status)
      modifies this
      ensures r.Ok? || r.AllocFailed?
      ensures r.Ok? ==> Int() == old(A.Int()) + b
      ensures r.Ok? ==> |p| >= old(|p|)
    {
      var B := new Mpi.FromInt(b);
      r := AddMpi(A, B);
    }

    method SubInt(A: Mpi, b: sint) returns (r: Status)
      modifies this
      ensures r.Ok? || r.AllocFailed?
      ensures r.Ok? ==> Int() == old(A.Int()) - b
      ensures r.Ok? ==> |p| >= old(|p|)
    {
      var B := new Mpi.FromInt(b);
      r := SubMpi(A, B);
    }

    /** this = A * B, whatever coincides. */
    method MulMpi(A: Mpi, B: Mpi) returns (r: Status)
      modifies this
      ensures r.Ok? || r.AllocFailed?
      ensures r.Ok? ==> Int() == old(A.Int()) * old(B.Int())
      ensures r.Ok? ==> |p| >= old(|p|)
      ensures r.Ok? && Int() == 0 ==> s == 1
    {
      hide Val, BPow;
      var A, B := A, B;
      if this == A {
        var TA := new Mpi();
        :- TA.Copy(A);
        A := TA;
      }
      if this == B {
        var TB := new Mpi();
        :- TB.Copy(B);
        B := TB;
      }
      r := MulDistinct(A, B);
    }

    /** The product, with copies in place of operands that are the destination. */
    method MulDistinct(A: Mpi, B: Mpi) returns (r: Status)
      requires this != A && this != B
      modifies this
      ensures r.Ok? || r.AllocFailed?
      ensures r.Ok? ==> Int() == A.Int() * B.Int()
      ensures r.Ok? ==> |p| >= old(|p|)
      ensures r.Ok? && Int() == 0 ==> s == 1
    {
      hide Val, BPow;
      var i := UsedLimbs(A.p);
      var j := UsedLimbs(B.p);
      var zero := i == 0 || j == 0;
      SignedProduct(A.s, Val(A.p), B.s, Val(B.p));
      :- Grow(i + j);
      :- Lset(0);
      MulColumns(A, i, B, j);
      s := if zero then 1 else A.s * B.s;
      return Ok;
    }

    /** One pass of `mpi_mul_hlp` for every limb of B, most significant first. */
    method MulColumns(A: Mpi, i: nat, B: Mpi, j: nat)
      requires this != A && this != B
      requires i <= |A.p| && j <= |B.p| && i + j <= |p| && Val(p) == 0
      modifies this
      ensures |p| == old(|p|)
      ensures Val(p) == Val(A.p[..i]) * Val(B.p[..j])
    {
      hide Val, BPow;
      ghost var a, b := A.p[..i], B.p[..j];
      var k := j;
      ZeroTail(p, j);
      assert b[j..] == [];
      ValNone([]);
      while k > 0
        invariant k <= j && |p| == old(|p|)
        invariant p[..k] == Zeros(k)
        invariant Val(p[k..]) == Val(a) * Val(b[k..])
      {
        NextRow(p, k, a, b);
        ghost var before := p;
        MulHlp(i, A, this, k - 1, B.p[k - 1]);
        assert p[..k - 1] == before[..k - 1] == Zeros(k - 1);
        k := k - 1;
      }
      assert p[0..] == p && b[0..] == b;
    }

    /** this = A * b, also in place. */
    method MulInt(A: Mpi, b: limb) returns (r: Status)
      modifies this
      ensures r.Ok? || r.AllocFailed?
      ensures r.Ok? ==> Int() == old(A.Int()) * b
      ensures r.Ok? ==> Val(p) == old(Val(A.p)) * b
      ensures r.Ok? ==> |p| >= old(|p|)
    {
      hide Val, BPow;
      var n := UsedLimbs(A.p);
      if b == 0 || n == 0 {
        r := Lset(0);
        return;
      }
      ghost var low := A.p[..n];
      :- Grow(n + 1);
      assert A.p[..n] == low;
      :- Copy(A);
      assert A.p[..n] == low;
      MulInPlace(A, n, b);
      return Ok;
    }

    /** A is copied already; b - 1 times A is added to the copy. */
    method MulInPlace(A: Mpi, n: nat, b: limb)
      requires n <= |A.p| && n + 1 <= |p| && b > 0 && Val(A.p[..n]) == Val(p) && Val(p) < BPow(n)
      modifies this
      ensures |p| == old(|p|) && s == old(s) && Val(p) == old(Val(p)) * b
      ensures Int() == old(Int()) * b
    {
      hide Val, BPow;
      ghost var a := Val(p);
      assert p[0..] == p;
      RoomForProduct(a, b, n, |p|);
      MulHlp(n, A, this, 0, b - 1);
      assert p[0..] == p;
      MulDist(a, b, 1);
    }
  }

  lemma RoomForProduct(a: nat, b: limb, n: nat, m: nat)
    requires a < BPow(n) && n + 1 <= m && b > 0
    ensures a + (b - 1) * a < BPow(m)
  {
    hide BPow;
    BPowMonotonic(n + 1, m);
    BPowNext(n);
    MulMono(b, BASE, a);
    MulMono(a + 1, BPow(n), BASE);
    MulDist(BASE, a, 1);
    MulDist(a, b, 1);
  }

  lemma ZeroTail(p: seq<limb>, j: nat)
    requires j <= |p| && Val(p) == 0
    ensures p[..j] == Zeros(j) && Val(p[j..]) == 0
  {
    hide Val;
    ValIsZero(p);
    ValIsZero(p[j..]);
  }

  /** What the next row of the multiplication adds, and that there is room for it. */
  lemma NextRow(p: seq<limb>, k: nat, a: seq<limb>, b: seq<limb>)
    requires 0 < k <= |b| && |a| + |b| <= |p|
    requires p[..k] == Zeros(k)
    requires Val(p[k..]) == Val(a) * Val(b[k..])
    ensures Val(p[k - 1..]) + b[k - 1] * Val(a) == Val(a) * Val(b[k - 1..])
    ensures Val(a) * Val(b[k - 1..]) < BPow(|p| - (k - 1))
  {
    hide Val, BPow;
    var q, c := p[k - 1..], b[k - 1..];
    assert q[0] == p[..k][k - 1] == 0;
    assert q[1..] == p[k..] && c[1..] == b[k..];
    ValFirst(q);
    ValFirst(c);
    NextRowInts(Val(a), Val(b[k..]), b[k - 1], BASE);
    ProductBound(a, c, |p| - (k - 1));
  }

  lemma NextRowInts(a: int, v: int, x: int, base: int)
    ensures base * (a * v) + x * a == a * (x + base * v)
  {
  }

  lemma ProductBound(a: seq<limb>, c: seq<limb>, m: nat)
    requires |a| + |c| <= m
    ensures Val(a) * Val(c) < BPow(m)
  {
    hide Val, BPow;
    ValBound(a);
    ValBound(c);
    MulMono(Val(a), BPow(|a|), Val(c));
    MulMono(Val(c) + 1, BPow(|c|), BPow(|a|));
    MulDist(BPow(|a|), Val(c), 1);
    BPowAdd(|a|, |c|);
    BPowMonotonic(|a| + |c|, m);
  }

  lemma SignedProduct(sa: sign, a: nat, sb: sign, b: nat)
    ensures Signed(sa * sb, a * b) == Signed(sa, a) * Signed(sb, b)
    ensures Signed(1, a * b) == 0 <==> a == 0 || b == 0
  {
    MulNonNeg(a, b);
    if a > 0 && b > 0 {
      MulMono(1, a, b);
    }
  }

  lemma BorrowInts(x: int, base: int, w: int)
    requires x == 0
    ensures (base - 1 - x) * w == w * base - w
  {
  }

  /** The low n limbs of x under the high limbs of a. */
  lemma KeepLow(x: seq<limb>, a: seq<limb>, n: nat)
    requires n <= |a| <= |x|
    ensures var y := x[..n] + a[n..] + Zeros(|x| - |a|);
      |y| == |x| && y[..n] == x[..n] && y[n..] == y[0 + n..] == a[n..] + Zeros(|x| - |a|) && (|x| == |a| && x == a ==> y == a)
  {
  }

  lemma SubtractedLow(p: seq<limb>, a: seq<limb>, b: seq<limb>, n: nat, c: nat)
    requires n <= |a| <= |p| && n <= |b|
    requires p[n..] == a[n..] + Zeros(|p| - |a|)
    requires Val(p[..n]) == Val(a[..n]) - Val(b[..n]) + c * BPow(n)
    ensures Val(p) == Val(a) - Val(b[..n]) + c * BPow(n)
  {
    hide Val, BPow;
    ValSplit(p, n);
    ValSplit(a, n);
    ValGrow(a[n..], |p| - |a|);
  }

  lemma AddedLow(t: seq<limb>, a: seq<limb>, b: seq<limb>, p: seq<limb>, j: nat, c: nat)
    requires j <= |a| && j <= |b| && |t| == j && p == t + a[j..]
    requires Val(t) + c * BPow(j) == Val(a[..j]) + Val(b[..j])
    ensures Val(p) + c * BPow(j) == Val(a) + Val(b[..j])
  {
    ValAppend(t, a[j..]);
    ValSplit(a, j);
  }
}
