/** Base64 over whole strings (section 5.2 of RFC 1521). */
module Base64Spec {
  import opened Words
  import opened Products

  const EQUALS: byte := 0x3D

  /** The character of a six-bit value. */
  function Digit(v: nat): (c: byte)
    requires v < 64
    ensures c != EQUALS && !IsBlank(c) && c < 128
  {
    if v < 26 then 0x41 + v else if v < 52 then 0x61 + (v - 26) else if v < 62 then 0x30 + (v - 52)
    else if v == 62 then 0x2B else 0x2F
  }

  /** The value of a character, -1 for characters that are no digits. */
  function DigitValue(c: byte): (v: int)
    ensures -1 <= v < 64
  {
    if 0x41 <= c <= 0x5A then c - 0x41 else if 0x61 <= c <= 0x7A then c - 0x61 + 26
    else if 0x30 <= c <= 0x39 then c - 0x30 + 52 else if c == 0x2B then 62 else if c == 0x2F then 63 else -1
  }

  lemma DigitInverse(v: nat)
    requires v < 64
    ensures DigitValue(Digit(v)) == v
  {
  }

  /** The alphabet of the standard. */
  lemma AlphabetIs(v: nat)
    requires v < 64
    ensures v < 26 ==> Digit(v) == "ABCDEFGHIJKLMNOPQRSTUVWXYZ"[v] as int
    ensures 26 <= v < 52 ==> Digit(v) == "abcdefghijklmnopqrstuvwxyz"[v - 26] as int
    ensures 52 <= v < 62 ==> Digit(v) == "0123456789"[v - 52] as int
    ensures Digit(62) == '+' as int && Digit(63) == '/' as int
  {
    if v < 26 {
      UpperCase(v);
    } else if v < 52 {
      LowerCase(v - 26);
    }
  }

  lemma UpperCase(i: nat)
    requires i < 26
    ensures "ABCDEFGHIJKLMNOPQRSTUVWXYZ"[i] as int == 0x41 + i
  {
  }

  lemma LowerCase(i: nat)
    requires i < 26
    ensures "abcdefghijklmnopqrstuvwxyz"[i] as int == 0x61 + i
  {
  }

  predicate IsBlank(c: byte) {
    c == 0x20 || c == 0x0D || c == 0x0A
  }

  lemma BlankIs(c: byte)
    ensures IsBlank(c) <==> c == ' ' as int || c == '\r' as int || c == '\n' as int
  {
  }

  /** The significant characters. */
  function Clean(s: seq<byte>): (d: seq<byte>)
    ensures |d| <= |s|
    ensures forall k :: 0 <= k < |d| ==> !IsBlank(d[k])
  {
    if |s| == 0 then [] else Clean(s[..|s| - 1]) + if IsBlank(s[|s| - 1]) then [] else [s[|s| - 1]]
  }

  /** Digits, then at most two equals signs, e of them. */
  predicate WellFormed(d: seq<byte>, e: nat) {
    && e <= 2 && e <= |d|
    && (forall k :: 0 <= k < |d| - e ==> d[k] != EQUALS && DigitValue(d[k]) >= 0)
    && (forall k :: |d| - e <= k < |d| ==> d[k] == EQUALS)
  }

  // ---------- decoding ----------

  function Six(c: byte): (v: nat)
    ensures v < 64
  {
    if DigitValue(c) < 0 then 0 else DigitValue(c)
  }

  function CountEquals(d: seq<byte>): (e: nat)
    ensures e <= |d|
  {
    if |d| == 0 then 0 else CountEquals(d[..|d| - 1]) + if d[|d| - 1] == EQUALS then 1 else 0
  }

  /** The number that up to four characters stand for. */
  function Joined(d: seq<byte>): nat {
    if |d| == 0 then 0 else 64 * Joined(d[..|d| - 1]) + Six(d[|d| - 1])
  }

  /** The bytes of a group of four characters with the given number of equals signs. */
  function GroupBytes(v: nat, e: nat): (b: seq<byte>)
    ensures |b| == if e == 0 then 3 else if e == 1 then 2 else 1
  {
    [v / 0x1_0000 % 256] + (if e <= 1 then [v / 0x100 % 256] else []) + (if e <= 0 then [v % 256] else [])
  }

  /** Complete groups are decoded, what is left over is ignored. */
  function DecodeGroups(d: seq<byte>): seq<byte> {
    if |d| < 4 then []
    else
      var m := |d| / 4 * 4;
      DecodeGroups(d[..m - 4]) + GroupBytes(Joined(d[m - 4..m]), CountEquals(d[m - 4..m]))
  }

  /** The length the first pass computes, in the form that cannot overflow. */
  function OutputBound(n: nat, e: nat): int {
    6 * (n / 8) + (6 * (n % 8) + 7) / 8 - e
  }

  // ---------- encoding ----------

  function EncodeTriple(a: byte, b: byte, c: byte): (q: seq<byte>)
    ensures |q| == 4
  {
    [Digit(a / 4), Digit(a % 4 * 16 + b / 16), Digit(b % 16 * 4 + c / 64), Digit(c % 64)]
  }

  function EncodeLast(t: seq<byte>): (q: seq<byte>)
    requires 1 <= |t| <= 2
    ensures |q| == 4
  {
    var b := if |t| == 2 then t[1] else 0;
    [Digit(t[0] / 4), Digit(t[0] % 4 * 16 + b / 16), if |t| == 2 then Digit(b % 16 * 4) else EQUALS, EQUALS]
  }

  /** Whole triples. */
  function EncodeWhole(s: seq<byte>): (d: seq<byte>)
    requires |s| % 3 == 0
    ensures |d| == |s| / 3 * 4
  {
    if |s| == 0 then [] else EncodeWhole(s[..|s| - 3]) + EncodeTriple(s[|s| - 3], s[|s| - 2], s[|s| - 1])
  }

  function Encode(s: seq<byte>): seq<byte> {
    var m := |s| / 3 * 3;
    EncodeWhole(s[..m]) + if |s| == m then [] else EncodeLast(s[m..])
  }

  // ---------- the first pass ----------

  /** The end of the run of spaces from position i on. */
  function SkipSpaces(s: seq<byte>, i: nat): (j: nat)
    requires i <= |s|
    ensures i <= j <= |s| && (forall k :: i <= k < j ==> s[k] == 0x20) && (j < |s| ==> s[j] != 0x20)
    decreases |s| - i
  {
    if i < |s| && s[i] == 0x20 then SkipSpaces(s, i + 1) else i
  }

  /** Number of significant characters and of equals signs of an acceptable string, from position i on. */
  function FirstPass(s: seq<byte>, i: nat, n: nat, e: nat): Option<(nat, nat)>
    requires i <= |s|
    decreases |s| - i
  {
    if i == |s| then Some((n, e))
    else
      var j := SkipSpaces(s, i);
      if j == |s| then Some((n, e))
      else if |s| - j >= 2 && s[j] == 0x0D && s[j + 1] == 0x0A then FirstPass(s, j + 1, n, e)
      else if s[j] == 0x0A then FirstPass(s, j + 1, n, e)
      else if j > i || s[j] > 127 then Nothing
      else if s[j] == EQUALS then if e + 1 > 2 then Nothing else FirstPass(s, j + 1, n + 1, e + 1)
      else if e != 0 || DigitValue(s[j]) < 0 then Nothing
      else FirstPass(s, j + 1, n + 1, e)
  }

  lemma CleanNext(s: seq<byte>, i: nat)
    requires i < |s|
    ensures Clean(s[..i + 1]) == Clean(s[..i]) + if IsBlank(s[i]) then [] else [s[i]]
  {
    assert s[..i + 1][..i] == s[..i];
  }

  lemma {:induction false} CleanBlanks(s: seq<byte>, i: nat, j: nat)
    requires i <= j <= |s| && forall k :: i <= k < j ==> IsBlank(s[k])
    ensures Clean(s[..j]) == Clean(s[..i])
  {
    if i < j {
      CleanBlanks(s, i, j - 1);
      CleanNext(s, j - 1);
    }
  }

  lemma WellFormedNext(d: seq<byte>, e: nat, c: byte)
    requires WellFormed(d, e)
    ensures e == 0 && c != EQUALS && DigitValue(c) >= 0 ==> WellFormed(d + [c], 0)
    ensures e < 2 && c == EQUALS ==> WellFormed(d + [c], e + 1)
  {
  }

  /** An accepted string has well-formed significant characters, and the pass counts them. */
  lemma {:induction false} FirstPassMeans(s: seq<byte>, i: nat, n: nat, e: nat)
    requires i <= |s| && n == |Clean(s[..i])| && WellFormed(Clean(s[..i]), e) && FirstPass(s, i, n, e).Some?
    ensures var (m, f) := FirstPass(s, i, n, e).value; m == |Clean(s)| && WellFormed(Clean(s), f)
    decreases |s| - i
  {
    hide WellFormed, Clean;
    var j := if i == |s| then i else SkipSpaces(s, i);
    CleanBlanks(s, i, j);
    assert s[..|s|] == s;
    if j < |s| {
      CleanNext(s, j);
      assert Clean(s[..j]) + [] == Clean(s[..j]);
      WellFormedNext(Clean(s[..j]), e, s[j]);
      if (|s| - j >= 2 && s[j] == 0x0D && s[j + 1] == 0x0A) || s[j] == 0x0A {
        FirstPassMeans(s, j + 1, n, e);
      } else {
        FirstPassMeans(s, j + 1, n + 1, if s[j] == EQUALS then e + 1 else e);
      }
    }
  }

  /** Spaces only before the end of a line or of the input, and no carriage return without a line feed. */
  predicate PlacedWell(s: seq<byte>, k: nat)
    requires k < |s|
  {
    && (s[k] == 0x20 ==> k + 1 == |s| || IsBlank(s[k + 1]))
    && (s[k] == 0x0D ==> k + 1 < |s| && s[k + 1] == 0x0A)
  }

  lemma {:induction false} AcceptedLayout(s: seq<byte>, i: nat, n: nat, e: nat)
    requires i <= |s| && FirstPass(s, i, n, e).Some?
    ensures forall k :: i <= k < |s| ==> PlacedWell(s, k)
    decreases |s| - i
  {
    var j := SkipSpaces(s, i);
    if j < |s| {
      if (|s| - j >= 2 && s[j] == 0x0D && s[j + 1] == 0x0A) || s[j] == 0x0A {
        AcceptedLayout(s, j + 1, n, e);
      } else {
        AcceptedLayout(s, j + 1, n + 1, if s[j] == EQUALS then e + 1 else e);
      }
    }
    forall k | i <= k < |s| ensures PlacedWell(s, k) {
      if k < j {
        assert s[k] == 0x20 && (k + 1 == j || s[k + 1] == 0x20);
      }
    }
  }

  lemma {:induction false} CleanPrefix(s: seq<byte>, i: nat)
    requires i <= |s|
    ensures |Clean(s[..i])| <= |Clean(s)| && Clean(s)[..|Clean(s[..i])|] == Clean(s[..i])
    decreases |s| - i
  {
    hide Clean;
    if i == |s| {
      assert s[..i] == s;
    } else {
      CleanPrefix(s, i + 1);
      CleanNext(s, i);
    }
  }

  /** The next character of a well-formed string, after d with its e equals signs. */
  lemma NextAllowed(all: seq<byte>, f: nat, d: seq<byte>, e: nat, c: byte)
    requires WellFormed(all, f) && WellFormed(d, e) && |d| < |all| && all[..|d| + 1] == d + [c]
    ensures if c == EQUALS then e < 2 else e == 0 && DigitValue(c) >= 0
  {
    hide DigitValue;
    assert forall k :: 0 <= k < |d| ==> all[k] == all[..|d| + 1][k] == d[k];
    assert all[|d|] == all[..|d| + 1][|d|] == c;
    if e > 0 {
      assert all[|d| - e] == d[|d| - e] == EQUALS;
    }
  }

  lemma {:induction false} LayoutAccepted(s: seq<byte>, i: nat, n: nat, e: nat, f: nat)
    requires i <= |s| && WellFormed(Clean(s[..i]), e) && WellFormed(Clean(s), f)
    requires forall k :: i <= k < |s| ==> PlacedWell(s, k)
    ensures FirstPass(s, i, n, e).Some?
    decreases |s| - i
  {
    hide WellFormed, Clean, DigitValue;
    var j := SkipSpaces(s, i);
    CleanBlanks(s, i, j);
    if j < |s| {
      var d, c := Clean(s[..j]), s[j];
      if j > i {
        assert PlacedWell(s, j - 1);
      }
      assert PlacedWell(s, j);
      CleanNext(s, j);
      CleanPrefix(s, j + 1);
      if IsBlank(c) {
        assert d + [] == d;
        LayoutAccepted(s, j + 1, n, e, f);
      } else {
        NextAllowed(Clean(s), f, d, e, c);
        WellFormedNext(d, e, c);
        DigitsAreSmall(c);
        LayoutAccepted(s, j + 1, n + 1, if c == EQUALS then e + 1 else e, f);
      }
    }
  }

  lemma DigitsAreSmall(c: byte)
    ensures c == EQUALS || DigitValue(c) >= 0 ==> c <= 127
  {
  }

  /** What the first pass accepts: well-formed significant characters with blanks only where lines end. */
  lemma AcceptedIff(s: seq<byte>)
    ensures FirstPass(s, 0, 0, 0).Some? <==>
      (exists e: nat :: WellFormed(Clean(s), e)) && forall k :: 0 <= k < |s| ==> PlacedWell(s, k)
  {
    hide FirstPass, PlacedWell;
    NothingYet(s);
    if FirstPass(s, 0, 0, 0).Some? {
      FirstPassMeans(s, 0, 0, 0);
      AcceptedLayout(s, 0, 0, 0);
      var (m, f) := FirstPass(s, 0, 0, 0).value;
      assert WellFormed(Clean(s), f);
    }
    if (exists e: nat :: WellFormed(Clean(s), e)) && forall k :: 0 <= k < |s| ==> PlacedWell(s, k) {
      var e: nat :| WellFormed(Clean(s), e);
      LayoutAccepted(s, 0, 0, 0, e);
    }
  }

  lemma NothingYet(s: seq<byte>)
    ensures Clean(s[..0]) == [] && WellFormed([], 0)
  {
  }

  // ---------- no overrun ----------

  lemma {:induction false} CountNone(d: seq<byte>)
    requires forall k :: 0 <= k < |d| ==> d[k] != EQUALS
    ensures CountEquals(d) == 0
  {
    if |d| > 0 {
      CountNone(d[..|d| - 1]);
    }
  }

  lemma {:induction false} CountEnd(d: seq<byte>, e: nat)
    requires e <= |d| && (forall k :: 0 <= k < |d| - e ==> d[k] != EQUALS) && (forall k :: |d| - e <= k < |d| ==> d[k] == EQUALS)
    ensures CountEquals(d) == e
  {
    if e == 0 {
      CountNone(d);
    } else {
      CountEnd(d[..|d| - 1], e - 1);
    }
  }

  lemma {:induction false} PlainLength(d: seq<byte>)
    requires forall k :: 0 <= k < |d| ==> d[k] != EQUALS
    ensures |DecodeGroups(d)| == |d| / 4 * 3
  {
    hide Joined, GroupBytes, CountEquals;
    if |d| >= 4 {
      var g := |d| / 4 - 1;
      var head, last := d[..4 * g], d[4 * g..4 * g + 4];
      assert |d| / 4 * 4 - 4 == 4 * g;
      PlainLength(head);
      CountNone(last);
      assert DecodeGroups(d) == DecodeGroups(head) + GroupBytes(Joined(last), CountEquals(last));
    }
  }

  lemma FormulaIs(n: nat, e: nat)
    ensures OutputBound(n, e) == n / 4 * 3 + n % 4 - e
  {
  }

  /** The second pass never writes more than the first one announced. */
  lemma NoOverrun(d: seq<byte>, e: nat)
    requires WellFormed(d, e)
    ensures 0 <= |DecodeGroups(d)| <= OutputBound(|d|, e)
    ensures |d| % 4 == 0 ==> |DecodeGroups(d)| == OutputBound(|d|, e)
  {
    hide Joined, GroupBytes, CountEquals, DecodeGroups, OutputBound;
    FormulaIs(|d|, e);
    if |d| >= 4 {
      var g, r := |d| / 4 - 1, |d| % 4;
      var head, last := d[..4 * g], d[4 * g..4 * g + 4];
      GroupsLast(d, g, r);
      PlainLength(head);
      CountEnd(last, if e > r then e - r else 0);
    } else {
      GroupsNone(d);
    }
  }

  lemma GroupsNone(d: seq<byte>)
    requires |d| < 4
    ensures DecodeGroups(d) == []
  {
  }

  lemma GroupsLast(d: seq<byte>, g: nat, r: nat)
    requires |d| == 4 * g + 4 + r && r < 4
    ensures DecodeGroups(d) == DecodeGroups(d[..4 * g]) + GroupBytes(Joined(d[4 * g..4 * g + 4]), CountEquals(d[4 * g..4 * g + 4]))
  {
    hide DecodeGroups, Joined, GroupBytes, CountEquals;
    DivModUnique(|d|, 4, g + 1, r);
    GroupsStep(d, 4 * g + 4);
  }

  lemma GroupsStep(d: seq<byte>, m: nat)
    requires |d| >= 4 && m == |d| / 4 * 4
    ensures DecodeGroups(d) == DecodeGroups(d[..m - 4]) + GroupBytes(Joined(d[m - 4..m]), CountEquals(d[m - 4..m]))
  {
    hide Joined, GroupBytes, CountEquals;
  }

  // ---------- round trip ----------

  lemma JoinedNext(d: seq<byte>, c: byte)
    ensures Joined(d + [c]) == 64 * Joined(d) + Six(c)
  {
    assert (d + [c])[..|d|] == d;
  }

  lemma JoinedFour(a: byte, b: byte, c: byte, d: byte)
    ensures Joined([a, b, c, d]) == Six(a) * 0x4_0000 + Six(b) * 0x1000 + Six(c) * 0x40 + Six(d)
  {
    hide Six, Joined;
    JoinedNone();
    JoinedNext([], a);
    JoinedNext([a], b);
    JoinedNext([a, b], c);
    JoinedNext([a, b, c], d);
    assert [] + [a] == [a] && [a] + [b] == [a, b] && [a, b] + [c] == [a, b, c] && [a, b, c] + [d] == [a, b, c, d];
  }

  lemma JoinedNone()
    ensures Joined([]) == 0
  {
  }

  lemma SixBits(a: nat, b: nat, c: nat)
    requires a < 256 && b < 256 && c < 256
    ensures a / 4 < 64 && a % 4 * 16 + b / 16 < 64 && b % 16 * 4 + c / 64 < 64 && c % 64 < 64
    ensures a / 4 * 0x4_0000 + (a % 4 * 16 + b / 16) * 0x1000 + (b % 16 * 4 + c / 64) * 0x40 + c % 64 == a * 0x1_0000 + b * 0x100 + c
  {
  }

  lemma ThreeBytes(a: nat, b: nat, c: nat)
    requires a < 256 && b < 256 && c < 256
    ensures var v := a * 0x1_0000 + b * 0x100 + c; v / 0x1_0000 % 256 == a && v / 0x100 % 256 == b && v % 256 == c
  {
    var v := a * 0x1_0000 + b * 0x100 + c;
    DivModUnique(v, 0x1_0000, a, b * 0x100 + c);
    DivModUnique(v, 0x100, a * 0x100 + b, c);
  }

  lemma SixOfDigit(v: nat)
    requires v < 64
    ensures Six(Digit(v)) == v && Six(EQUALS) == 0
  {
    DigitInverse(v);
  }

  lemma TripleInverse(a: byte, b: byte, c: byte)
    ensures GroupBytes(Joined(EncodeTriple(a, b, c)), CountEquals(EncodeTriple(a, b, c))) == [a, b, c]
  {
    hide CountEquals, Joined, Six, Digit;
    SixBits(a, b, c);
    var d0, d1, d2, d3 := a / 4, a % 4 * 16 + b / 16, b % 16 * 4 + c / 64, c % 64;
    CountNone(EncodeTriple(a, b, c));
    JoinedFour(Digit(d0), Digit(d1), Digit(d2), Digit(d3));
    SixOfDigit(d0);
    SixOfDigit(d1);
    SixOfDigit(d2);
    SixOfDigit(d3);
    ThreeBytes(a, b, c);
  }

  lemma LastInverse(t: seq<byte>)
    requires 1 <= |t| <= 2
    ensures CountEquals(EncodeLast(t)) == 3 - |t|
    ensures GroupBytes(Joined(EncodeLast(t)), CountEquals(EncodeLast(t))) == t
  {
    hide CountEquals, Joined, Six, Digit;
    var a: byte, b: byte := t[0], if |t| == 2 then t[1] else 0;
    SixBits(a, b, 0);
    CountEnd(EncodeLast(t), 3 - |t|);
    var d0, d1, d2 := a / 4, a % 4 * 16 + b / 16, b % 16 * 4;
    JoinedFour(Digit(d0), Digit(d1), if |t| == 2 then Digit(d2) else EQUALS, EQUALS);
    SixOfDigit(d0);
    SixOfDigit(d1);
    SixOfDigit(d2);
    ThreeBytes(a, b, 0);
  }

  lemma {:induction false} WholeInverse(s: seq<byte>)
    requires |s| % 3 == 0
    ensures DecodeGroups(EncodeWhole(s)) == s
    decreases |s|
  {
    hide Joined, GroupBytes, CountEquals, DecodeGroups, EncodeTriple;
    if |s| == 0 {
      GroupsNone([]);
    } else {
      var n := |s| - 3;
      var head, q := EncodeWhole(s[..n]), EncodeTriple(s[n], s[n + 1], s[n + 2]);
      WholeInverse(s[..n]);
      GroupsLast(head + q, n / 3, 0);
      assert (head + q)[..4 * (n / 3)] == head && (head + q)[4 * (n / 3)..4 * (n / 3) + 4] == q;
      TripleInverse(s[n], s[n + 1], s[n + 2]);
      assert s == s[..n] + [s[n], s[n + 1], s[n + 2]];
    }
  }

  lemma EncodeInverse(s: seq<byte>)
    ensures DecodeGroups(Encode(s)) == s
  {
    hide Joined, GroupBytes, CountEquals, DecodeGroups, EncodeWhole, EncodeLast;
    var m := |s| / 3 * 3;
    var head := EncodeWhole(s[..m]);
    WholeInverse(s[..m]);
    assert s == s[..m] + s[m..];
    if |s| == m {
      assert head + [] == head;
    } else {
      var q := EncodeLast(s[m..]);
      GroupsLast(head + q, m / 3, 0);
      assert (head + q)[..4 * (m / 3)] == head && (head + q)[4 * (m / 3)..4 * (m / 3) + 4] == q;
      LastInverse(s[m..]);
    }
  }

  /** How many equals signs end the encoding. */
  function Filler(n: nat): (e: nat)
    ensures e <= 2
  {
    (3 - n % 3) % 3
  }

  predicate Plain(d: seq<byte>) {
    forall k :: 0 <= k < |d| ==> d[k] != EQUALS && DigitValue(d[k]) >= 0 && !IsBlank(d[k]) && d[k] < 128
  }

  lemma {:induction false} WholePlain(s: seq<byte>)
    requires |s| % 3 == 0
    ensures Plain(EncodeWhole(s))
    decreases |s|
  {
    if |s| > 0 {
      var n := |s| - 3;
      WholePlain(s[..n]);
      TriplePlain(s[n], s[n + 1], s[n + 2]);
    }
  }

  lemma TriplePlain(a: byte, b: byte, c: byte)
    ensures Plain(EncodeTriple(a, b, c))
  {
    DigitInverse(a / 4);
    DigitInverse(a % 4 * 16 + b / 16);
    DigitInverse(b % 16 * 4 + c / 64);
    DigitInverse(c % 64);
  }

  /** The four characters of a triple are the base-64 digits of its number, most significant first. */
  lemma TripleIs(a: byte, b: byte, c: byte)
    ensures var q, n := EncodeTriple(a, b, c), a * 0x1_0000 + b * 0x100 + c;
      n == ((DigitValue(q[0]) * 64 + DigitValue(q[1])) * 64 + DigitValue(q[2])) * 64 + DigitValue(q[3])
  {
    hide Digit, DigitValue;
    DigitInverse(a / 4);
    DigitInverse(a % 4 * 16 + b / 16);
    DigitInverse(b % 16 * 4 + c / 64);
    DigitInverse(c % 64);
  }

  /** "Man", "Ma" and "M". */
  lemma Examples()
    ensures Encode([77, 97, 110]) == [0x54, 0x57, 0x46, 0x75]
    ensures Encode([77, 97]) == [0x54, 0x57, 0x45, 0x3D] && Encode([77]) == [0x54, 0x51, 0x3D, 0x3D] && Encode([]) == []
  {
    hide Digit;
    assert EncodeWhole([]) == [];
    assert [77, 97, 110][..0] == [];
    SomeDigits();
  }

  lemma SomeDigits()
    ensures Digit(19) == 0x54 && Digit(22) == 0x57 && Digit(5) == 0x46 && Digit(46) == 0x75 && Digit(4) == 0x45 && Digit(16) == 0x51
  {
  }

  lemma EncodeShape(s: seq<byte>)
    ensures var d, e := Encode(s), Filler(|s|);
      |d| == 4 * ((|s| + 2) / 3) && e <= |d| && Plain(d[..|d| - e]) && forall k :: |d| - e <= k < |d| ==> d[k] == EQUALS
    ensures OutputBound(|Encode(s)|, Filler(|s|)) == |s|
  {
    hide EncodeWhole, OutputBound, Filler, EncodeLast, Plain;
    var n := |s|;
    var d, e, m := Encode(s), Filler(n), n / 3 * 3;
    var head := EncodeWhole(s[..m]);
    Lengths(n);
    WholePlain(s[..m]);
    FormulaIs(|d|, e);
    if n > m {
      var q := EncodeLast(s[m..]);
      LastShape(s[m..]);
      PlainAppend(head, q[..4 - e]);
      assert d[..|d| - e] == head + q[..4 - e];
      assert forall k :: |d| - e <= k < |d| ==> d[k] == q[k - |head|];
    } else {
      assert d == head;
      assert d[..|d| - e] == d;
    }
  }

  /** Triples, and what is left over. */
  lemma Lengths(n: nat)
    ensures var q, r := n / 3, n % 3;
      && n == 3 * q + r && n / 3 * 3 == 3 * q
      && (if r == 0 then Filler(n) == 0 && (n + 2) / 3 == q else Filler(n) == 3 - r && (n + 2) / 3 == q + 1)
  {
  }

  lemma LastShape(t: seq<byte>)
    requires 1 <= |t| <= 2
    ensures var q, e := EncodeLast(t), 3 - |t|; Plain(q[..4 - e]) && forall k :: 4 - e <= k < 4 ==> q[k] == EQUALS
  {
    hide DigitValue, Digit;
    var b: byte := if |t| == 2 then t[1] else 0;
    PlainDigit(t[0] / 4);
    PlainDigit(t[0] % 4 * 16 + b / 16);
    PlainDigit(b % 16 * 4);
  }

  lemma PlainDigit(v: nat)
    requires v < 64
    ensures var c := Digit(v); c != EQUALS && DigitValue(c) >= 0 && !IsBlank(c) && c < 128
  {
  }

  lemma PlainAppend(a: seq<byte>, b: seq<byte>)
    requires Plain(a) && Plain(b)
    ensures Plain(a + b)
  {
  }

  /** An encoding is accepted as it stands. */
  lemma {:induction false} PlainAccepted(d: seq<byte>, e: nat, i: nat)
    requires e <= 2 && e <= |d| && i <= |d| && Plain(d[..|d| - e]) && forall k :: |d| - e <= k < |d| ==> d[k] == EQUALS
    ensures FirstPass(d, i, i, if i <= |d| - e then 0 else i - (|d| - e)) == Some((|d|, e))
    decreases |d| - i
  {
    hide DigitValue;
    if i < |d| {
      PlainAccepted(d, e, i + 1);
      if i < |d| - e {
        assert d[i] == d[..|d| - e][i];
      }
      assert SkipSpaces(d, i) == i;
    }
  }

  lemma {:induction false} CleanPlain(d: seq<byte>)
    requires forall k :: 0 <= k < |d| ==> !IsBlank(d[k])
    ensures Clean(d) == d
  {
    if |d| > 0 {
      CleanPlain(d[..|d| - 1]);
    }
  }

  /** An encoded string is accepted, announces the length of the data, and decodes to the data. */
  lemma RoundTrip(s: seq<byte>)
    ensures FirstPass(Encode(s), 0, 0, 0) == Some((|Encode(s)|, Filler(|s|))) && Clean(Encode(s)) == Encode(s)
    ensures OutputBound(|Encode(s)|, Filler(|s|)) == |s| && DecodeGroups(Encode(s)) == s
  {
    hide Encode, Filler, OutputBound, DecodeGroups, FirstPass;
    var d, e := Encode(s), Filler(|s|);
    EncodeShape(s);
    EncodeInverse(s);
    PlainAccepted(d, e, 0);
    forall k | 0 <= k < |d| ensures !IsBlank(d[k]) {
      if k < |d| - e {
        assert d[k] == d[..|d| - e][k];
      }
    }
    CleanPlain(d);
  }
}

/** The two functions, with their branch-free character tables. */
module Base64 {
  import opened Words
  import opened Products
  import opened ConstantTime
  import opened Base64Spec

  // ---------- characters ----------

  /** `(unsigned) x >> 8` */
  function HighPart(x: int): (h: nat) {
    Pow2Values();
    WrapTo(x, 32) / 256
  }

  lemma HighPartIs(x: int)
    requires -256 < x < 256
    ensures HighPart(x) == if x < 0 then 0xFF_FFFF else 0
  {
    Pow2Values();
    var w := 0x1_0000_0000;
    if x < 0 {
      DivModUnique(x, w, -1, w + x);
      DivModUnique(w + x, 256, 0xFF_FFFF, 256 + x);
    } else {
      DivModUnique(x, w, 0, x);
    }
  }

  /** `mbedtls_ct_uchar_mask_of_range` */
  function MaskOfRange(low: byte, high: byte, c: byte): (m: nat)
    ensures m < 256
  {
    Not(Or(HighPart((c as int) - low), HighPart((high as int) - c), 32), 32) % 256
  }

  lemma {:induction false} OrSame(a: nat, n: nat)
    requires a < Pow2(n)
    ensures Or(a, a, n) == a
  {
    if n > 0 {
      OrSame(a / 2, n - 1);
    }
  }

  lemma MaskOfRangeIs(low: byte, high: byte, c: byte)
    ensures MaskOfRange(low, high, c) == if low <= c <= high then 255 else 0
  {
    hide Or, Pow2, HighPart;
    Pow2Values();
    HighPartIs((c as int) - low);
    HighPartIs((high as int) - c);
    OrZero(0, 0, 32);
    OrZero(0xFF_FFFF, 0xFF_FFFF, 32);
    OrSame(0xFF_FFFF, 32);
  }

  /** `acc |= mask_of_range(low, high, c) & x` */
  function Pick(acc: nat, low: byte, high: byte, c: byte, x: int): (r: nat)
    ensures r < 256
  {
    Pow2Values();
    Or(acc, And(MaskOfRange(low, high, c), WrapTo(x, 8), 8), 8)
  }

  lemma PickIs(acc: nat, low: byte, high: byte, c: byte, x: int)
    requires acc < 256 && (low <= c <= high ==> acc == 0 && 0 <= x < 256)
    ensures Pick(acc, low, high, c, x) == if low <= c <= high then x else acc
  {
    hide Or, And, Pow2, MaskOfRange;
    Pow2Values();
    MaskOfRangeIs(low, high, c);
    var y := WrapTo(x, 8);
    AndOnes(y, 8);
    OrZero(acc, y, 8);
    OrZero(acc, 0, 8);
    if low <= c <= high {
      DivModUnique(x, 256, 0, x);
    }
  }

  /** `mbedtls_ct_base64_enc_char` */
  method EncChar(value: nat) returns (digit: byte)
    requires value < 64
    ensures digit == Digit(value)
  {
    hide Pick;
    PickIs(0, 0, 25, value, 0x41 + value);
    digit := Pick(0, 0, 25, value, 0x41 + value);
    PickIs(digit, 26, 51, value, 0x61 + value - 26);
    digit := Pick(digit, 26, 51, value, 0x61 + value - 26);
    PickIs(digit, 52, 61, value, 0x30 + value - 52);
    digit := Pick(digit, 52, 61, value, 0x30 + value - 52);
    PickIs(digit, 62, 62, value, 0x2B);
    digit := Pick(digit, 62, 62, value, 0x2B);
    PickIs(digit, 63, 63, value, 0x2F);
    digit := Pick(digit, 63, 63, value, 0x2F);
  }

  /** `mbedtls_ct_base64_dec_value` */
  method DecValue(c: byte) returns (v: int)
    ensures v == DigitValue(c)
  {
    hide Pick;
    var d: int := c;
    PickIs(0, 0x41, 0x5A, c, d - 0x41 + 1);
    var val: nat := Pick(0, 0x41, 0x5A, c, d - 0x41 + 1);
    PickIs(val, 0x61, 0x7A, c, d - 0x61 + 26 + 1);
    val := Pick(val, 0x61, 0x7A, c, d - 0x61 + 26 + 1);
    PickIs(val, 0x30, 0x39, c, d - 0x30 + 52 + 1);
    val := Pick(val, 0x30, 0x39, c, d - 0x30 + 52 + 1);
    PickIs(val, 0x2B, 0x2B, c, d - 0x2B + 62 + 1);
    val := Pick(val, 0x2B, 0x2B, c, d - 0x2B + 62 + 1);
    PickIs(val, 0x2F, 0x2F, c, d - 0x2F + 63 + 1);
    val := Pick(val, 0x2F, 0x2F, c, d - 0x2F + 63 + 1);
    v := (val as int) - 1;
  }

  datatype Base64Status = Ok | BufferTooSmall | InvalidCharacter

  // ---------- encoding ----------

  /** `mbedtls_base64_encode` */
  method EncodeTo(dst: array<byte>, dlen: nat, src: seq<byte>) returns (st: Base64Status, olen: nat)
    requires dlen <= dst.Length && |src| < BASE
    modifies dst
    ensures st.Ok? <==> src == [] || (|Encode(src)| + 1 <= dlen && |Encode(src)| + 1 < BASE)
    ensures st.Ok? || st.BufferTooSmall?
    ensures st.BufferTooSmall? ==> olen == if |Encode(src)| + 1 < BASE then |Encode(src)| + 1 else BASE - 1
    ensures st.Ok? ==> olen == |Encode(src)| <= dlen && dst[..olen] == Encode(src) && (src != [] ==> dst[olen] == 0)
    ensures !st.Ok? ==> unchanged(dst)
  {
    hide EncodeWhole, EncodeTriple, EncodeLast, Digit;
    if |src| == 0 {
      assert Encode(src) == [] by {
        EncodeNone();
      }
      return Ok, 0;
    }
    var n := |src| / 3 + if |src| % 3 != 0 then 1 else 0;
    EncodeLength(src, n);
    if n > (BASE - 2) / 4 {
      return BufferTooSmall, BASE - 1;
    }
    n := n * 4;
    if dlen < n + 1 {
      return BufferTooSmall, n + 1;
    }
    n := |src| / 3 * 3;
    var p := 0;
    var i := 0;
    assert src[..0] == [];
    EncodeNone();
    while i < n
      invariant 0 <= i <= n && i % 3 == 0 && p == i / 3 * 4 && dst[..p] == EncodeWhole(src[..i])
    {
      WholeNext(src, i);
      p := PutTriple(dst, p, src[i], src[i + 1], src[i + 2]);
      i := i + 3;
    }
    ghost var head := dst[..p];
    if i < |src| {
      p := PutLast(dst, p, src[i..]);
    }
    assert dst[..p] == Encode(src);
    olen := p;
    ghost var done := dst[..p];
    dst[p] := 0;
    assert dst[..p] == done;
    st := Ok;
  }

  lemma EncodeNone()
    ensures Encode([]) == [] && EncodeWhole([]) == []
  {
  }

  lemma EncodeLength(src: seq<byte>, n: nat)
    requires n == |src| / 3 + if |src| % 3 != 0 then 1 else 0
    ensures |Encode(src)| == 4 * n && |Encode(src)| == |src| / 3 * 4 + if |src| % 3 != 0 then 4 else 0
  {
  }

  lemma WholeNext(src: seq<byte>, i: nat)
    requires i % 3 == 0 && i + 3 <= |src|
    ensures EncodeWhole(src[..i + 3]) == EncodeWhole(src[..i]) + EncodeTriple(src[i], src[i + 1], src[i + 2])
  {
    hide EncodeTriple;
    assert src[..i + 3][..i] == src[..i];
  }

  method PutTriple(dst: array<byte>, p: nat, a: byte, b: byte, c: byte) returns (q: nat)
    requires p + 4 <= dst.Length
    modifies dst
    ensures q == p + 4 && dst[..q] == old(dst[..p]) + EncodeTriple(a, b, c)
  {
    hide Digit;
    SixBits(a, b, c);
    var d0 := EncChar(a / 4);
    var d1 := EncChar(a % 4 * 16 + b / 16);
    var d2 := EncChar(b % 16 * 4 + c / 64);
    var d3 := EncChar(c % 64);
    dst[p], dst[p + 1], dst[p + 2], dst[p + 3] := d0, d1, d2, d3;
    q := p + 4;
  }

  method PutLast(dst: array<byte>, p: nat, t: seq<byte>) returns (q: nat)
    requires p + 4 <= dst.Length && 1 <= |t| <= 2
    modifies dst
    ensures q == p + 4 && dst[..q] == old(dst[..p]) + EncodeLast(t)
  {
    hide Digit;
    var a: byte := t[0];
    var b: byte := if |t| == 2 then t[1] else 0;
    SixBits(a, b, 0);
    var d0 := EncChar(a / 4);
    var d1 := EncChar(a % 4 * 16 + b / 16);
    var d2 := EQUALS;
    if |t| == 2 {
      d2 := EncChar(b % 16 * 4);
    }
    dst[p], dst[p + 1], dst[p + 2], dst[p + 3] := d0, d1, d2, EQUALS;
    q := p + 4;
  }

  // ---------- decoding ----------

  /** The first pass. */
  method Check(src: seq<byte>) returns (st: Base64Status, n: nat, equals: nat)
    ensures st.Ok? || st.InvalidCharacter?
    ensures match FirstPass(src, 0, 0, 0)
      case Some((m, e)) => st.Ok? && n == m && equals == e
      case Nothing => st.InvalidCharacter?
    ensures st.Ok? <==> (exists e: nat :: WellFormed(Clean(src), e)) && forall k :: 0 <= k < |src| ==> PlacedWell(src, k)
  {
    hide DigitValue, WellFormed, Clean;
    AcceptedIff(src);
    n, equals := 0, 0;
    var i := 0;
    while i < |src|
      invariant 0 <= i <= |src| && FirstPass(src, 0, 0, 0) == FirstPass(src, i, n, equals)
    {
      var spaces := false;
      ghost var j := SkipSpaces(src, i);
      ghost var i0 := i;
      while i < |src| && src[i] == 0x20
        invariant i0 <= i <= |src| && SkipSpaces(src, i) == j && spaces == (i > i0)
      {
        i := i + 1;
        spaces := true;
      }
      if i == |src| {
        break;
      }
      if |src| - i >= 2 && src[i] == 0x0D && src[i + 1] == 0x0A {
        i := i + 1;
        continue;
      }
      if src[i] == 0x0A {
        i := i + 1;
        continue;
      }
      if spaces {
        return InvalidCharacter, n, equals;
      }
      if src[i] > 127 {
        return InvalidCharacter, n, equals;
      }
      if src[i] == 0x3D {
        equals := equals + 1;
        if equals > 2 {
          return InvalidCharacter, n, equals;
        }
      } else {
        if equals != 0 {
          return InvalidCharacter, n, equals;
        }
        var v := DecValue(src[i]);
        if v < 0 {
          return InvalidCharacter, n, equals;
        }
      }
      n := n + 1;
      i := i + 1;
    }
    st := Ok;
  }

  lemma {:induction false} CountAppend(a: seq<byte>, b: seq<byte>)
    ensures CountEquals(a + b) == CountEquals(a) + CountEquals(b)
    decreases |b|
  {
    if |b| == 0 {
      assert a + b == a;
    } else {
      CountAppend(a, b[..|b| - 1]);
      assert (a + b)[..|a + b| - 1] == a + b[..|b| - 1];
    }
  }

  /** Equals signs come only in the last group. */
  lemma NoneBefore(d: seq<byte>, e: nat, done: seq<byte>, group: seq<byte>)
    requires WellFormed(d, e) && |group| == 4 && |done + group| <= |d| && d[..|done + group|] == done + group
    ensures CountEquals(done + group) == CountEquals(group)
  {
    forall k | 0 <= k < |done| ensures done[k] != EQUALS {
      assert done[k] == d[..|done + group|][k] == d[k];
    }
    CountNone(done);
    CountAppend(done, group);
  }

  /** Decoding more groups only adds bytes. */
  lemma {:induction false} GroupsGrow(d: seq<byte>, m: nat)
    requires m % 4 == 0 && m <= |d|
    ensures |DecodeGroups(d[..m])| <= |DecodeGroups(d)|
    decreases |d|
  {
    hide DecodeGroups, GroupBytes, Joined, CountEquals;
    if |d| < m + 4 {
      SameGroups(d, m);
    } else {
      var g, r := |d| / 4 - 1, |d| % 4;
      assert m <= 4 * g;
      GroupsLast(d, g, r);
      GroupsGrow(d[..4 * g], m);
      assert d[..4 * g][..m] == d[..m];
    }
  }

  lemma SameGroups(d: seq<byte>, m: nat)
    requires m % 4 == 0 && m <= |d| < m + 4
    ensures DecodeGroups(d[..m]) == DecodeGroups(d)
  {
    hide DecodeGroups;
    if m == 0 {
      GroupsNone(d);
      GroupsNone(d[..m]);
    } else {
      GroupsLast(d, m / 4 - 1, |d| - m);
      GroupsLast(d[..m], m / 4 - 1, 0);
      assert d[..m][..m - 4] == d[..m - 4] && d[..m][m - 4..m] == d[m - 4..m];
    }
  }

  /** What one more character does to the low bits of the accumulator. */
  lemma ShiftIn(x: nat, v: nat, w: nat)
    requires x < 0x1_0000_0000 && v < 64 && (w == 1 || w == 0x40 || w == 0x1000 || w == 0x4_0000)
    ensures 64 * x % 0x1_0000_0000 + v < 0x1_0000_0000
    ensures (64 * x % 0x1_0000_0000 + v) % (64 * w) == 64 * (x % w) + v
  {
    ShiftWord(x, v);
    ShiftWithin(x, v, w, if w == 1 then 0x400_0000 else if w == 0x40 then 0x10_0000 else if w == 0x1000 then 0x4000 else 0x100);
  }

  /** The shift keeps the low 26 bits. */
  lemma ShiftWord(x: nat, v: nat)
    requires x < 0x1_0000_0000 && v < 64
    ensures 64 * x % 0x1_0000_0000 == 64 * (x % 0x400_0000) && 64 * (x % 0x400_0000) + v < 0x1_0000_0000
  {
    DivModUnique(64 * x, 0x1_0000_0000, x / 0x400_0000, 64 * (x % 0x400_0000));
  }

  lemma ShiftWithin(x: nat, v: nat, w: nat, c: nat)
    requires v < 64 && 0 < w && w * c == 0x400_0000
    ensures (64 * (x % 0x400_0000) + v) % (64 * w) == 64 * (x % w) + v
  {
    var q, r := x / 0x400_0000, x % 0x400_0000;
    var a, b := r / w, r % w;
    DivModBounds(r, w);
    MulAssoc(64, w, a);
    DivModUnique(64 * r + v, 64 * w, a, 64 * b + v);
    MulAssoc(w, c, q);
    MulDist(w, c * q, a);
    DivModUnique(x, w, c * q + a, b);
  }

  lemma Low24(x: nat)
    ensures x / 0x1_0000 % 256 == x % 0x100_0000 / 0x1_0000 % 256
    ensures x / 0x100 % 256 == x % 0x100_0000 / 0x100 % 256
    ensures x % 256 == x % 0x100_0000 % 256
  {
    var q, r := x / 0x100_0000, x % 0x100_0000;
    DivModUnique(x, 0x1_0000, 256 * q + r / 0x1_0000, r % 0x1_0000);
    DivModUnique(x, 0x100, 0x1_0000 * q + r / 0x100, r % 0x100);
    SameResidue(r / 0x1_0000, q);
    SameResidue(r / 0x100, 256 * q);
    SameResidue(r, 0x1_0000 * q);
  }

  lemma SameResidue(r: nat, q: nat)
    ensures (256 * q + r) % 256 == r % 256
  {
  }

  function Weight(n: nat): nat {
    if n == 0 then 1 else if n == 1 then 0x40 else if n == 2 then 0x1000 else if n == 3 then 0x4_0000 else 0x100_0000
  }

  /** The bytes of a complete group. */
  method PutGroup(dst: array<byte>, p: nat, x: nat, equals: nat) returns (q: nat)
    requires p + |GroupBytes(x % 0x100_0000, equals)| <= dst.Length
    modifies dst
    ensures q == p + |GroupBytes(x % 0x100_0000, equals)| && dst[..q] == old(dst[..p]) + GroupBytes(x % 0x100_0000, equals)
    ensures dst[q..] == old(dst[q..])
  {
    Low24(x);
    q := p;
    dst[q] := x / 0x1_0000 % 256;
    q := q + 1;
    if equals <= 1 {
      dst[q] := x / 0x100 % 256;
      q := q + 1;
    }
    if equals <= 0 {
      dst[q] := x % 256;
      q := q + 1;
    }
  }

  lemma Start(src: seq<byte>)
    ensures Clean(src[..0]) == [] + [] && Joined([]) == 0 && CountEquals([] + []) == 0 && DecodeGroups([]) == []
  {
  }

  lemma CountNext(d: seq<byte>, c: byte)
    ensures CountEquals(d + [c]) == CountEquals(d) + if c == EQUALS then 1 else 0
  {
    assert (d + [c])[..|d|] == d;
  }

  /** A significant character that is no equals sign is a digit. */
  lemma DigitOfClean(d: seq<byte>, e: nat, k: nat, c: byte)
    requires WellFormed(d, e) && k < |d| && d[k] == c && c != EQUALS
    ensures 0 <= Six(c) == DigitValue(c)
  {
  }

  /** A complete group adds its bytes, and they fit. */
  lemma GroupDone(d: seq<byte>, done: seq<byte>, group: seq<byte>)
    requires |group| == 4 && |done| % 4 == 0 && |done + group| <= |d| && d[..|done + group|] == done + group
    ensures DecodeGroups(done + group) == DecodeGroups(done) + GroupBytes(Joined(group), CountEquals(group))
    ensures |DecodeGroups(done + group)| <= |DecodeGroups(d)|
  {
    hide DecodeGroups, GroupBytes, Joined, CountEquals;
    GroupsLast(done + group, |done| / 4, 0);
    assert (done + group)[..|done|] == done && (done + group)[|done|..|done| + 4] == group;
    GroupsGrow(d, |done + group|);
  }

  /** `x = x << 6`, and the value of a digit into the free bits. */
  method Accumulate(c: byte, x: nat, ghost d: seq<byte>, ghost e: nat, ghost done: seq<byte>, ghost tail: seq<byte>) returns (x': nat)
    requires WellFormed(d, e) && |done + tail| < |d| && d[..|done + tail| + 1] == done + (tail + [c]) && |tail| < 4
    requires x < 0x1_0000_0000 && x % Weight(|tail|) == Joined(tail)
    ensures x' < 0x1_0000_0000 && x' % (64 * Weight(|tail|)) == Joined(tail + [c])
  {
    hide Joined, WellFormed, DigitValue, Six;
    var v: int := 0;
    assert d[|done + tail|] == d[..|done + tail| + 1][|done + tail|] == c;
    if c == 0x3D {
      SixOfDigit(0);
    } else {
      DigitOfClean(d, e, |done + tail|, c);
      v := DecValue(c);
    }
    ShiftIn(x, v, Weight(|tail|));
    JoinedNext(tail, c);
    x' := 64 * x % 0x1_0000_0000 + v;
  }

  /** The second pass. */
  method Translate(dst: array<byte>, src: seq<byte>, ghost e: nat) returns (p: nat)
    requires WellFormed(Clean(src), e) && |DecodeGroups(Clean(src))| <= dst.Length
    modifies dst
    ensures p == |DecodeGroups(Clean(src))| && dst[..p] == DecodeGroups(Clean(src)) && dst[p..] == old(dst[p..])
  {
    hide Clean, DecodeGroups, Joined, CountEquals, GroupBytes, WellFormed, DigitValue, Six;
    ghost var d := Clean(src);
    ghost var done: seq<byte> := [];
    ghost var tail: seq<byte> := [];
    ghost var groups := 0;
    ghost var before := dst[..];
    var x: nat, accumulated: nat, equals: nat := 0, 0, 0;
    p := 0;
    Start(src);
    for i := 0 to |src|
      invariant accumulated == |tail| < 4 && Clean(src[..i]) == done + tail && |done| == 4 * groups
      invariant x < 0x1_0000_0000 && x % Weight(accumulated) == Joined(tail)
      invariant equals == CountEquals(done + tail)
      invariant p == |DecodeGroups(done)| <= dst.Length && dst[..p] == DecodeGroups(done) && dst[p..] == before[p..]
    {
      CleanNext(src, i);
      CleanPrefix(src, i + 1);
      if src[i] == 0x0D || src[i] == 0x0A || src[i] == 0x20 {
        assert done + tail + [] == done + tail;
        continue;
      }
      ghost var grown := tail + [src[i]];
      assert done + tail + [src[i]] == done + grown;
      x := Accumulate(src[i], x, d, e, done, tail);
      if src[i] == 0x3D {
        equals := equals + 1;
      }
      CountNext(done + tail, src[i]);
      accumulated := accumulated + 1;
      if accumulated == 4 {
        accumulated := 0;
        NoneBefore(d, e, done, grown);
        GroupDone(d, done, grown);
        ghost var q := p;
        ghost var mid := dst[..];
        p := PutGroup(dst, p, x, equals);
        assert mid[p..] == mid[q..][p - q..] && before[p..] == before[q..][p - q..];
        done := done + grown;
        groups := groups + 1;
        tail := [];
        JoinedNone();
        assert done + tail == done;
      } else {
        tail := grown;
      }
    }
    assert src[..|src|] == src;
    SameGroups(d, |done|);
    assert d[..|done|] == done;
  }

  /**
    `mbedtls_base64_decode`.  It refuses exactly what the first pass refuses; otherwise what it writes fits the
    length it announces, for every input.
   */
  method DecodeTo(dst: array<byte>, dlen: nat, src: seq<byte>) returns (st: Base64Status, olen: int)
    requires dlen <= dst.Length
    modifies dst
    ensures st.InvalidCharacter? <==> FirstPass(src, 0, 0, 0).Nothing?
    ensures !st.InvalidCharacter? ==> var (n, e) := FirstPass(src, 0, 0, 0).value;
      && n == |Clean(src)| && WellFormed(Clean(src), e) && 0 <= OutputBound(n, e)
      && st == (if n > 0 && dlen < OutputBound(n, e) then BufferTooSmall else Ok)
      && (st.BufferTooSmall? ==> olen == OutputBound(n, e))
    ensures st.Ok? ==> 0 <= olen == |DecodeGroups(Clean(src))| <= dlen && dst[..olen] == DecodeGroups(Clean(src))
    ensures st.Ok? ==> dst[olen..] == old(dst[olen..])
    ensures !st.Ok? ==> unchanged(dst)
  {
    hide FirstPass, WellFormed, Clean, DecodeGroups, OutputBound;
    olen := 0;
    var n, equals;
    st, n, equals := Check(src);
    if !st.Ok? {
      return;
    }
    NothingYet(src);
    FirstPassMeans(src, 0, 0, 0);
    NoOverrun(Clean(src), equals);
    if n == 0 {
      GroupsNone(Clean(src));
      return Ok, 0;
    }
    var m: int := 6 * (n / 8) + (6 * (n % 8) + 7) / 8;
    m := m - equals;
    assert m == OutputBound(n, equals) by {
      FormulaIsBound(n, equals);
    }
    if dlen < m {
      return BufferTooSmall, m;
    }
    olen := Translate(dst, src, equals);
  }

  lemma FormulaIsBound(n: nat, e: nat)
    ensures OutputBound(n, e) == 6 * (n / 8) + (6 * (n % 8) + 7) / 8 - e
  {
  }
}
