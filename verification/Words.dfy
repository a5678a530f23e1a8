/**
  Machine words.  A limb is an unsigned word; the library is built either with 32-bit or with 64-bit
  limbs, so BASE is a constant that is only known to be one of the two radices.  Every result about
  limbs in this project therefore holds for both builds.
 */
module Words {

  type Radix = b: nat | b == 0x1_0000_0000 || b == 0x1_0000_0000_0000_0000 witness 0x1_0000_0000

  /** One more than the largest limb, and one more than the largest half limb. */
  const BASE: Radix
  const HALF: nat := if BASE == 0x1_0000_0000 then 0x1_0000 else 0x1_0000_0000

  /** Bits in a limb (`biL`), bits in half a limb (`biH`) and bytes in a limb (`ciL`). */
  const BIL: nat := if BASE == 0x1_0000_0000 then 32 else 64
  const HBIL: nat := if BASE == 0x1_0000_0000 then 16 else 32
  const CIL: nat := if BASE == 0x1_0000_0000 then 4 else 8

  function Pow2(n: nat): (r: nat)
    ensures r >= 1
  {
    if n == 0 then 1 else 2 * Pow2(n - 1)
  }

  datatype Option<T> = Some(value: T) | Nothing

  type limb = x: nat | x < BASE witness 0
  type byte = x: nat | x < 256 witness 0

  /** Unsigned wrap-around: what a word keeps of an integer. */
  function Wrap(x: int): (r: limb)
    ensures r == x % BASE
  {
    x % BASE
  }

  lemma {:induction false} Pow2Add(m: nat, n: nat)
    ensures Pow2(m + n) == Pow2(m) * Pow2(n)
  {
    if m > 0 {
      Pow2Add(m - 1, n);
      assert Pow2(m + n) == 2 * Pow2(m + n - 1);
    }
  }

  lemma Pow2Zero()
    ensures Pow2(0) == 1 && Pow2(1) == 2
  {
  }

  lemma Pow2Next(n: nat)
    ensures Pow2(n + 1) == 2 * Pow2(n)
  {
  }

  lemma Pow2Split(n: nat, k: nat)
    requires k <= n
    ensures Pow2(n) == Pow2(k) * Pow2(n - k)
  {
    Pow2Add(k, n - k);
  }

  lemma {:induction false} Pow2Monotonic(m: nat, n: nat)
    requires m <= n
    ensures Pow2(m) <= Pow2(n)
  {
    if m < n {
      Pow2Monotonic(m, n - 1);
    }
  }

  lemma Pow2StrictlyMonotonic(m: nat, n: nat)
    requires m < n
    ensures 2 * Pow2(m) <= Pow2(n)
  {
    Pow2Monotonic(m + 1, n);
  }

  lemma Pow2Values()
    ensures Pow2(2) == 4 && Pow2(3) == 8 && Pow2(4) == 16 && Pow2(8) == 256 && Pow2(16) == 0x1_0000
    ensures Pow2(32) == 0x1_0000_0000 && Pow2(64) == 0x1_0000_0000_0000_0000
  {
    assert Pow2(1) == 2;
    assert Pow2(2) == 4;
    assert Pow2(3) == 8;
    assert Pow2(4) == 16;
    Pow2Add(4, 4);
    Pow2Add(8, 8);
    Pow2Add(16, 16);
    Pow2Add(32, 32);
  }

  /** The radix constants are the powers of two that the bit counts say. */
  lemma BaseIsPow2()
    ensures BASE == Pow2(BIL) && HALF == Pow2(HBIL) && BASE == HALF * HALF
  {
    Pow2Values();
  }
}
