/**
 Bitwise operations on non-negative integers, with the arithmetic they amount to.  The C sources
 mask and shift unsigned words; here a word is a natural number below the stated bound.
 */
module Bits {

  function Pow2(k: nat): (p: nat)
    ensures p >= 1
  {
    if k == 0 then 1 else 2 * Pow2(k - 1)
  }

  /** The powers that occur as constants. */
  lemma Powers()
    ensures Pow2(1) == 2 && Pow2(2) == 4 && Pow2(3) == 8 && Pow2(4) == 16 && Pow2(5) == 32 && Pow2(6) == 64
    ensures Pow2(8) == 256 && Pow2(10) == 1024 && Pow2(12) == 4096 && Pow2(16) == 65536 && Pow2(18) == 262144
  {
    assert Pow2(14) == 16384;
  }

  /** `x & y` */
  function And(x: nat, y: nat): (r: nat)
    ensures r <= x && r <= y
  {
    if x == 0 || y == 0 then 0 else (if x % 2 == 1 && y % 2 == 1 then 1 else 0) + 2 * And(x / 2, y / 2)
  }

  /** `x | y` */
  function Or(x: nat, y: nat): nat {
    if x == 0 then y
    else if y == 0 then x
    else (if x % 2 == 1 || y % 2 == 1 then 1 else 0) + 2 * Or(x / 2, y / 2)
  }

  /** `x << k`, before any truncation to the width of a word */
  function Shl(x: nat, k: nat): nat
    decreases k
  {
    if k == 0 then x else 2 * Shl(x, k - 1)
  }

  /** `x >> k` */
  function Shr(x: nat, k: nat): nat
    decreases k
  {
    if k == 0 then x else Shr(x / 2, k - 1)
  }

  /** The `k` low bits of `x` */
  function Low(x: nat, k: nat): (r: nat)
    ensures r < Pow2(k)
    decreases k
  {
    if k == 0 then 0 else x % 2 + 2 * Low(x / 2, k - 1)
  }

  /** A mask of `k` ones keeps the `k` low bits. */
  lemma {:induction false} AndMask(x: nat, k: nat)
    ensures And(x, Pow2(k) - 1) == Low(x, k)
    decreases k
  {
    if k > 0 {
      AndMask(x / 2, k - 1);
      assert (Pow2(k) - 1) % 2 == 1 && (Pow2(k) - 1) / 2 == Pow2(k - 1) - 1;
      if x == 0 {
        AndMask(0, k - 1);
      }
    }
  }

  /** A mask shifted left by `k` looks only at the bits from `k` up. */
  lemma {:induction false} AndShifted(x: nat, mask: nat, k: nat)
    ensures And(x, Shl(mask, k)) == Shl(And(Shr(x, k), mask), k)
    decreases k
  {
    if k > 0 {
      AndShifted(x / 2, mask, k - 1);
      assert Shl(mask, k) == 2 * Shl(mask, k - 1);
    }
  }

  /** Two words with no common bit are joined by adding them. */
  lemma {:induction false} OrDisjoint(high: nat, low: nat, k: nat)
    requires low < Pow2(k)
    ensures Or(Shl(high, k), low) == Shl(high, k) + low
    decreases k
  {
    if k > 0 && low > 0 {
      OrDisjoint(high, low / 2, k - 1);
      assert Shl(high, k) == 2 * Shl(high, k - 1);
    }
  }

  /** The high and the low bits of a word add up to it. */
  lemma {:induction false} HighAndLow(x: nat, k: nat)
    ensures x == Shl(Shr(x, k), k) + Low(x, k)
    decreases k
  {
    if k > 0 {
      HighAndLow(x / 2, k - 1);
    }
  }

  lemma {:induction false} ShlIsMultiple(x: nat, k: nat)
    ensures Shl(x, k) == x * Pow2(k)
    decreases k
  {
    if k > 0 {
      ShlIsMultiple(x, k - 1);
    }
  }

  lemma NonzeroMultiple(a: int, d: int)
    requires d >= 1
    ensures a >= 1 ==> a * d >= d
    ensures a <= -1 ==> a * d <= -d
  {
    if a >= 1 {
      assert (a - 1) * d >= 0;
    } else if a <= -1 {
      assert (-1 - a) * d >= 0;
    }
  }

  lemma SubMultiples(a: int, b: int, d: int)
    ensures (a - b) * d == a * d - b * d
  {
  }

  lemma DivModUnique(x: nat, d: nat, q: nat, r: nat)
    requires d >= 1 && x == q * d + r && r < d
    ensures x / d == q && x % d == r
  {
    var q', r' := x / d, x % d;
    assert q' * d + r' == q * d + r;
    SubMultiples(q, q', d);
    NonzeroMultiple(q - q', d);
  }

  /** Shifting right divides by a power of two, and the bits shifted out are the remainder. */
  lemma ShiftIsDivision(x: nat, k: nat)
    ensures Shr(x, k) == x / Pow2(k) && Low(x, k) == x % Pow2(k)
  {
    HighAndLow(x, k);
    ShlIsMultiple(Shr(x, k), k);
    DivModUnique(x, Pow2(k), Shr(x, k), Low(x, k));
  }

  // The same operations for a distance `k` whose power of two is `p`, with their arithmetic.

  /** `x & (2^k - 1)` */
  function Mask(x: nat, k: nat, p: nat): (r: nat)
    requires p == Pow2(k)
    ensures r == x % p
  {
    hide *;
    AndMask(x, k);
    ShiftIsDivision(x, k);
    And(x, p - 1)
  }

  /** `x >> k` */
  function ShiftDown(x: nat, k: nat, p: nat): (r: nat)
    requires p == Pow2(k)
    ensures r == x / p
  {
    hide *;
    ShiftIsDivision(x, k);
    Shr(x, k)
  }

  /** `x << k` */
  function ShiftUp(x: nat, k: nat, p: nat): (r: nat)
    requires p == Pow2(k)
    ensures r == x * p
  {
    hide *;
    ShlIsMultiple(x, k);
    Shl(x, k)
  }

  /** `x | low`, where `x` is `q` shifted and the bits of `low` are free in it */
  function Join(x: nat, low: nat, k: nat, p: nat, ghost q: nat): (r: nat)
    requires p == Pow2(k) && low < p && x == q * p
    ensures r == x + low
  {
    hide *;
    ShlIsMultiple(q, k);
    OrDisjoint(q, low, k);
    Or(x, low)
  }
}
