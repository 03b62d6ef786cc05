/** Machine-word bit operations, defined digit by digit on natural numbers. */
module Bits {
  type Positive = n: nat | n > 0 witness 1

  function Pow2(k: nat): Positive
  {
    if k == 0 then 1 else 2 * Pow2(k - 1)
  }

  predicate IsPowerOfTwo(n: nat) {
    exists k: nat | k <= n :: Pow2(k) == n
  }

  /** Bitwise conjunction of two `width`-bit words. */
  function And(width: nat, x: nat, y: nat): nat
    decreases width, x, y
  {
    if width == 0 then 0
    else (if x % 2 == 1 && y % 2 == 1 then 1 else 0) + 2 * And(width - 1, x / 2, y / 2)
  }

  /** Bitwise complement of a `width`-bit word. */
  function Not(width: nat, x: nat): nat
    decreases width, x
  {
    if width == 0 then 0 else (1 - x % 2) + 2 * Not(width - 1, x / 2)
  }

  lemma {:induction false} Pow2Grows(k: nat)
    ensures k < Pow2(k)
  {
    if k > 0 {
      Pow2Grows(k - 1);
    }
  }

  lemma {:induction false} Pow2Sum(j: nat, k: nat)
    ensures Pow2(j + k) == Pow2(j) * Pow2(k)
  {
    if j > 0 {
      Pow2Sum(j - 1, k);
    }
  }

  lemma {:induction false} Pow2Increases(j: nat, k: nat)
    requires j < k
    ensures 2 * Pow2(j) <= Pow2(k)
  {
    if j < k - 1 {
      Pow2Increases(j, k - 1);
    }
  }

  /** Looking for the exponent up to the number itself overlooks no power of two. */
  lemma {:induction false} PowerOfTwoExactly(n: nat)
    ensures IsPowerOfTwo(n) <==> exists k: nat :: Pow2(k) == n
  {
    if k: nat :| Pow2(k) == n {
      Pow2Grows(k);
    }
  }

  lemma {:induction false} AndStep(width: nat, x: nat, low: nat, high: nat)
    requires width > 0 && low < 2
    ensures And(width, x, low + 2 * high) == (if low == 1 then x % 2 else 0) + 2 * And(width - 1, x / 2, high)
  {
    assert (low + 2 * high) / 2 == high;
  }

  lemma {:induction false} AndWithOnes(width: nat, x: nat)
    requires x < Pow2(width)
    ensures And(width, x, Not(width, 0)) == x
  {
    if width > 0 {
      AndStep(width, x, 1, Not(width - 1, 0));
      AndWithOnes(width - 1, x / 2);
    }
  }

  lemma {:induction false} MulStep(d: nat, a: nat, b: nat)
    requires a < b
    ensures d * a + d <= d * b
  {
    var more := b - a - 1;
    assert d * b == d * (a + 1 + more) == d * a + d + d * more;
  }

  lemma {:induction false} RemainderUnique(x: nat, d: nat, q: nat, r: nat)
    requires d > 0 && r < d && x == d * q + r
    ensures x % d == r && x / d == q
  {
    var q', r' := x / d, x % d;
    assert x == d * q' + r';
    if q > q' {
      MulStep(d, q', q);
    } else if q < q' {
      MulStep(d, q, q');
    }
  }

  lemma {:induction false} Doubled(p: nat, q: nat, x: nat)
    requires p * q <= x / 2 < p * q + p
    ensures 2 * p * q == 2 * (p * q)
    ensures 2 * p * q <= x < 2 * p * q + 2 * p
  {
  }

  /** Masking with the complement of `2^k - 1` leaves the multiple of `2^k` at or below. */
  lemma {:induction false} MaskQuotient(width: nat, k: nat, x: nat) returns (q: nat)
    requires k <= width && x < Pow2(width)
    ensures And(width, x, Not(width, Pow2(k) - 1)) == Pow2(k) * q
    ensures Pow2(k) * q <= x < Pow2(k) * q + Pow2(k)
  {
    if k == 0 {
      AndWithOnes(width, x);
      q := x;
    } else {
      MaskShifted(width, k, x);
      q := MaskQuotient(width - 1, k - 1, x / 2);
      Doubled(Pow2(k - 1), q, x);
    }
  }

  /** So it rounds down to a multiple of `2^k`. */
  lemma {:induction false} MaskRoundsDown(width: nat, k: nat, x: nat)
    requires k <= width && x < Pow2(width)
    ensures And(width, x, Not(width, Pow2(k) - 1)) == x - x % Pow2(k)
  {
    var q := MaskQuotient(width, k, x);
    RemainderUnique(x, Pow2(k), q, x - Pow2(k) * q);
  }

  lemma {:induction false} MaskShifted(width: nat, k: nat, x: nat)
    requires 0 < k <= width
    ensures And(width, x, Not(width, Pow2(k) - 1)) == 2 * And(width - 1, x / 2, Not(width - 1, Pow2(k - 1) - 1))
  {
    NotOfOnes(width, k);
    AndStep(width, x, 0, Not(width - 1, Pow2(k - 1) - 1));
  }

  lemma {:induction false} NotOfOnes(width: nat, k: nat)
    requires 0 < k <= width
    ensures Not(width, Pow2(k) - 1) == 0 + 2 * Not(width - 1, Pow2(k - 1) - 1)
  {
    assert (Pow2(k) - 1) / 2 == Pow2(k - 1) - 1;
  }
}
