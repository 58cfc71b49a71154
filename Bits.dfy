/**
 * Non-negative integers seen as bit strings: powers of two, Python's bitwise
 * `&` on non-negative operands, and the i-th binary digit.
 */
module Bits {

  /** 2 ** i */
  function Pow2(i: nat): (p: nat)
    ensures p >= 1
  {
    if i == 0 then 1 else 2 * Pow2(i - 1)
  }

  /** Python's `a & b` for non-negative a and b, one binary digit at a time. */
  function And(a: nat, b: nat): (c: nat)
    ensures c <= a && c <= b
    decreases a
  {
    if a == 0 || b == 0 then 0 else 2 * And(a / 2, b / 2) + (a % 2) * (b % 2)
  }

  /** Binary digit i of x (digit 0 is the least significant one). */
  function Bit(x: nat, i: nat): (b: nat)
    ensures b == 0 || b == 1
  {
    if i == 0 then x % 2 else Bit(x / 2, i - 1)
  }

  lemma {:induction false} Pow2Monotone(i: nat, j: nat)
    requires i <= j
    ensures Pow2(i) <= Pow2(j)
  {
    if i < j {
      Pow2Monotone(i, j - 1);
    }
  }

  lemma {:induction false} Pow2StrictlyMonotone(i: nat, j: nat)
    requires i < j
    ensures Pow2(i) < Pow2(j)
  {
    Pow2Monotone(i, j - 1);
  }

  /** Equal powers of two have equal exponents. */
  lemma Pow2Injective(i: nat, j: nat)
    requires Pow2(i) == Pow2(j)
    ensures i == j
  {
    if i < j {
      Pow2StrictlyMonotone(i, j);
    } else if j < i {
      Pow2StrictlyMonotone(j, i);
    }
  }

  /** There are more than r numbers below 2 ** r, so n - r = 2 ** r - 1 - r is never negative. */
  lemma {:induction false} Pow2ExceedsExponent(r: nat)
    ensures Pow2(r) > r
  {
    if r > 0 {
      Pow2ExceedsExponent(r - 1);
    }
  }

  lemma {:induction false} BitOfZero(i: nat)
    ensures Bit(0, i) == 0
  {
    if i > 0 {
      BitOfZero(i - 1);
    }
  }

  /** The only binary digit of 2 ** t that is set is digit t. */
  lemma {:induction false} BitOfPow2(t: nat, i: nat)
    ensures Bit(Pow2(t), i) == if i == t then 1 else 0
  {
    if t == 0 {
      if i > 0 {
        BitOfZero(i - 1);
      }
    } else if i > 0 {
      BitOfPow2(t - 1, i - 1);
    }
  }

  lemma {:induction false} AndCommutes(a: nat, b: nat)
    ensures And(a, b) == And(b, a)
    decreases a
  {
    if a != 0 && b != 0 {
      AndCommutes(a / 2, b / 2);
    }
  }

  /**
   * Masking with a power of two tests one binary digit:
   * `2 ** t & x != 0` holds exactly when digit t of x is 1.
   */
  lemma {:induction false} AndPow2(t: nat, x: nat)
    ensures And(Pow2(t), x) != 0 <==> Bit(x, t) == 1
  {
    if t == 0 {
      if x != 0 {
        assert And(1, x) == 2 * And(0, x / 2) + x % 2;
      }
    } else if x == 0 {
      BitOfZero(t);
    } else {
      assert Pow2(t) / 2 == Pow2(t - 1);
      assert And(Pow2(t), x) == 2 * And(Pow2(t - 1), x / 2);
      AndPow2(t - 1, x / 2);
    }
  }

  /** Numbers below 2 ** r are determined by their r low binary digits. */
  lemma {:induction false} BitsDetermine(x: nat, y: nat, r: nat)
    requires x < Pow2(r) && y < Pow2(r)
    requires forall i :: 0 <= i < r ==> Bit(x, i) == Bit(y, i)
    ensures x == y
  {
    if r == 0 {
    } else {
      assert Bit(x, 0) == Bit(y, 0);
      forall i | 0 <= i < r - 1
        ensures Bit(x / 2, i) == Bit(y / 2, i)
      {
        assert Bit(x, i + 1) == Bit(y, i + 1);
      }
      BitsDetermine(x / 2, y / 2, r - 1);
    }
  }

  /** A positive number below 2 ** r has a set digit among its r low digits. */
  lemma NonzeroHasBit(x: nat, r: nat)
    requires 0 < x < Pow2(r)
    ensures exists i :: 0 <= i < r && Bit(x, i) == 1
  {
    if forall i :: 0 <= i < r ==> Bit(x, i) == 0 {
      forall i | 0 <= i < r
        ensures Bit(x, i) == Bit(0, i)
      {
        BitOfZero(i);
      }
      BitsDetermine(x, 0, r);
    }
  }
}
