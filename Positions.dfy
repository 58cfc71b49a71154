/**
 * The parameters of a Hamming code of order r and the split of the codeword
 * positions 0 .. n - 1 into parity positions P = {2 ** i - 1 : i < r} and data
 * positions D (all the others). Both sets are enumerated in ascending order,
 * which is what the row and column correspondence of the two matrices relies on.
 */
module Positions {
  import opened Bits

  /** Codeword length n = 2 ** r - 1 */
  function N(r: nat): (n: nat)
    ensures n >= r
  {
    Pow2ExceedsExponent(r);
    Pow2(r) - 1
  }

  /** Word length k = n - r */
  function K(r: nat): (k: nat)
    ensures k + r == N(r)
  {
    Pow2ExceedsExponent(r);
    N(r) - r
  }

  /** P in ascending order: element i is 2 ** i - 1. */
  function ParityPositions(r: nat): (ps: seq<nat>)
    ensures |ps| == r
  {
    seq(r, (i: nat) => Pow2(i) - 1)
  }

  /** The parity positions are strictly ascending, lie below n, and are exactly the numbers 2 ** i - 1 for i < r. */
  lemma ParityPositionsFacts(r: nat)
    ensures forall i, j :: 0 <= i < j < r ==> ParityPositions(r)[i] < ParityPositions(r)[j]
    ensures forall i :: 0 <= i < r ==> ParityPositions(r)[i] < N(r)
    ensures forall i :: 0 <= i < r ==> ParityPositions(r)[i] + 1 == Pow2(i)
  {
    var ps := ParityPositions(r);
    forall i, j | 0 <= i < j < r
      ensures ps[i] < ps[j]
    {
      Pow2StrictlyMonotone(i, j);
    }
    forall i | 0 <= i < r
      ensures ps[i] < N(r)
    {
      Pow2StrictlyMonotone(i, r);
    }
  }

  /** 2 ** u - 1 is a parity position of every code of order r > u. */
  lemma ParityPositionAt(r: nat, u: nat)
    requires u < r
    ensures Pow2(u) - 1 in ParityPositions(r)
  {
    assert ParityPositions(r)[u] == Pow2(u) - 1;
  }

  /** A parity position is 2 ** u - 1 for one u < r. */
  lemma ParityPositionIndex(r: nat, x: nat) returns (u: nat)
    requires x in ParityPositions(r)
    ensures u < r && x + 1 == Pow2(u) && ParityPositions(r)[u] == x
  {
    var ps := ParityPositions(r);
    u :| 0 <= u < r && ps[u] == x;
  }

  /** No parity position lies strictly between 2 ** i - 1 and 2 ** (i + 1) - 1. */
  lemma NoParityBetween(r: nat, i: nat, x: nat)
    requires Pow2(i) <= x < Pow2(i + 1) - 1
    ensures x !in ParityPositions(r)
  {
    if x in ParityPositions(r) {
      var u := ParityPositionIndex(r, x);
      if u <= i {
        Pow2Monotone(u, i);
      } else {
        Pow2Monotone(i + 1, u);
      }
    }
  }

  /** The data positions in [lo, n), ascending. */
  function DataFrom(r: nat, lo: nat): seq<nat>
    decreases N(r) - lo
  {
    if lo >= N(r) then []
    else if lo in ParityPositions(r) then DataFrom(r, lo + 1)
    else [lo] + DataFrom(r, lo + 1)
  }

  /** DataFrom(r, lo) lists, in strictly ascending order, exactly the non-parity positions in [lo, n). */
  lemma {:induction false} DataFromFacts(r: nat, lo: nat)
    ensures var ds := DataFrom(r, lo);
      && (forall i :: 0 <= i < |ds| ==> lo <= ds[i] < N(r) && ds[i] !in ParityPositions(r))
      && (forall i, j :: 0 <= i < j < |ds| ==> ds[i] < ds[j])
      && (forall x :: lo <= x < N(r) && x !in ParityPositions(r) ==> x in ds)
    decreases N(r) - lo
  {
    if lo < N(r) {
      DataFromFacts(r, lo + 1);
      if lo !in ParityPositions(r) {
        var ds := DataFrom(r, lo);
        assert ds == [lo] + DataFrom(r, lo + 1);
        assert ds[0] == lo;
      }
    }
  }

  /** D in ascending order: `set(range(n)) - P`, sorted. */
  function DataPositions(r: nat): (ds: seq<nat>)
    ensures forall i :: 0 <= i < |ds| ==> ds[i] < N(r) && ds[i] !in ParityPositions(r)
    ensures |ds| == K(r)
  {
    DataFromFacts(r, 0);
    DataPositionsCount(r);
    DataFrom(r, 0)
  }

  /** D is strictly ascending and holds every position below n that is not in P. */
  lemma DataPositionsFacts(r: nat)
    ensures var ds := DataPositions(r);
      && (forall i, j :: 0 <= i < j < |ds| ==> ds[i] < ds[j])
      && (forall x :: 0 <= x < N(r) && x !in ParityPositions(r) ==> x in ds)
  {
    DataFromFacts(r, 0);
  }

  /** Skipping a stretch [lo, hi) without parity positions adds hi - lo data positions. */
  lemma {:induction false} DataFromStretch(r: nat, lo: nat, hi: nat)
    requires lo <= hi <= N(r)
    requires forall x :: lo <= x < hi ==> x !in ParityPositions(r)
    ensures |DataFrom(r, lo)| == (hi - lo) + |DataFrom(r, hi)|
    decreases hi - lo
  {
    if lo < hi {
      assert lo !in ParityPositions(r);
      assert DataFrom(r, lo) == [lo] + DataFrom(r, lo + 1);
      DataFromStretch(r, lo + 1, hi);
    }
  }

  /** The data positions from a parity position on are those after it. */
  lemma DataFromParity(r: nat, i: nat)
    requires i < r
    ensures DataFrom(r, Pow2(i) - 1) == DataFrom(r, Pow2(i))
  {
    Pow2StrictlyMonotone(i, r);
    ParityPositionAt(r, i);
  }

  /** Between 2 ** i - 1 and 2 ** (i + 1) - 1 lie 2 ** i - 1 data positions. */
  lemma DataFromBetween(r: nat, i: nat)
    requires i < r
    ensures |DataFrom(r, Pow2(i))| == (Pow2(i) - 1) + |DataFrom(r, Pow2(i + 1) - 1)|
  {
    Pow2Monotone(i + 1, r);
    forall x | Pow2(i) <= x < Pow2(i + 1) - 1
      ensures x !in ParityPositions(r)
    {
      NoParityBetween(r, i, x);
    }
    DataFromStretch(r, Pow2(i), Pow2(i + 1) - 1);
  }

  /** From 2 ** i - 1 on there are 2 ** r - 2 ** i - (r - i) data positions. */
  lemma {:induction false} DataFromBlock(r: nat, i: nat)
    requires i <= r
    ensures |DataFrom(r, Pow2(i) - 1)| + (r - i) == Pow2(r) - Pow2(i)
    decreases r - i
  {
    if i < r {
      DataFromParity(r, i);
      DataFromBetween(r, i);
      DataFromBlock(r, i + 1);
    }
  }

  /** |D| = n - r = k */
  lemma DataPositionsCount(r: nat)
    ensures |DataFrom(r, 0)| == K(r)
  {
    DataFromBlock(r, 0);
  }

  /** Distinct data indices name distinct data positions. */
  lemma DataPositionsInjective(r: nat, a: nat, b: nat)
    requires a < K(r) && b < K(r) && DataPositions(r)[a] == DataPositions(r)[b]
    ensures a == b
  {
    DataPositionsFacts(r);
  }

  /** Every position below n is either a parity position or a data position, and not both. */
  lemma PositionsPartition(r: nat, x: nat)
    requires x < N(r)
    ensures x in ParityPositions(r) <==> x !in DataPositions(r)
  {
    DataPositionsFacts(r);
  }
}
