/**
 * Integer sums and the row-vector-times-matrix product reduced mod 2, which is
 * what `np.dot(v, m) % 2` computes on 0/1 entries: arithmetic over GF(2).
 */
module Gf2 {

  /** f(0) + f(1) + ... + f(n - 1) */
  function Sum(n: nat, f: nat -> int): int
  {
    if n == 0 then 0 else Sum(n - 1, f) + f(n - 1)
  }

  /** Entry (i, j) of a matrix given as a sequence of rows; 0 outside its shape. */
  function At(m: seq<seq<int>>, i: nat, j: nat): int
  {
    if i < |m| && j < |m[i]| then m[i][j] else 0
  }

  /** The products v[i] * m[i][j] that make up entry j of v . m */
  function DotTerms(v: seq<int>, m: seq<seq<int>>, j: nat): nat -> int
  {
    (i: nat) => if i < |v| then v[i] * At(m, i, j) else 0
  }

  /** Entry j of the integer product v . m */
  function Dot(v: seq<int>, m: seq<seq<int>>, j: nat): int
  {
    Sum(|v|, DotTerms(v, m, j))
  }

  /** `np.dot(v, m) % 2` for a matrix with `cols` columns: every entry is a bit. */
  function VecMatMod2(v: seq<int>, m: seq<seq<int>>, cols: nat): (p: seq<int>)
    ensures |p| == cols
    ensures forall j :: 0 <= j < cols ==> p[j] == Dot(v, m, j) % 2 && (p[j] == 0 || p[j] == 1)
  {
    seq(cols, (j: nat) => Dot(v, m, j) % 2)
  }

  /** The number of indices i < len at which both v[i] and m[i][j] are 1. */
  function Overlap(v: seq<int>, m: seq<seq<int>>, j: nat, len: nat): nat
    requires len <= |v|
  {
    if len == 0 then 0
    else Overlap(v, m, j, len - 1) + (if v[len - 1] == 1 && At(m, len - 1, j) == 1 then 1 else 0)
  }

  /** Column j of m holds only 0s and 1s in its first `len` rows. */
  ghost predicate IsBitColumn(m: seq<seq<int>>, j: nat, len: nat)
  {
    forall i :: 0 <= i < len ==> At(m, i, j) == 0 || At(m, i, j) == 1
  }

  /** Over bits, the dot product counts the places where both factors are 1. */
  lemma {:induction false} DotCountsOverlap(v: seq<int>, m: seq<seq<int>>, j: nat, len: nat)
    requires len <= |v| && IsBitVector(v) && IsBitColumn(m, j, |v|)
    ensures Sum(len, DotTerms(v, m, j)) == Overlap(v, m, j, len)
  {
    if len > 0 {
      DotCountsOverlap(v, m, j, len - 1);
      var i := len - 1;
      assert v[i] == 0 || v[i] == 1;
      assert At(m, i, j) == 0 || At(m, i, j) == 1;
      assert DotTerms(v, m, j)(i) == v[i] * At(m, i, j);
    }
  }

  /**
   * Entry j of v . m mod 2, for a bit vector v and a 0/1 column j, is 1 exactly
   * when an odd number of positions have a 1 in both v and that column: the
   * parity of the bitwise AND of v and column j.
   */
  lemma VecMatMod2Parity(v: seq<int>, m: seq<seq<int>>, cols: nat, j: nat)
    requires IsBitVector(v) && IsBitColumn(m, j, |v|) && j < cols
    ensures VecMatMod2(v, m, cols)[j] == 1 <==> Overlap(v, m, j, |v|) % 2 == 1
  {
    DotCountsOverlap(v, m, j, |v|);
  }

  /** The rows of a two-dimensional array, as a sequence of sequences. */
  function Rows(m: array2<int>): (rows: seq<seq<int>>)
    reads m
    ensures |rows| == m.Length0
    ensures forall i :: 0 <= i < m.Length0 ==>
              |rows[i]| == m.Length1 && forall j :: 0 <= j < m.Length1 ==> rows[i][j] == m[i, j]
  {
    seq(m.Length0, i requires 0 <= i < m.Length0 reads m =>
      seq(m.Length1, j requires 0 <= j < m.Length1 reads m => m[i, j]))
  }

  /** Every entry is 0 or 1. */
  ghost predicate IsBitVector(v: seq<int>)
  {
    forall i :: 0 <= i < |v| ==> v[i] == 0 || v[i] == 1
  }

  /** Row i of a two-argument function, as a function of the column. */
  function RowOf(F: (nat, nat) -> int, i: nat): nat -> int
  {
    (j: nat) => F(i, j)
  }

  /** Column j of a two-argument function, as a function of the row. */
  function ColOf(F: (nat, nat) -> int, j: nat): nat -> int
  {
    (i: nat) => F(i, j)
  }

  /** i |-> F(i, 0) + ... + F(i, m - 1) */
  function RowSums(F: (nat, nat) -> int, m: nat): nat -> int
  {
    (i: nat) => Sum(m, RowOf(F, i))
  }

  /** j |-> F(0, j) + ... + F(n - 1, j) */
  function ColSums(F: (nat, nat) -> int, n: nat): nat -> int
  {
    (j: nat) => Sum(n, ColOf(F, j))
  }

  lemma {:induction false} SumExt(n: nat, f: nat -> int, g: nat -> int)
    requires forall i :: 0 <= i < n ==> f(i) == g(i)
    ensures Sum(n, f) == Sum(n, g)
  {
    if n > 0 {
      SumExt(n - 1, f, g);
    }
  }

  lemma {:induction false} SumZero(n: nat, f: nat -> int)
    requires forall i :: 0 <= i < n ==> f(i) == 0
    ensures Sum(n, f) == 0
  {
    if n > 0 {
      SumZero(n - 1, f);
    }
  }

  lemma {:induction false} SumAdd(n: nat, f: nat -> int, g: nat -> int, h: nat -> int)
    requires forall i :: 0 <= i < n ==> h(i) == f(i) + g(i)
    ensures Sum(n, h) == Sum(n, f) + Sum(n, g)
  {
    if n > 0 {
      SumAdd(n - 1, f, g, h);
    }
  }

  lemma {:induction false} SumScale(n: nat, f: nat -> int, c: int, g: nat -> int)
    requires forall i :: 0 <= i < n ==> g(i) == f(i) * c
    ensures Sum(n, g) == Sum(n, f) * c
  {
    if n > 0 {
      SumScale(n - 1, f, c, g);
      calc {
        Sum(n, g);
        Sum(n - 1, f) * c + f(n - 1) * c;
        (Sum(n - 1, f) + f(n - 1)) * c;
      }
    }
  }

  /** A sum whose terms vanish except at x is the term at x. */
  lemma {:induction false} SumOnePoint(n: nat, f: nat -> int, x: nat)
    requires x < n
    requires forall i :: 0 <= i < n && i != x ==> f(i) == 0
    ensures Sum(n, f) == f(x)
  {
    if n - 1 == x {
      SumZero(n - 1, f);
    } else {
      SumOnePoint(n - 1, f, x);
    }
  }

  /** A sum whose terms vanish except at two distinct places x and y. */
  lemma {:induction false} SumTwoPoints(n: nat, f: nat -> int, x: nat, y: nat)
    requires x < n && y < n && x != y
    requires forall i :: 0 <= i < n && i != x && i != y ==> f(i) == 0
    ensures Sum(n, f) == f(x) + f(y)
  {
    if n - 1 == x {
      SumOnePoint(n - 1, f, y);
    } else if n - 1 == y {
      SumOnePoint(n - 1, f, x);
    } else {
      SumTwoPoints(n - 1, f, x, y);
    }
  }

  /** Changing one term changes the sum by the difference at that term. */
  lemma {:induction false} SumUpdate(n: nat, f: nat -> int, g: nat -> int, x: nat)
    requires x < n
    requires forall i :: 0 <= i < n && i != x ==> f(i) == g(i)
    ensures Sum(n, g) == Sum(n, f) - f(x) + g(x)
  {
    if n - 1 == x {
      SumExt(n - 1, f, g);
    } else {
      SumUpdate(n - 1, f, g, x);
    }
  }

  /** Flipping bit i of a bit vector whose entry j of v . m is even makes that entry's parity m[i][j]. */
  lemma FlipDot(v: seq<int>, m: seq<seq<int>>, i: nat, j: nat)
    requires IsBitVector(v) && i < |v| && (At(m, i, j) == 0 || At(m, i, j) == 1)
    requires Dot(v, m, j) % 2 == 0
    ensures Dot(v[i := (v[i] + 1) % 2], m, j) % 2 == At(m, i, j)
  {
    var flipped := v[i := (v[i] + 1) % 2];
    var before, after, h := Dot(v, m, j), Dot(flipped, m, j), At(m, i, j);
    SumUpdate(|v|, DotTerms(v, m, j), DotTerms(flipped, m, j), i);
    assert DotTerms(v, m, j)(i) == v[i] * h;
    assert DotTerms(flipped, m, j)(i) == flipped[i] * h;
    if v[i] == 0 {
      assert after == before + h;
    } else {
      assert after == before - h;
    }
  }

  /** A sum of even terms is even. */
  lemma {:induction false} SumEven(n: nat, f: nat -> int)
    requires forall i :: 0 <= i < n ==> f(i) % 2 == 0
    ensures Sum(n, f) % 2 == 0
  {
    if n > 0 {
      SumEven(n - 1, f);
    }
  }

  /** Sums of termwise congruent terms are congruent mod 2. */
  lemma {:induction false} SumCongruent(n: nat, f: nat -> int, g: nat -> int)
    requires forall i :: 0 <= i < n ==> f(i) % 2 == g(i) % 2
    ensures Sum(n, f) % 2 == Sum(n, g) % 2
  {
    if n > 0 {
      SumCongruent(n - 1, f, g);
    }
  }

  /** The order of summation in a double sum does not matter. */
  lemma {:induction false} SumSwap(n: nat, m: nat, F: (nat, nat) -> int)
    ensures Sum(n, RowSums(F, m)) == Sum(m, ColSums(F, n))
  {
    if n == 0 {
      SumZero(m, ColSums(F, 0));
    } else {
      SumSwap(n - 1, m, F);
      SumAdd(m, ColSums(F, n - 1), RowOf(F, n - 1), ColSums(F, n));
    }
  }
}
