/**
 * HammingChecker: the n x r parity-check matrix H of the Hamming code of order r,
 * the syndrome lookup that locates a corrupted bit, and its correction.
 */
module Checker {
  import opened Bits
  import opened Gf2
  import opened Positions
  import opened Conversions

  /** Entry (j, c) of the row of data position j: 1 iff (j + 1) & 2 ** c != 0. */
  function DataRowEntry(j: nat, c: nat): (e: int)
    ensures e == Bit(j + 1, c)
  {
    AndCommutes(j + 1, Pow2(c));
    AndPow2(c, j + 1);
    if And(j + 1, Pow2(c)) != 0 then 1 else 0
  }

  /**
   * Entry (j, c) of H. A data row holds the binary digits of j + 1; the row of
   * the c-th parity position is the unit vector with its 1 in column c.
   */
  function CheckEntry(r: nat, j: nat, c: nat): (e: int)
    requires c < r
    ensures e == 0 || e == 1
    ensures j !in ParityPositions(r) ==> e == Bit(j + 1, c)
  {
    var ps := ParityPositions(r);
    if j in ps then (if ps[c] == j then 1 else 0) else DataRowEntry(j, c)
  }

  /** H as a sequence of n rows of r entries. */
  function CheckMatrix(r: nat): (h: seq<seq<int>>)
    ensures |h| == N(r)
    ensures forall j :: 0 <= j < N(r) ==> |h[j]| == r
  {
    seq(N(r), (j: nat) => seq(r, (c: nat) requires c < r => CheckEntry(r, j, c)))
  }

  /** Every entry (j, c) of H is binary digit c of j + 1, on data and parity rows alike. */
  lemma CheckEntryIsBit(r: nat, j: nat, c: nat)
    requires j < N(r) && c < r
    ensures CheckEntry(r, j, c) == Bit(j + 1, c)
  {
    var ps := ParityPositions(r);
    if j in ps {
      var u := ParityPositionIndex(r, j);
      BitOfPow2(u, c);
      ParityPositionsFacts(r);
      if ps[c] == j {
        Pow2Injective(c, u);
      }
    } else {
      AndCommutes(j + 1, Pow2(c));
      AndPow2(c, j + 1);
    }
  }

  /** Row j of H is the r-digit binary expansion of j + 1, least significant digit first. */
  lemma CheckRowIsBinary(r: nat, j: nat)
    requires j < N(r)
    ensures CheckMatrix(r)[j] == seq(r, (c: nat) => Bit(j + 1, c))
  {
    forall c | 0 <= c < r
      ensures CheckMatrix(r)[j][c] == Bit(j + 1, c)
    {
      CheckEntryIsBit(r, j, c);
    }
  }

  /** The rows of H are pairwise distinct. */
  lemma CheckRowsDistinct(r: nat, i: nat, j: nat)
    requires i < N(r) && j < N(r) && i != j
    ensures CheckMatrix(r)[i] != CheckMatrix(r)[j]
  {
    CheckRowIsBinary(r, i);
    CheckRowIsBinary(r, j);
    if CheckMatrix(r)[i] == CheckMatrix(r)[j] {
      var x, y := i + 1, j + 1;
      forall c | 0 <= c < r
        ensures Bit(x, c) == Bit(y, c)
      {
        assert CheckMatrix(r)[i][c] == CheckMatrix(r)[j][c];
      }
      BitsDetermine(x, y, r);
    }
  }

  /** No row of H is zero: each has a 1 in some column. */
  lemma CheckRowsNonzero(r: nat, j: nat)
    requires j < N(r)
    ensures exists c :: 0 <= c < r && CheckMatrix(r)[j][c] == 1
  {
    NonzeroHasBit(j + 1, r);
    var c :| 0 <= c < r && Bit(j + 1, c) == 1;
    CheckEntryIsBit(r, j, c);
    assert CheckMatrix(r)[j][c] == 1;
  }

  /**
   * `init_checkmatrix(r)`: an n x r zero matrix whose data rows are filled with
   * the binary digits of their 1-based position, then whose parity rows get
   * their unit vectors.
   */
  method InitCheckMatrix(r: nat) returns (m: array2<int>)
    ensures m.Length0 == N(r) && m.Length1 == r
    ensures forall j, c :: 0 <= j < N(r) && 0 <= c < r ==> m[j, c] == CheckEntry(r, j, c)
  {
    var n := Pow2(r) - 1;
    var ps := ParityPositions(r);
    var ds := DataPositions(r);
    ParityPositionsFacts(r);
    m := new int[n, r]((_, _) => 0);

    // data bit rows: the binary digits of d + 1
    var di := 0;
    while di < |ds|
      invariant 0 <= di <= |ds|
      invariant forall j, c :: 0 <= j < n && 0 <= c < r ==>
                  m[j, c] == if j in ds[..di] then DataRowEntry(j, c) else 0
    {
      var d := ds[di];
      var index := 0;
      while index < r
        invariant 0 <= index <= r
        invariant forall j, c :: 0 <= j < n && 0 <= c < r ==>
                    m[j, c] == if j in ds[..di] || (j == d && c < index) then DataRowEntry(j, c) else 0
      {
        if And(d + 1, Pow2(index)) != 0 {
          m[d, index] := 1;
        }
        index := index + 1;
      }
      assert ds[..di + 1] == ds[..di] + [d];
      di := di + 1;
    }
    assert ds[..di] == ds;

    // parity bit rows: the unit vectors
    var pi := 0;
    while pi < |ps|
      invariant 0 <= pi <= |ps|
      invariant forall j, c :: 0 <= j < n && 0 <= c < r ==>
                  m[j, c] == if j in ds then DataRowEntry(j, c) else if c < pi && ps[c] == j then 1 else 0
    {
      m[ps[pi], pi] := 1;
      pi := pi + 1;
    }
    forall j, c | 0 <= j < n && 0 <= c < r
      ensures m[j, c] == CheckEntry(r, j, c)
    {
      PositionsPartition(r, j);
    }
  }

  /** The first index at or after `from` whose row equals `row`, or -1. */
  function FirstMatch(m: seq<seq<int>>, row: seq<int>, from: nat): (j: int)
    ensures j == -1 || from <= j < |m|
    decreases |m| - from
  {
    if from >= |m| then -1
    else if m[from] == row then from
    else FirstMatch(m, row, from + 1)
  }

  /** FirstMatch finds the first matching index, and -1 exactly when no index from `from` on matches. */
  lemma {:induction false} FirstMatchIsFirst(m: seq<seq<int>>, row: seq<int>, from: nat)
    ensures var j := FirstMatch(m, row, from);
            && (j >= 0 ==> m[j] == row && forall i :: from <= i < j ==> m[i] != row)
            && (j == -1 ==> forall i :: from <= i < |m| ==> m[i] != row)
    decreases |m| - from
  {
    if from < |m| && m[from] != row {
      FirstMatchIsFirst(m, row, from + 1);
    }
  }

  /** `HammingChecker`: n, k and the parity-check matrix, fixed at construction. */
  class HammingChecker {
    ghost const order: nat
    const n: nat
    const k: nat
    const checkmatrix: seq<seq<int>>

    /** The fields describe the code of order `order`. */
    ghost predicate Valid()
    {
      n == N(order) && k == K(order) && checkmatrix == CheckMatrix(order)
    }

    /** `HammingChecker(r)` */
    constructor (r: nat)
      ensures Valid() && order == r
    {
      Pow2ExceedsExponent(r);
      order := r;
      n := Pow2(r) - 1;
      k := Pow2(r) - 1 - r;
      var m := InitCheckMatrix(r);
      checkmatrix := Rows(m);
      forall j | 0 <= j < N(r)
        ensures Rows(m)[j] == CheckMatrix(r)[j]
      {
      }
    }

    /** `get_matching_row(row)`: the first row index of H whose row equals `row`, or -1 if there is none. */
    function MatchingRow(row: seq<int>): (j: int)
      ensures -1 <= j < |checkmatrix|
    {
      FirstMatch(checkmatrix, row, 0)
    }

    /** MatchingRow finds the first row of H equal to `row`, and -1 exactly when no row is. */
    lemma MatchingRowIsFirst(row: seq<int>)
      ensures var j := MatchingRow(row);
              && (j >= 0 ==> checkmatrix[j] == row && forall i :: 0 <= i < j ==> checkmatrix[i] != row)
              && (j == -1 ==> forall i :: 0 <= i < |checkmatrix| ==> checkmatrix[i] != row)
    {
      FirstMatchIsFirst(checkmatrix, row, 0);
    }

    /** The syndrome codeword . H mod 2 of a bit vector. */
    function Syndrome(bits: seq<int>): (s: seq<int>)
      requires Valid()
      ensures |s| == order
    {
      VecMatMod2(bits, checkmatrix, n - k)
    }

    /**
     * `check(codeword)`: CodewordLength unless the codeword has n characters,
     * NotBinary unless they are all '0'/'1', otherwise the index of the first
     * row of H equal to the syndrome, or -1 when no row is.
     */
    function Check(codeword: string): (res: Result<int>)
      requires Valid()
      ensures |codeword| != n ==> res == Err(CodewordLength)
      ensures |codeword| == n && !IsBinary(codeword) ==> res == Err(NotBinary)
      ensures |codeword| == n && IsBinary(codeword) ==> res.Ok? && -1 <= res.value < n
    {
      if |codeword| != |checkmatrix| then Err(CodewordLength)
      else match StrToBits(codeword)
        case Err(e) => Err(e)
        case Ok(bits) => Ok(MatchingRow(Syndrome(bits)))
    }

    /**
     * A successful check reports the first row of H equal to the syndrome of
     * the codeword, or -1 when no row of H equals it.
     */
    lemma CheckFindsSyndromeRow(codeword: string)
      requires Valid() && Check(codeword).Ok?
      ensures var j, s := Check(codeword).value, Syndrome(StrToBits(codeword).value);
              && (j >= 0 ==> checkmatrix[j] == s)
              && (forall i :: 0 <= i < n && (j == -1 || i < j) ==> checkmatrix[i] != s)
    {
      MatchingRowIsFirst(Syndrome(StrToBits(codeword).value));
    }

    /**
     * What `correct(codeword)` returns: the failure of `check`, the codeword
     * itself when no bit is located, or the codeword with the located bit flipped.
     */
    function Corrected(codeword: string): (res: Result<string>)
      requires Valid()
      ensures Check(codeword).Err? ==> res == Err(Check(codeword).error)
      ensures Check(codeword) == Ok(-1) ==> res == Ok(codeword)
      ensures Check(codeword).Ok? && Check(codeword).value != -1 ==>
                var j := Check(codeword).value;
                0 <= j < |codeword| &&
                res == Ok(codeword[j := FlipChar(codeword[j])])
    {
      match Check(codeword)
      case Err(e) => Err(e)
      case Ok(j) =>
        if j == -1 then Ok(codeword)
        else
          var bits := StrToBits(codeword).value;
          var flipped := bits[j := (bits[j] + 1) % 2];
          BitsToStrOfBitVector(flipped);
          assert BitsToStr(flipped) == codeword[j := FlipChar(codeword[j])];
          Ok(BitsToStr(flipped))
    }

    /** `correct(codeword)`: flips the bit that `check` locates, in a fresh array. */
    method Correct(codeword: string) returns (res: Result<string>)
      requires Valid()
      ensures res == Corrected(codeword)
    {
      var located := Check(codeword);
      match located
      case Err(e) =>
        res := Err(e);
      case Ok(j) =>
        if j != -1 {
          var conv := StrToArr(codeword);
          var cwArr := conv.value;
          cwArr[j] := (cwArr[j] + 1) % 2;
          var s := ArrToStr(cwArr);
          res := Ok(s);
        } else {
          res := Ok(codeword);
        }
    }
  }
}
