/**
 * HammingEncoder: the k x n generator matrix G of the Hamming code of order r
 * and the encoding w |-> w . G mod 2 of a k-bit word into an n-bit codeword.
 */
module Encoder {
  import opened Bits
  import opened Gf2
  import opened Positions
  import opened Conversions

  /**
   * Entry of parity column p in the row of data position d: 1 iff (p + 1) & (d + 1) != 0.
   * Parity bit 0 covers the odd 1-based positions.
   */
  function ParityEntry(p: nat, d: nat): (e: int)
    ensures e == 0 || e == 1
    ensures p == 0 ==> e == (d + 1) % 2
  {
    assert p == 0 ==> And(p + 1, d + 1) == (d + 1) % 2;
    if And(p + 1, d + 1) != 0 then 1 else 0
  }

  /**
   * Entry (a, j) of G. Row a belongs to the a-th data position d; the parity
   * columns hold ParityEntry(j, d), the data columns hold 1 at column d only.
   */
  function GenEntry(r: nat, a: nat, j: nat): (e: int)
    requires a < K(r)
    ensures e == 0 || e == 1
    ensures j == DataPositions(r)[a] ==> e == 1
  {
    var d := DataPositions(r)[a];
    if j in ParityPositions(r) then ParityEntry(j, d) else if j == d then 1 else 0
  }

  /** G as a sequence of k rows of n entries. */
  function GenMatrix(r: nat): (g: seq<seq<int>>)
    ensures |g| == K(r)
    ensures forall a :: 0 <= a < K(r) ==> |g[a]| == N(r)
  {
    seq(K(r), a requires 0 <= a < K(r) => seq(N(r), (j: nat) => GenEntry(r, a, j)))
  }

  /** The data columns of G form an identity block: row a has its only data-column 1 at the a-th data position. */
  lemma GenDataColumns(r: nat, a: nat, b: nat)
    requires a < K(r) && b < K(r)
    ensures GenEntry(r, a, DataPositions(r)[b]) == if a == b then 1 else 0
  {
    if DataPositions(r)[a] == DataPositions(r)[b] {
      DataPositionsInjective(r, a, b);
    }
  }

  /** Parity column 2 ** t - 1 holds, in row a, binary digit t of the 1-based data position. */
  lemma GenParityColumns(r: nat, a: nat, t: nat)
    requires a < K(r) && t < r
    ensures GenEntry(r, a, Pow2(t) - 1) == Bit(DataPositions(r)[a] + 1, t)
  {
    ParityPositionAt(r, t);
    AndPow2(t, DataPositions(r)[a] + 1);
  }

  /**
   * `init_genmatrix(r)`: a k x n zero matrix, filled first column by column
   * for the parity positions, then with the identity block in the data columns.
   */
  method InitGenMatrix(r: nat) returns (g: array2<int>)
    ensures g.Length0 == K(r) && g.Length1 == N(r)
    ensures forall a, j :: 0 <= a < K(r) && 0 <= j < N(r) ==> g[a, j] == GenEntry(r, a, j)
  {
    Pow2ExceedsExponent(r);
    var n := Pow2(r) - 1;
    var k := n - r;
    g := new int[k, n]((_, _) => 0);
    var ps := ParityPositions(r);
    ParityPositionsFacts(r);

    // parity bit columns
    var pi := 0;
    while pi < |ps|
      invariant 0 <= pi <= |ps|
      invariant forall a, j :: 0 <= a < k && 0 <= j < n ==>
                  g[a, j] == if j in ps[..pi] then ParityEntry(j, DataPositions(r)[a]) else 0
    {
      FillParityColumn(g, r, ps[pi]);
      assert ps[..pi + 1] == ps[..pi] + [ps[pi]];
      pi := pi + 1;
    }
    assert ps[..pi] == ps;

    // data bit columns
    FillDataColumns(g, r);
  }

  /** The inner parity loop of `init_genmatrix`: sets the 1s of parity column p, row by row. */
  method FillParityColumn(g: array2<int>, r: nat, p: nat)
    requires g.Length0 == K(r) && g.Length1 == N(r) && p < N(r)
    requires forall a :: 0 <= a < K(r) ==> g[a, p] == 0
    modifies g
    ensures forall a, j :: 0 <= a < K(r) && 0 <= j < N(r) ==>
              g[a, j] == if j == p then ParityEntry(p, DataPositions(r)[a]) else old(g[a, j])
  {
    var ds := DataPositions(r);
    var di := 0;
    while di < |ds|
      invariant 0 <= di <= |ds|
      invariant forall a, j :: 0 <= a < K(r) && 0 <= j < N(r) ==>
                  g[a, j] == if j == p && a < di then ParityEntry(p, ds[a]) else old(g[a, j])
    {
      if And(p + 1, ds[di] + 1) != 0 {
        g[di, p] := 1;
      }
      di := di + 1;
    }
  }

  /** The data loop of `init_genmatrix`: a 1 at the data column of each data row. */
  method FillDataColumns(g: array2<int>, r: nat)
    requires g.Length0 == K(r) && g.Length1 == N(r)
    requires forall a, j :: 0 <= a < K(r) && 0 <= j < N(r) ==>
               g[a, j] == if j in ParityPositions(r) then ParityEntry(j, DataPositions(r)[a]) else 0
    modifies g
    ensures forall a, j :: 0 <= a < K(r) && 0 <= j < N(r) ==> g[a, j] == GenEntry(r, a, j)
  {
    var ds := DataPositions(r);
    var di := 0;
    while di < |ds|
      invariant 0 <= di <= |ds|
      invariant forall a, j :: 0 <= a < K(r) && 0 <= j < N(r) ==>
                  g[a, j] == if j in ParityPositions(r) then ParityEntry(j, ds[a])
                             else if j == ds[a] && a < di then 1 else 0
    {
      g[di, ds[di]] := 1;
      di := di + 1;
    }
  }

  /** `HammingEncoder`: n, k and the generator matrix, fixed at construction. */
  class HammingEncoder {
    ghost const order: nat
    const n: nat
    const k: nat
    const genmatrix: seq<seq<int>>

    /** The fields describe the code of order `order`. */
    ghost predicate Valid()
    {
      n == N(order) && k == K(order) && genmatrix == GenMatrix(order)
    }

    /** `HammingEncoder(r)` */
    constructor (r: nat)
      ensures Valid() && order == r
    {
      Pow2ExceedsExponent(r);
      order := r;
      n := Pow2(r) - 1;
      k := Pow2(r) - 1 - r;
      var g := InitGenMatrix(r);
      genmatrix := Rows(g);
      forall a | 0 <= a < K(r)
        ensures Rows(g)[a] == GenMatrix(r)[a]
      {
      }
    }

    /**
     * `encode(word)`: WordLength unless the word has k characters, NotBinary
     * unless they are all '0'/'1', otherwise the n-character codeword.
     */
    function Encode(word: string): (res: Result<string>)
      ensures |word| != k ==> res == Err(WordLength(k))
      ensures |word| == k && !IsBinary(word) ==> res == Err(NotBinary)
      ensures |word| == k && IsBinary(word) ==> res.Ok? && |res.value| == n && IsBinary(res.value)
    {
      if |word| != k then Err(WordLength(k))
      else match StrToBits(word)
        case Err(e) => Err(e)
        case Ok(bits) =>
          var code := VecMatMod2(bits, genmatrix, n);
          BitsToStrOfBitVector(code);
          Ok(BitsToStr(code))
    }
  }
}
