/**
 * What the encoder and the checker promise together: codewords pass the check,
 * encoding is systematic with the textbook parity bits, and any single flipped
 * bit of a codeword is located and corrected.
 */
module RoundTrip {
  import opened Bits
  import opened Gf2
  import opened Positions
  import opened Conversions
  import opened Encoder
  import opened Checker

  /** The terms G[a][j] * H[j][t] of entry (a, t) of G . H */
  function ProductTerms(r: nat, a: nat, t: nat): nat -> int
  {
    (j: nat) => At(GenMatrix(r), a, j) * At(CheckMatrix(r), j, t)
  }

  /** Term j of entry (a, t) of G . H vanishes away from parity position 2 ** t - 1 and data position a. */
  lemma ProductTermVanishes(r: nat, a: nat, t: nat, j: nat)
    requires a < K(r) && t < r && j < N(r)
    requires j != Pow2(t) - 1 && j != DataPositions(r)[a]
    ensures ProductTerms(r, a, t)(j) == 0
  {
    if j in ParityPositions(r) {
      var u := ParityPositionIndex(r, j);
      CheckEntryIsBit(r, j, t);
      BitOfPow2(u, t);
    }
  }

  /** At parity position 2 ** t - 1, the term of entry (a, t) of G . H is binary digit t of d + 1. */
  lemma ProductTermAtParity(r: nat, a: nat, t: nat)
    requires a < K(r) && t < r
    ensures Pow2(t) - 1 < N(r)
    ensures ProductTerms(r, a, t)(Pow2(t) - 1) == Bit(DataPositions(r)[a] + 1, t)
  {
    var p := Pow2(t) - 1;
    Pow2StrictlyMonotone(t, r);
    GenParityColumns(r, a, t);
    assert At(GenMatrix(r), a, p) == GenEntry(r, a, p);
    CheckEntryIsBit(r, p, t);
    BitOfPow2(t, t);
    assert At(CheckMatrix(r), p, t) == 1;
  }

  /** At the a-th data position d, the term of entry (a, t) of G . H is binary digit t of d + 1. */
  lemma ProductTermAtData(r: nat, a: nat, t: nat)
    requires a < K(r) && t < r
    ensures var d := DataPositions(r)[a];
            ProductTerms(r, a, t)(d) == Bit(d + 1, t) && d != Pow2(t) - 1
  {
    var d := DataPositions(r)[a];
    ParityPositionAt(r, t);
    assert At(GenMatrix(r), a, d) == 1;
    assert At(CheckMatrix(r), d, t) == Bit(d + 1, t);
  }

  /**
   * Entry (a, t) of G . H is twice binary digit t of the 1-based data position
   * of row a: G . H = 0 over GF(2), the generator and check matrices are orthogonal.
   */
  lemma GenCheckProduct(r: nat, a: nat, t: nat)
    requires a < K(r) && t < r
    ensures Sum(N(r), ProductTerms(r, a, t)) == 2 * Bit(DataPositions(r)[a] + 1, t)
  {
    var d, p := DataPositions(r)[a], Pow2(t) - 1;
    var f := ProductTerms(r, a, t);
    ProductTermAtParity(r, a, t);
    ProductTermAtData(r, a, t);
    forall j | 0 <= j < N(r) && j != p && j != d
      ensures f(j) == 0
    {
      ProductTermVanishes(r, a, t, j);
    }
    SumTwoPoints(N(r), f, p, d);
  }

  /** The codeword bits w . G mod 2 of a k-bit vector w. */
  function CodeBits(r: nat, w: seq<int>): (c: seq<int>)
    ensures |c| == N(r) && IsBitVector(c)
  {
    VecMatMod2(w, GenMatrix(r), N(r))
  }

  /** The terms w[a] * G[a][j] * H[j][t] of the double sum behind entry t of (w . G) . H */
  function CodeTerms(r: nat, w: seq<int>, t: nat): (nat, nat) -> int
  {
    (a: nat, j: nat) => DotTerms(w, GenMatrix(r), j)(a) * At(CheckMatrix(r), j, t)
  }

  /** Term j of data row a of the double sum is w[a] times term j of entry (a, t) of G . H. */
  lemma DataRowTerms(r: nat, w: seq<int>, t: nat, a: nat, j: nat)
    requires |w| == K(r) && IsBitVector(w) && a < K(r)
    ensures RowOf(CodeTerms(r, w, t), a)(j) == if w[a] == 0 then 0 else ProductTerms(r, a, t)(j)
  {
    var x, y := At(GenMatrix(r), a, j), At(CheckMatrix(r), j, t);
    assert DotTerms(w, GenMatrix(r), j)(a) == w[a] * x;
    assert RowOf(CodeTerms(r, w, t), a)(j) == CodeTerms(r, w, t)(a, j) == (w[a] * x) * y;
    assert ProductTerms(r, a, t)(j) == x * y;
  }

  /** The part of the double sum that comes from data row a is even. */
  lemma DataRowEven(r: nat, w: seq<int>, t: nat, a: nat)
    requires |w| == K(r) && IsBitVector(w) && t < r && a < K(r)
    ensures Sum(N(r), RowOf(CodeTerms(r, w, t), a)) % 2 == 0
  {
    var f := ProductTerms(r, a, t);
    var g := RowOf(CodeTerms(r, w, t), a);
    forall j | 0 <= j < N(r)
      ensures g(j) == if w[a] == 0 then 0 else f(j)
    {
      DataRowTerms(r, w, t, a, j);
    }
    var total := Sum(N(r), g);
    if w[a] == 0 {
      SumZero(N(r), g);
      assert total == 0;
    } else {
      SumExt(N(r), f, g);
      GenCheckProduct(r, a, t);
      var b := Bit(DataPositions(r)[a] + 1, t);
      assert total == 2 * b;
      assert total == 0 || total == 2;
    }
  }

  /** The terms (w . G)[j] * H[j][t] of entry t of (w . G) . H, before reducing mod 2. */
  function CheckTerms(r: nat, w: seq<int>, t: nat): nat -> int
  {
    (j: nat) => Dot(w, GenMatrix(r), j) * At(CheckMatrix(r), j, t)
  }

  /** Reducing each codeword bit mod 2 does not change the parity of a check sum. */
  lemma CodewordCheckReduce(r: nat, w: seq<int>, t: nat)
    requires t < r
    ensures Dot(CodeBits(r, w), CheckMatrix(r), t) % 2 == Sum(N(r), CheckTerms(r, w, t)) % 2
  {
    var H, c := CheckMatrix(r), CodeBits(r, w);
    var E := CheckTerms(r, w, t);
    forall j | 0 <= j < N(r)
      ensures DotTerms(c, H, t)(j) % 2 == E(j) % 2
    {
      var x, h := Dot(w, GenMatrix(r), j), At(H, j, t);
      CheckEntryIsBit(r, j, t);
      assert DotTerms(c, H, t)(j) == (x % 2) * h;
      assert E(j) == x * h;
      if h == 1 {
        assert (x % 2) * h == x % 2;
      }
    }
    SumCongruent(N(r), DotTerms(c, H, t), E);
  }

  /** Expanding each codeword bit into its sum over the rows of G gives the double sum. */
  lemma CodewordCheckExpand(r: nat, w: seq<int>, t: nat)
    requires |w| == K(r)
    ensures Sum(N(r), CheckTerms(r, w, t)) == Sum(N(r), ColSums(CodeTerms(r, w, t), K(r)))
  {
    var G, H := GenMatrix(r), CheckMatrix(r);
    var E, F := CheckTerms(r, w, t), CodeTerms(r, w, t);
    forall j | 0 <= j < N(r)
      ensures E(j) == ColSums(F, K(r))(j)
    {
      SumScale(K(r), DotTerms(w, G, j), At(H, j, t), ColOf(F, j));
    }
    SumExt(N(r), E, ColSums(F, K(r)));
  }

  /** Entry t of (w . G mod 2) . H has the parity of the double sum over data rows and positions. */
  lemma CodewordCheckSum(r: nat, w: seq<int>, t: nat)
    requires |w| == K(r) && IsBitVector(w) && t < r
    ensures Dot(CodeBits(r, w), CheckMatrix(r), t) % 2 == Sum(N(r), ColSums(CodeTerms(r, w, t), K(r))) % 2
  {
    CodewordCheckReduce(r, w, t);
    CodewordCheckExpand(r, w, t);
  }

  /** Every parity check of a codeword is satisfied: entry t of its syndrome is 0. */
  lemma CodewordParityCheck(r: nat, w: seq<int>, t: nat)
    requires |w| == K(r) && IsBitVector(w) && t < r
    ensures Dot(CodeBits(r, w), CheckMatrix(r), t) % 2 == 0
  {
    var F := CodeTerms(r, w, t);
    CodewordCheckSum(r, w, t);
    SumSwap(K(r), N(r), F);
    forall a | 0 <= a < K(r)
      ensures RowSums(F, N(r))(a) % 2 == 0
    {
      DataRowEven(r, w, t, a);
    }
    SumEven(K(r), RowSums(F, N(r)));
  }

  /** The zero syndrome of a code of order r. */
  function Zeros(r: nat): seq<int>
  {
    seq(r, (t: nat) => 0)
  }

  /** The syndrome of every codeword is zero. */
  lemma CodewordSyndrome(r: nat, w: seq<int>)
    requires |w| == K(r) && IsBitVector(w)
    ensures VecMatMod2(CodeBits(r, w), CheckMatrix(r), r) == Zeros(r)
  {
    forall t | 0 <= t < r
      ensures VecMatMod2(CodeBits(r, w), CheckMatrix(r), r)[t] == 0
    {
      CodewordParityCheck(r, w, t);
    }
  }

  /** Flipping bit i of a vector with zero syndrome makes the syndrome row i of H. */
  lemma FlipSyndrome(r: nat, c: seq<int>, i: nat)
    requires |c| == N(r) && IsBitVector(c) && i < N(r)
    requires VecMatMod2(c, CheckMatrix(r), r) == Zeros(r)
    ensures VecMatMod2(c[i := (c[i] + 1) % 2], CheckMatrix(r), r) == CheckMatrix(r)[i]
  {
    var H := CheckMatrix(r);
    var flipped := c[i := (c[i] + 1) % 2];
    forall t | 0 <= t < r
      ensures VecMatMod2(flipped, H, r)[t] == H[i][t]
    {
      assert Dot(c, H, t) % 2 == VecMatMod2(c, H, r)[t] == 0;
      FlipParityCheck(r, c, i, t);
    }
  }

  /** Flipping bit i of a vector that passes parity check t makes check t equal to H[i][t]. */
  lemma FlipParityCheck(r: nat, c: seq<int>, i: nat, t: nat)
    requires |c| == N(r) && IsBitVector(c) && i < N(r) && t < r
    requires Dot(c, CheckMatrix(r), t) % 2 == 0
    ensures Dot(c[i := (c[i] + 1) % 2], CheckMatrix(r), t) % 2 == CheckMatrix(r)[i][t]
  {
    var H := CheckMatrix(r);
    CheckEntryIsBit(r, i, t);
    assert At(H, i, t) == H[i][t];
    FlipDot(c, H, i, t);
  }

  /** Encoding goes through the bit vector of the word and CodeBits. */
  lemma EncodeBits(enc: HammingEncoder, word: string)
    requires enc.Valid() && |word| == enc.k && IsBinary(word)
    ensures enc.Encode(word) == Ok(BitsToStr(CodeBits(enc.order, StrToBits(word).value)))
  {
  }

  /** Character j of the codeword is bit j of w . G mod 2: the parity of the sum of word[a] * G[a][j]. */
  lemma EncodeEntries(enc: HammingEncoder, word: string, j: nat)
    requires enc.Valid() && |word| == enc.k && IsBinary(word) && j < enc.n
    ensures enc.Encode(word).Ok? && |enc.Encode(word).value| == enc.n
    ensures enc.Encode(word).value[j]
            == if Dot(StrToBits(word).value, enc.genmatrix, j) % 2 == 1 then '1' else '0'
  {
    var c := CodeBits(enc.order, StrToBits(word).value);
    EncodeBits(enc, word);
    BitsToStrOfBitVector(c);
  }

  /** Flipping bit i of a bit vector flips character i of its '0'/'1' spelling. */
  lemma FlipChars(c: seq<int>, s: string, f: seq<int>, fs: string, i: nat)
    requires IsBitVector(c) && i < |c| && f == c[i := (c[i] + 1) % 2]
    requires |s| == |c| && forall k :: 0 <= k < |c| ==> s[k] == BitChar(c[k])
    requires |fs| == |f| && forall k :: 0 <= k < |f| ==> fs[k] == BitChar(f[k])
    ensures fs == s[i := FlipChar(s[i])]
  {
    var t := s[i := FlipChar(s[i])];
    forall k | 0 <= k < |c|
      ensures fs[k] == t[k]
    {
      if k == i {
        assert fs[i] == BitChar(f[i]) && s[i] == BitChar(c[i]);
        if c[i] == 0 {
          assert f[i] == 1;
        } else {
          assert f[i] == 0;
        }
      } else {
        assert fs[k] == BitChar(f[k]) && s[k] == BitChar(c[k]) && f[k] == c[k];
      }
    }
  }

  /** Flipping bit i of a bit vector flips character i of its string. */
  lemma FlipBitsToStr(c: seq<int>, i: nat)
    requires IsBitVector(c) && i < |c|
    ensures |BitsToStr(c)| == |c|
    ensures BitsToStr(c[i := (c[i] + 1) % 2]) == BitsToStr(c)[i := FlipChar(BitsToStr(c)[i])]
  {
    var f := c[i := (c[i] + 1) % 2];
    assert IsBitVector(f);
    BitsToStrOfBitVector(c);
    BitsToStrOfBitVector(f);
    FlipChars(c, BitsToStr(c), f, BitsToStr(f), i);
  }

  /** Checking the string of an n-bit vector looks its syndrome up in H. */
  lemma CheckOfBits(chk: HammingChecker, bits: seq<int>)
    requires chk.Valid() && |bits| == chk.n && IsBitVector(bits)
    ensures chk.Check(BitsToStr(bits)) == Ok(chk.MatchingRow(chk.Syndrome(bits)))
  {
    BitsToStrRoundTrip(bits);
    BitsToStrOfBitVector(bits);
  }

  /** Looking up row i of H finds index i, the rows being distinct. */
  lemma MatchingRowOfRow(chk: HammingChecker, i: nat)
    requires chk.Valid() && i < chk.n
    ensures chk.MatchingRow(chk.checkmatrix[i]) == i
  {
    var j := chk.MatchingRow(chk.checkmatrix[i]);
    chk.MatchingRowIsFirst(chk.checkmatrix[i]);
    if j != i {
      CheckRowsDistinct(chk.order, i, j);
    }
  }

  /** A vector with zero syndrome passes the check, and correcting its string leaves it unchanged. */
  lemma CheckOfZeroSyndrome(chk: HammingChecker, c: seq<int>)
    requires chk.Valid() && |c| == chk.n && IsBitVector(c)
    requires VecMatMod2(c, CheckMatrix(chk.order), chk.order) == Zeros(chk.order)
    ensures chk.Check(BitsToStr(c)) == Ok(-1)
    ensures chk.Corrected(BitsToStr(c)) == Ok(BitsToStr(c))
  {
    var r := chk.order;
    assert chk.Syndrome(c) == Zeros(r);
    forall j | 0 <= j < N(r)
      ensures chk.checkmatrix[j] != Zeros(r)
    {
      CheckRowsNonzero(r, j);
    }
    chk.MatchingRowIsFirst(Zeros(r));
    CheckOfBits(chk, c);
  }

  /**
   * Round trip: the check of every encoded word finds no corrupted bit, and
   * correcting it returns it unchanged.
   */
  lemma CheckOfCodeword(enc: HammingEncoder, chk: HammingChecker, word: string)
    requires enc.Valid() && chk.Valid() && enc.order == chk.order
    requires |word| == enc.k && IsBinary(word)
    ensures enc.Encode(word).Ok?
    ensures chk.Check(enc.Encode(word).value) == Ok(-1)
    ensures chk.Corrected(enc.Encode(word).value) == enc.Encode(word)
  {
    var w := StrToBits(word).value;
    EncodeBits(enc, word);
    CodewordSyndrome(enc.order, w);
    CheckOfZeroSyndrome(chk, CodeBits(enc.order, w));
  }

  /** Flipping bit i of a vector with zero syndrome: the check of its string reports bit i. */
  lemma CheckOfFlippedBits(chk: HammingChecker, c: seq<int>, i: nat)
    requires chk.Valid() && |c| == chk.n && IsBitVector(c) && i < chk.n
    requires VecMatMod2(c, CheckMatrix(chk.order), chk.order) == Zeros(chk.order)
    ensures chk.Check(BitsToStr(c[i := (c[i] + 1) % 2])) == Ok(i)
  {
    var flipped := c[i := (c[i] + 1) % 2];
    FlipSyndrome(chk.order, c, i);
    assert IsBitVector(flipped);
    assert chk.Syndrome(flipped) == chk.checkmatrix[i];
    MatchingRowOfRow(chk, i);
    CheckOfBits(chk, flipped);
  }

  /** Correcting a binary string whose check reports bit i flips character i back. */
  lemma CorrectedFlipsBack(chk: HammingChecker, cw: string, i: nat)
    requires chk.Valid() && IsBinary(cw) && i < |cw|
    requires chk.Check(cw[i := FlipChar(cw[i])]) == Ok(i)
    ensures chk.Corrected(cw[i := FlipChar(cw[i])]) == Ok(cw)
  {
    var noisy := cw[i := FlipChar(cw[i])];
    assert cw[i] == '0' || cw[i] == '1';
    assert FlipChar(noisy[i]) == cw[i];
    assert noisy[i := FlipChar(noisy[i])] == cw;
  }

  /**
   * Flipping character i of the string of a vector with zero syndrome: the
   * check reports bit i and the correction restores the string.
   */
  lemma CorrectsFlippedChar(chk: HammingChecker, c: seq<int>, i: nat)
    requires chk.Valid() && |c| == chk.n && IsBitVector(c) && i < chk.n
    requires VecMatMod2(c, CheckMatrix(chk.order), chk.order) == Zeros(chk.order)
    ensures var cw := BitsToStr(c);
            && i < |cw|
            && chk.Check(cw[i := FlipChar(cw[i])]) == Ok(i)
            && chk.Corrected(cw[i := FlipChar(cw[i])]) == Ok(cw)
  {
    FlipBitsToStr(c, i);
    CheckOfFlippedBits(chk, c, i);
    BitsToStrOfBitVector(c);
    CorrectedFlipsBack(chk, BitsToStr(c), i);
  }

  /**
   * Single-error correction: flip any one bit i of an encoded word; the check
   * locates bit i and the correction restores the codeword.
   */
  lemma CorrectsSingleFlip(enc: HammingEncoder, chk: HammingChecker, word: string, i: nat)
    requires enc.Valid() && chk.Valid() && enc.order == chk.order
    requires |word| == enc.k && IsBinary(word) && i < enc.n
    ensures enc.Encode(word).Ok? && i < |enc.Encode(word).value|
    ensures var cw := enc.Encode(word).value;
            var noisy := cw[i := FlipChar(cw[i])];
            chk.Check(noisy) == Ok(i) && chk.Corrected(noisy) == Ok(cw)
  {
    var w := StrToBits(word).value;
    EncodeBits(enc, word);
    CodewordSyndrome(enc.order, w);
    CorrectsFlippedChar(chk, CodeBits(enc.order, w), i);
  }

  /** Bit d of w . G mod 2, for the a-th data position d, is w[a]. */
  lemma CodeBitsSystematic(r: nat, w: seq<int>, a: nat)
    requires |w| == K(r) && IsBitVector(w) && a < K(r)
    ensures CodeBits(r, w)[DataPositions(r)[a]] == w[a]
  {
    var d := DataPositions(r)[a];
    var terms := DotTerms(w, GenMatrix(r), d);
    forall b | 0 <= b < K(r) && b != a
      ensures terms(b) == 0
    {
      GenDataColumns(r, b, a);
    }
    SumOnePoint(K(r), terms, a);
    GenDataColumns(r, a, a);
  }

  /** Systematic encoding: the a-th data position of the codeword carries word[a]. */
  lemma EncodeSystematic(enc: HammingEncoder, word: string, a: nat)
    requires enc.Valid() && |word| == enc.k && IsBinary(word) && a < enc.k
    ensures enc.Encode(word).Ok? && |enc.Encode(word).value| == enc.n
    ensures enc.Encode(word).value[DataPositions(enc.order)[a]] == word[a]
  {
    var w := StrToBits(word).value;
    var c := CodeBits(enc.order, w);
    EncodeBits(enc, word);
    BitsToStrOfBitVector(c);
    CodeBitsSystematic(enc.order, w, a);
  }

  /** The number of data bits a of `word` that are '1' and whose position d has digit t of d + 1 set. */
  function CoveredOnes(ds: seq<nat>, word: string, t: nat): nat
    requires |word| <= |ds|
  {
    if |word| == 0 then 0
    else
      var a := |word| - 1;
      CoveredOnes(ds, word[..a], t) + (if word[a] == '1' && Bit(ds[a] + 1, t) == 1 then 1 else 0)
  }

  /** The integer column sum at parity position 2 ** t - 1 counts the covered ones. */
  lemma {:induction false} ParitySum(r: nat, word: string, t: nat, m: nat)
    requires |word| == K(r) && IsBinary(word) && t < r && m <= K(r)
    ensures Sum(m, DotTerms(StrToBits(word).value, GenMatrix(r), Pow2(t) - 1))
            == CoveredOnes(DataPositions(r), word[..m], t)
  {
    if m > 0 {
      var a, w, p := m - 1, StrToBits(word).value, Pow2(t) - 1;
      ParitySum(r, word, t, a);
      assert word[..m][..a] == word[..a];
      assert word[..m][a] == word[a];
      Pow2StrictlyMonotone(t, r);
      GenParityColumns(r, a, t);
      assert DotTerms(w, GenMatrix(r), p)(a) == w[a] * Bit(DataPositions(r)[a] + 1, t);
    }
  }

  /**
   * The parity bit at position 2 ** t - 1 is the parity of the number of data
   * bits set to '1' whose 1-based position has binary digit t set.
   */
  lemma EncodeParityBits(enc: HammingEncoder, word: string, t: nat)
    requires enc.Valid() && |word| == enc.k && IsBinary(word) && t < enc.order
    ensures enc.Encode(word).Ok? && Pow2(t) - 1 < |enc.Encode(word).value|
    ensures enc.Encode(word).value[Pow2(t) - 1]
            == if CoveredOnes(DataPositions(enc.order), word, t) % 2 == 1 then '1' else '0'
  {
    var r := enc.order;
    var c := CodeBits(r, StrToBits(word).value);
    EncodeBits(enc, word);
    BitsToStrOfBitVector(c);
    Pow2StrictlyMonotone(t, r);
    ParitySum(r, word, t, K(r));
    assert word[..K(r)] == word;
  }
}
