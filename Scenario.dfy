/**
 * The Hamming(7, 4) code, r = 3: the positions, and one encoding worked out
 * from the systematic and parity-bit theorems.
 */
module Scenario {
  import opened Bits
  import opened Positions
  import opened Conversions
  import opened Encoder
  import opened Checker
  import opened RoundTrip

  /** For r = 3, P = [0, 1, 3] and D = [2, 4, 5, 6]. */
  lemma PositionsOfOrder3()
    ensures ParityPositions(3) == [0, 1, 3]
    ensures DataPositions(3) == [2, 4, 5, 6]
  {
    assert Pow2(1) == 2 && Pow2(2) == 4 && Pow2(3) == 8;
    assert ParityPositions(3) == [0, 1, 3];
    assert DataFrom(3, 7) == [];
    assert DataFrom(3, 6) == [6];
    assert DataFrom(3, 5) == [5, 6];
    assert DataFrom(3, 4) == [4, 5, 6];
    assert DataFrom(3, 3) == [4, 5, 6];
    assert DataFrom(3, 2) == [2, 4, 5, 6];
    assert DataFrom(3, 1) == [2, 4, 5, 6];
  }

  /** Parity bit 0 of the r = 3 code covers data positions 2, 4 and 6, where 1011 has two 1s. */
  lemma CoveredOnesExample0()
    ensures CoveredOnes(DataPositions(3), "1011", 0) == 2
  {
    PositionsOfOrder3();
    var ds := DataPositions(3);
    assert Bit(3, 0) == 1 && Bit(5, 0) == 1 && Bit(6, 0) == 0 && Bit(7, 0) == 1;
    assert "1011"[..3] == "101" && "101"[..2] == "10" && "10"[..1] == "1" && "1"[..0] == "";
    assert CoveredOnes(ds, "1", 0) == 1;
    assert CoveredOnes(ds, "10", 0) == 1;
    assert CoveredOnes(ds, "101", 0) == 1;
  }

  /** Parity bit 1 of the r = 3 code covers data positions 2, 5 and 6, where 1011 has three 1s. */
  lemma CoveredOnesExample1()
    ensures CoveredOnes(DataPositions(3), "1011", 1) == 3
  {
    PositionsOfOrder3();
    var ds := DataPositions(3);
    assert Bit(3, 1) == 1 && Bit(5, 1) == 0 && Bit(6, 1) == 1 && Bit(7, 1) == 1;
    assert "1011"[..3] == "101" && "101"[..2] == "10" && "10"[..1] == "1" && "1"[..0] == "";
    assert CoveredOnes(ds, "1", 1) == 1;
    assert CoveredOnes(ds, "10", 1) == 1;
    assert CoveredOnes(ds, "101", 1) == 2;
  }

  /** Parity bit 2 of the r = 3 code covers data positions 4, 5 and 6, where 1011 has two 1s. */
  lemma CoveredOnesExample2()
    ensures CoveredOnes(DataPositions(3), "1011", 2) == 2
  {
    PositionsOfOrder3();
    var ds := DataPositions(3);
    assert Bit(3, 2) == 0 && Bit(5, 2) == 1 && Bit(6, 2) == 1 && Bit(7, 2) == 1;
    assert "1011"[..3] == "101" && "101"[..2] == "10" && "10"[..1] == "1" && "1"[..0] == "";
    assert CoveredOnes(ds, "1", 2) == 0;
    assert CoveredOnes(ds, "10", 2) == 0;
    assert CoveredOnes(ds, "101", 2) == 1;
  }

  /** For r = 3, the data positions 2, 4, 5 and 6 of the codeword of 1011 carry 1, 0, 1, 1. */
  lemma EncodeExampleData(enc: HammingEncoder)
    requires enc.Valid() && enc.order == 3
    ensures enc.Encode("1011").Ok? && |enc.Encode("1011").value| == 7
    ensures var cw := enc.Encode("1011").value;
            cw[2] == '1' && cw[4] == '0' && cw[5] == '1' && cw[6] == '1'
  {
    PositionsOfOrder3();
    assert Pow2(3) == 8;
    assert IsBinary("1011");
    EncodeSystematic(enc, "1011", 0);
    EncodeSystematic(enc, "1011", 1);
    EncodeSystematic(enc, "1011", 2);
    EncodeSystematic(enc, "1011", 3);
  }

  /** For r = 3, the parity positions 0, 1 and 3 of the codeword of 1011 carry 0, 1, 0. */
  lemma EncodeExampleParity(enc: HammingEncoder)
    requires enc.Valid() && enc.order == 3
    ensures enc.Encode("1011").Ok? && |enc.Encode("1011").value| == 7
    ensures var cw := enc.Encode("1011").value;
            cw[0] == '0' && cw[1] == '1' && cw[3] == '0'
  {
    assert Pow2(1) == 2 && Pow2(2) == 4 && Pow2(3) == 8;
    assert IsBinary("1011");
    CoveredOnesExample0();
    EncodeParityBits(enc, "1011", 0);
    CoveredOnesExample1();
    EncodeParityBits(enc, "1011", 1);
    CoveredOnesExample2();
    EncodeParityBits(enc, "1011", 2);
  }

  /** A string is 0110011 when its seven characters are. */
  lemma SpelledOut(cw: string)
    requires |cw| == 7 && cw[0] == '0' && cw[1] == '1' && cw[2] == '1' && cw[3] == '0'
    requires cw[4] == '0' && cw[5] == '1' && cw[6] == '1'
    ensures cw == "0110011"
  {
  }

  /** The word 1011 is encoded, for r = 3, as the codeword 0110011. */
  lemma EncodeExample(enc: HammingEncoder)
    requires enc.Valid() && enc.order == 3
    ensures enc.Encode("1011") == Ok("0110011")
  {
    EncodeExampleData(enc);
    EncodeExampleParity(enc);
    SpelledOut(enc.Encode("1011").value);
  }

  /** For r = 3, the codeword 0110011 passes the check, and correcting it leaves it unchanged. */
  lemma CheckExample(enc: HammingEncoder, chk: HammingChecker)
    requires enc.Valid() && chk.Valid() && enc.order == 3 && chk.order == 3
    ensures chk.Check("0110011") == Ok(-1) && chk.Corrected("0110011") == Ok("0110011")
  {
    EncodeExample(enc);
    CheckOfCodeword(enc, chk, "1011");
  }

  /**
   * For r = 3, with any one bit i of the codeword 0110011 flipped, the check
   * reports bit i and the correction restores the codeword.
   */
  lemma CorrectExample(enc: HammingEncoder, chk: HammingChecker, i: nat)
    requires enc.Valid() && chk.Valid() && enc.order == 3 && chk.order == 3 && i < 7
    ensures var noisy := "0110011"[i := FlipChar("0110011"[i])];
            chk.Check(noisy) == Ok(i) && chk.Corrected(noisy) == Ok("0110011")
  {
    EncodeExample(enc);
    CorrectsSingleFlip(enc, chk, "1011", i);
  }
}
