/**
 * The error results of the encoder and checker, and the conversions between
 * strings of '0'/'1' characters and integer bit vectors that every encode,
 * check and correct goes through.
 */
module Conversions {
  import opened Gf2

  /** The three ValueErrors the encoder and checker raise. */
  datatype Error =
    | WordLength(expected: nat)  // "Word must be of length k"
    | CodewordLength             // "Codeword is the wrong length."
    | NotBinary                  // "Please enter a binary number."

  datatype Result<T> = Ok(value: T) | Err(error: Error)

  /** Every character is '0' or '1'. */
  predicate IsBinary(s: string)
  {
    forall i :: 0 <= i < |s| ==> s[i] == '0' || s[i] == '1'
  }

  /** `int(c)` for a binary digit character. */
  function DigitValue(c: char): int
  {
    if c == '1' then 1 else 0
  }

  /** `str_to_arr(s)`: the digits of s in order, or NotBinary on any other character. */
  function StrToBits(s: string): (res: Result<seq<int>>)
    ensures res.Ok? <==> IsBinary(s)
    ensures res.Ok? ==> |res.value| == |s| && IsBitVector(res.value)
    ensures res.Ok? ==> forall i :: 0 <= i < |s| ==> BitChar(res.value[i]) == s[i]
  {
    if IsBinary(s) then Ok(seq(|s|, i requires 0 <= i < |s| => DigitValue(s[i]))) else Err(NotBinary)
  }

  /** Python's `str(x)` for a non-negative integer: its decimal digits, most significant first. */
  function NatToDecimal(x: nat): (s: string)
    ensures |s| >= 1 && IsDecimal(s)
  {
    if x < 10 then ["0123456789"[x]] else NatToDecimal(x / 10) + ["0123456789"[x % 10]]
  }

  /** Every character is a decimal digit. */
  predicate IsDecimal(s: string)
  {
    forall i :: 0 <= i < |s| ==> '0' <= s[i] <= '9'
  }

  /** Python's `int(s)` for a string of decimal digits. */
  function DecimalValue(s: string): nat
    requires IsDecimal(s)
  {
    if |s| == 0 then 0 else 10 * DecimalValue(s[..|s| - 1]) + (s[|s| - 1] - '0') as nat
  }

  /** `int(str(x)) == x` for every non-negative integer x. */
  lemma {:induction false} NatToDecimalRoundTrip(x: nat)
    ensures DecimalValue(NatToDecimal(x)) == x
  {
    var s := NatToDecimal(x);
    if x >= 10 {
      NatToDecimalRoundTrip(x / 10);
      assert s[..|s| - 1] == NatToDecimal(x / 10);
    }
  }

  /** Python's `str(x)` for an integer: a sign exactly for negative x, then the digits. */
  function IntToDecimal(x: int): (s: string)
    ensures |s| >= 1
    ensures s[0] == '-' <==> x < 0
  {
    if x < 0 then "-" + NatToDecimal(-x) else NatToDecimal(x)
  }

  /** `arr_to_str(arr)`: the concatenation of `str(el)` over the elements, in order. */
  function BitsToStr(bits: seq<int>): (s: string)
    ensures |s| >= |bits|
  {
    if |bits| == 0 then "" else BitsToStr(bits[..|bits| - 1]) + IntToDecimal(bits[|bits| - 1])
  }

  /** The character `str(b)` of a bit b. */
  function BitChar(b: int): char
  {
    if b == 1 then '1' else '0'
  }

  /** The character of the complement of a '0'/'1' character. */
  function FlipChar(ch: char): (f: char)
    ensures (ch == '0' ==> f == '1') && (ch == '1' ==> f == '0')
  {
    if ch == '1' then '0' else '1'
  }

  /** On a bit vector, arr_to_str writes one '0'/'1' character per element. */
  lemma {:induction false} BitsToStrOfBitVector(bits: seq<int>)
    requires IsBitVector(bits)
    ensures |BitsToStr(bits)| == |bits|
    ensures forall i :: 0 <= i < |bits| ==> BitsToStr(bits)[i] == BitChar(bits[i])
    ensures IsBinary(BitsToStr(bits))
  {
    if |bits| > 0 {
      var init := bits[..|bits| - 1];
      BitsToStrOfBitVector(init);
      assert IntToDecimal(bits[|bits| - 1]) == [BitChar(bits[|bits| - 1])];
    }
  }

  /** arr_to_str(str_to_arr(s)) == s for every binary string s. */
  lemma StrToBitsRoundTrip(s: string)
    requires IsBinary(s)
    ensures StrToBits(s).Ok? && BitsToStr(StrToBits(s).value) == s
  {
    BitsToStrOfBitVector(StrToBits(s).value);
  }

  /** str_to_arr(arr_to_str(b)) == b for every bit vector b. */
  lemma BitsToStrRoundTrip(bits: seq<int>)
    requires IsBitVector(bits)
    ensures StrToBits(BitsToStr(bits)) == Ok(bits)
  {
    BitsToStrOfBitVector(bits);
    var back := StrToBits(BitsToStr(bits)).value;
    assert back == bits;
  }

  /** `str_to_arr(s)`: fills a fresh array digit by digit, failing on the first non-binary character. */
  method StrToArr(s: string) returns (res: Result<array<int>>)
    ensures res.Ok? <==> IsBinary(s)
    ensures res.Ok? ==> fresh(res.value) && StrToBits(s) == Ok(res.value[..])
  {
    var arr := new int[|s|];
    var i := 0;
    while i < |s|
      invariant 0 <= i <= |s|
      invariant IsBinary(s[..i])
      invariant forall j :: 0 <= j < i ==> arr[j] == DigitValue(s[j])
    {
      if s[i] == '0' || s[i] == '1' {
        arr[i] := DigitValue(s[i]);
      } else {
        return Err(NotBinary);
      }
      i := i + 1;
    }
    assert s[..i] == s;
    assert arr[..] == StrToBits(s).value;
    res := Ok(arr);
  }

  /** `arr_to_str(arr)`: appends `str(el)` for each element in turn. */
  method ArrToStr(arr: array<int>) returns (s: string)
    ensures s == BitsToStr(arr[..])
  {
    s := "";
    var i := 0;
    while i < arr.Length
      invariant 0 <= i <= arr.Length
      invariant s == BitsToStr(arr[..i])
    {
      assert arr[..i + 1][..i] == arr[..i];
      s := s + IntToDecimal(arr[i]);
      i := i + 1;
    }
    assert arr[..i] == arr[..];
  }
}
