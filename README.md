# Hamming single-error-correcting codes

A Dafny model of `hamming-app/hammingclasses.py`: the Hamming code of order r,
with codeword length n = 2 ** r - 1 and word length k = n - r.

- `HammingEncoder` builds the k x n generator matrix G and encodes a word w of
  k '0'/'1' characters as the codeword w . G mod 2.
- `HammingChecker` builds the n x r parity-check matrix H. It checks a codeword
  by looking up its syndrome (codeword . H mod 2) among the rows of H, and it
  corrects the bit that the lookup locates.
- `str_to_arr` and `arr_to_str` convert between '0'/'1' strings and integer bit
  vectors, and every encode, check and correct goes through them.

Modules:

- `Bits`: powers of two, Python's `&` on non-negative integers, and binary digits.
- `Gf2`: sums, the dot product `np.dot(v, m) % 2`, and the sum algebra the
  proofs need.
- `Conversions`: the `ValueError`s as an `Error` datatype and a `Result`.
  `str_to_arr`/`arr_to_str` appear twice: as functions, and as the loop
  methods that the functions specify.
- `Positions`: n, k, the parity positions P = {2 ** i - 1 : i < r} and the
  data positions D (every other position), both in ascending order.
- `Encoder`: G, the matrix builder `init_genmatrix` as a method over an
  `array2` with its loops, and the `HammingEncoder` class.
- `Checker`: H, the matrix builder `init_checkmatrix` over an `array2`, the
  row search, and the `HammingChecker` class. Its `correct` is a method that
  flips one entry of a fresh array.
- `RoundTrip`: the theorems that relate the encoder and the checker.
  - G . H = 0 mod 2, so every codeword has zero syndrome and passes the check.
  - Encoding is systematic.
  - Parity bit t is the parity of the data bits it covers.
  - Any single flipped bit of a codeword is located and corrected.
- `Scenario`: Hamming(7, 4), r = 3. The word 1011 encodes to 0110011, which
  passes the check, and each of its seven single-bit corruptions is corrected.

Some points on which the model follows the code:

- P and D are Python `set`s, and the code enumerates them at lines 26-27, 32,
  69 and 75. The row of G that belongs to a data position, and the column of
  H that belongs to a parity position, depend on the order of that
  enumeration. The model enumerates both sets in ascending numeric order.
- The comments at `hammingclasses.py:68` and `:74` are swapped. The loop at
  69-72 fills the data rows of H with the binary digits of d + 1. The loop at
  75-76 gives the parity rows their unit vectors. The model follows the loops.
- Errors are those the code raises:
  - `encode` fails with `WordLength(k)` when the word does not have k
    characters, and `check` fails with `CodewordLength` when the codeword does
    not have n characters. Neither error carries the actual length.
  - Both fail with `NotBinary` when a character is not '0' or '1', because
    `str_to_arr` validates its input.
  - `check` compares the codeword's length with the number of rows of H, which
    is n.
- `correct` prints a `ValueError` and returns `None`. The model returns the
  error as `Err` instead.

## Model

| member | source | states |
|---|---|---|
| `Bits.And` | hamming-app/hammingclasses.py:28 | Python's `a & b` on non-negative integers is at most each operand; AndPow2 gives its bit test |
| `Bits.AndPow2` | hamming-app/hammingclasses.py:71 | `2 ** t & x != 0` holds exactly when binary digit t of x is 1 |
| `Gf2.DotCountsOverlap` | hamming-app/hammingclasses.py:51 | for a bit vector and a 0/1 column, the integer dot product of `np.dot` counts the positions where both are 1 |
| `Gf2.VecMatMod2Parity` | hamming-app/hammingclasses.py:51 | entry j of `np.dot(v, m) % 2` is 1 exactly when an odd number of positions have a 1 in both v and column j of m |
| `Gf2.FlipDot` | hamming-app/hammingclasses.py:102 | flipping bit i of a bit vector whose entry j of v . m is even makes that entry's parity equal to m[i][j] |
| `Positions.N` | hamming-app/hammingclasses.py:18 | n = 2 ** r - 1 is never less than r |
| `Positions.K` | hamming-app/hammingclasses.py:18-19 | k + r == n, so k = n - r is never negative |
| `Positions.ParityPositions` | hamming-app/hammingclasses.py:22 | `p_set` has r elements, 2 ** i - 1 for i < r |
| `Positions.ParityPositionsFacts` | hamming-app/hammingclasses.py:22 | P is strictly ascending, lies below n, and its element i plus 1 is 2 ** i |
| `Positions.DataPositions` | hamming-app/hammingclasses.py:23 | every element of D lies below n and is not in P, and D has k elements |
| `Positions.DataPositionsFacts` | hamming-app/hammingclasses.py:23 | D is strictly ascending and holds every position below n that is not in P |
| `Positions.DataPositionsCount` | hamming-app/hammingclasses.py:18-23 | the complement of P in range(n) has n - r = k elements |
| `Positions.DataPositionsInjective` | hamming-app/hammingclasses.py:27 | distinct data indices `d_index` name distinct data positions |
| `Positions.PositionsPartition` | hamming-app/hammingclasses.py:22-23 | each position below n lies in exactly one of P and D |
| `Encoder.ParityEntry` | hamming-app/hammingclasses.py:28-29 | the entry written for parity position p and data position d is 0 or 1, and parity bit 0 covers exactly the odd 1-based positions d + 1 |
| `Encoder.GenEntry` | hamming-app/hammingclasses.py:26-33 | every entry of G is 0 or 1, and row a has a 1 at its own data position |
| `Encoder.GenMatrix` | hamming-app/hammingclasses.py:16-35 | G has k rows of n entries |
| `Encoder.GenDataColumns` | hamming-app/hammingclasses.py:31-33 | the data columns of G form an identity block: row a has a 1 at the b-th data position exactly when a == b |
| `Encoder.GenParityColumns` | hamming-app/hammingclasses.py:25-29 | in row a, parity column 2 ** t - 1 holds binary digit t of d + 1, where d is the a-th data position; so the entry is 1 iff (p + 1) & (d + 1) != 0 |
| `Encoder.InitGenMatrix` | hamming-app/hammingclasses.py:16-35 | the builder returns a k x n array whose every entry is the entry of G |
| `Encoder.FillParityColumn` | hamming-app/hammingclasses.py:27-29 | the inner parity loop sets column p of each data row to 1 iff (p + 1) & (d + 1) != 0, and changes nothing else |
| `Encoder.FillDataColumns` | hamming-app/hammingclasses.py:32-33 | the data loop puts the identity block into the data columns, given zero data columns and filled parity columns |
| `Encoder.HammingEncoder.constructor` | hamming-app/hammingclasses.py:38-42 | n = 2 ** r - 1, k = n - r, and the stored matrix is G |
| `Encoder.HammingEncoder.Encode` | hamming-app/hammingclasses.py:45-51 | `WordLength(k)` unless the word has k characters, `NotBinary` unless they are all '0'/'1', otherwise an n-character binary codeword |
| `Checker.DataRowEntry` | hamming-app/hammingclasses.py:71-72 | the entry written at (d, index) of a data row is binary digit `index` of d + 1 |
| `Checker.CheckEntry` | hamming-app/hammingclasses.py:69-76 | every entry of H is 0 or 1, and on a data row entry c is binary digit c of j + 1 |
| `Checker.CheckMatrix` | hamming-app/hammingclasses.py:59-78 | H has n rows of r entries |
| `Checker.CheckEntryIsBit` | hamming-app/hammingclasses.py:66-76 | every entry (j, c) of H, on data rows and parity rows alike, is binary digit c of j + 1 |
| `Checker.CheckRowIsBinary` | hamming-app/hammingclasses.py:66-76 | row j of H is the r-digit binary expansion of j + 1, least significant digit first |
| `Checker.CheckRowsDistinct` | hamming-app/hammingclasses.py:59-78 | the rows of H are pairwise distinct |
| `Checker.CheckRowsNonzero` | hamming-app/hammingclasses.py:59-78 | every row of H has a 1 |
| `Checker.InitCheckMatrix` | hamming-app/hammingclasses.py:59-78 | the builder returns an n x r array whose every entry is the entry of H |
| `Checker.FirstMatch` | hamming-app/hammingclasses.py:92-94 | the search returns -1 or an index in range |
| `Checker.FirstMatchIsFirst` | hamming-app/hammingclasses.py:92-94 | the search finds the first matching row, and returns -1 exactly when no row from the start index on matches |
| `Checker.HammingChecker.constructor` | hamming-app/hammingclasses.py:81-85 | n = 2 ** r - 1, k = n - r, and the stored matrix is H |
| `Checker.HammingChecker.MatchingRow` | hamming-app/hammingclasses.py:88-94 | `get_matching_row` returns -1 or a row index of H |
| `Checker.HammingChecker.MatchingRowIsFirst` | hamming-app/hammingclasses.py:88-94 | `get_matching_row` returns the smallest index of a row of H equal to `row`, or -1 exactly when there is none |
| `Checker.HammingChecker.Syndrome` | hamming-app/hammingclasses.py:102 | the syndrome has r entries |
| `Checker.HammingChecker.Check` | hamming-app/hammingclasses.py:97-102 | `CodewordLength` unless the codeword has n characters, `NotBinary` unless they are all '0'/'1', otherwise an index in [-1, n) |
| `Checker.HammingChecker.CheckFindsSyndromeRow` | hamming-app/hammingclasses.py:97-102 | a successful check returns the first row of H equal to the syndrome, and -1 only when no row equals it |
| `Checker.HammingChecker.Corrected` | hamming-app/hammingclasses.py:117-129 | `correct` passes on the error of `check`, returns the codeword unchanged when `check` gives -1, and otherwise flips exactly the located character |
| `Checker.HammingChecker.Correct` | hamming-app/hammingclasses.py:117-126 | the method that flips one entry of a fresh array returns what `Corrected` describes |
| `Conversions.StrToBits` | hamming-app/hammingclasses.py:151-159 | `str_to_arr` succeeds exactly on binary strings, and then gives one bit per character, in order |
| `Conversions.NatToDecimal` | hamming-app/hammingclasses.py:166 | `str(x)` of a non-negative integer is a non-empty string of decimal digits |
| `Conversions.NatToDecimalRoundTrip` | hamming-app/hammingclasses.py:156-166 | `int(str(x)) == x` for every non-negative integer x |
| `Conversions.IntToDecimal` | hamming-app/hammingclasses.py:166 | `str(x)` is non-empty and starts with '-' exactly when x is negative |
| `Conversions.BitsToStr` | hamming-app/hammingclasses.py:162-167 | `arr_to_str` writes at least one character per element |
| `Conversions.FlipChar` | hamming-app/hammingclasses.py:123 | the complement of '0' is '1' and of '1' is '0' |
| `Conversions.BitsToStrOfBitVector` | hamming-app/hammingclasses.py:162-167 | `arr_to_str` of a bit vector writes one '0'/'1' character per element, in order |
| `Conversions.StrToBitsRoundTrip` | hamming-app/hammingclasses.py:151-167 | `arr_to_str(str_to_arr(s)) == s` for every binary string s |
| `Conversions.BitsToStrRoundTrip` | hamming-app/hammingclasses.py:151-167 | `str_to_arr(arr_to_str(b)) == b` for every bit vector b |
| `Conversions.StrToArr` | hamming-app/hammingclasses.py:151-159 | the loop fails with `NotBinary` exactly on non-binary strings, and otherwise fills a fresh array with `str_to_arr`'s bits |
| `Conversions.ArrToStr` | hamming-app/hammingclasses.py:162-167 | the loop builds the concatenation of `str(el)` over the array |
| `RoundTrip.ProductTermVanishes` | hamming-app/hammingclasses.py:16-78 | term j of entry (a, t) of G . H is 0 unless j is parity position 2 ** t - 1 or the a-th data position |
| `RoundTrip.ProductTermAtParity` | hamming-app/hammingclasses.py:16-78 | the term at parity position 2 ** t - 1 equals binary digit t of d + 1 |
| `RoundTrip.ProductTermAtData` | hamming-app/hammingclasses.py:16-78 | the term at the a-th data position d equals binary digit t of d + 1, and d is not 2 ** t - 1 |
| `RoundTrip.GenCheckProduct` | hamming-app/hammingclasses.py:16-78 | entry (a, t) of G . H is twice binary digit t of d + 1, so G . H = 0 mod 2 |
| `RoundTrip.CodeBits` | hamming-app/hammingclasses.py:51 | the codeword bits w . G mod 2 form a bit vector of length n |
| `RoundTrip.DataRowTerms` | hamming-app/hammingclasses.py:51 | in the double sum behind (w . G) . H, row a is w[a] times the terms of entry (a, t) of G . H |
| `RoundTrip.DataRowEven` | hamming-app/hammingclasses.py:51 | the part of that double sum that comes from row a is even |
| `RoundTrip.CodewordCheckReduce` | hamming-app/hammingclasses.py:51 | reducing each codeword bit mod 2 keeps the parity of a check sum |
| `RoundTrip.CodewordCheckExpand` | hamming-app/hammingclasses.py:51 | expanding each codeword bit into its sum over the rows of G gives the double sum |
| `RoundTrip.CodewordCheckSum` | hamming-app/hammingclasses.py:51 | entry t of (w . G mod 2) . H has the parity of that double sum |
| `RoundTrip.CodewordParityCheck` | hamming-app/hammingclasses.py:45-51 | every parity check of a codeword is satisfied |
| `RoundTrip.CodewordSyndrome` | hamming-app/hammingclasses.py:45-51 | the syndrome of every codeword is zero |
| `RoundTrip.FlipParityCheck` | hamming-app/hammingclasses.py:102 | flipping bit i of a vector that passes parity check t makes check t equal to H[i][t] |
| `RoundTrip.FlipSyndrome` | hamming-app/hammingclasses.py:102 | flipping bit i of a vector with zero syndrome makes the syndrome row i of H |
| `RoundTrip.EncodeBits` | hamming-app/hammingclasses.py:45-51 | `encode` of a valid word is `arr_to_str` of w . G mod 2 |
| `RoundTrip.EncodeEntries` | hamming-app/hammingclasses.py:45-51 | character j of the codeword is '1' exactly when the sum of word[a] * G[a][j] is odd |
| `RoundTrip.FlipChars` | hamming-app/hammingclasses.py:123-124 | flipping bit i of a bit vector flips character i of any string that spells it |
| `RoundTrip.FlipBitsToStr` | hamming-app/hammingclasses.py:123-124 | `arr_to_str` of the vector with bit i flipped is its string with character i flipped |
| `RoundTrip.CheckOfBits` | hamming-app/hammingclasses.py:97-102 | checking the string of an n-bit vector looks that vector's syndrome up in H |
| `RoundTrip.MatchingRowOfRow` | hamming-app/hammingclasses.py:88-94 | looking up row i of H finds index i |
| `RoundTrip.CheckOfZeroSyndrome` | hamming-app/hammingclasses.py:97-126 | a vector with zero syndrome passes the check with -1, and correcting it returns it unchanged |
| `RoundTrip.CheckOfCodeword` | hamming-app/hammingclasses.py:45-126 | `check(encode(w)) == -1` and `correct(encode(w)) == encode(w)` for every binary word w of length k |
| `RoundTrip.CheckOfFlippedBits` | hamming-app/hammingclasses.py:97-102 | with bit i of a zero-syndrome vector flipped, the check reports i |
| `RoundTrip.CorrectedFlipsBack` | hamming-app/hammingclasses.py:117-124 | when the check of a string with character i flipped reports i, the correction returns the original string |
| `RoundTrip.CorrectsFlippedChar` | hamming-app/hammingclasses.py:97-124 | with character i of a zero-syndrome string flipped, the check reports i and the correction restores the string |
| `RoundTrip.CorrectsSingleFlip` | hamming-app/hammingclasses.py:45-124 | for every binary word w of length k and every i < n, flipping bit i of `encode(w)` makes `check` report i, and `correct` returns `encode(w)` |
| `RoundTrip.CodeBitsSystematic` | hamming-app/hammingclasses.py:31-33 | bit d of w . G mod 2 is w[a], where d is the a-th data position |
| `RoundTrip.EncodeSystematic` | hamming-app/hammingclasses.py:32-51 | `encode(word)[d] == word[a]`, where d is the a-th data position |
| `RoundTrip.ParitySum` | hamming-app/hammingclasses.py:26-29 | the integer column sum at parity position 2 ** t - 1 counts the '1' data bits whose position has digit t of d + 1 set |
| `RoundTrip.EncodeParityBits` | hamming-app/hammingclasses.py:26-51 | the codeword character at 2 ** t - 1 is '1' exactly when an odd number of the data bits it covers are '1' |
| `Scenario.PositionsOfOrder3` | hamming-app/hammingclasses.py:22-23 | for r = 3, P = [0, 1, 3] and D = [2, 4, 5, 6] |
| `Scenario.CoveredOnesExample0` | hamming-app/hammingclasses.py:26-29 | for r = 3, parity bit 0 covers two 1s of 1011 |
| `Scenario.CoveredOnesExample1` | hamming-app/hammingclasses.py:26-29 | for r = 3, parity bit 1 covers three 1s of 1011 |
| `Scenario.CoveredOnesExample2` | hamming-app/hammingclasses.py:26-29 | for r = 3, parity bit 2 covers two 1s of 1011 |
| `Scenario.EncodeExampleData` | hamming-app/hammingclasses.py:32-51 | for r = 3, the data positions of the codeword of 1011 carry 1, 0, 1, 1 |
| `Scenario.EncodeExampleParity` | hamming-app/hammingclasses.py:26-51 | for r = 3, the parity positions of the codeword of 1011 carry 0, 1, 0 |
| `Scenario.EncodeExample` | hamming-app/hammingclasses.py:45-51 | for r = 3, `encode("1011") == "0110011"` |
| `Scenario.CheckExample` | hamming-app/hammingclasses.py:97-126 | for r = 3, `check("0110011") == -1`, and `correct` returns 0110011 unchanged |
| `Scenario.CorrectExample` | hamming-app/hammingclasses.py:97-126 | for r = 3, with any one bit i of 0110011 flipped, `check` reports i and `correct` returns 0110011 |

## Left out

- `add_noise` (`hammingclasses.py:174-182`): it draws random numbers and compares them with a floating-point probability. The theorems quantify over every single flipped position instead.
- `check_print` (`hammingclasses.py:105-114`) and the `print(err)` in `correct`: console output only. `Corrected` and `Correct` return the error where `correct` prints it and returns `None`.
- `insert_col` and `insert_row` (`hammingclasses.py:137-144`): numpy wrappers that the encoder and checker do not call.
- numpy specifics:
  - `dtype=np.int` is modelled as unbounded integers. The entries are 0 or 1 and the sums are at most n, so nothing can overflow.
  - `np.where`/`np.all` is modelled as a linear search for the first equal row.
  - `np.dot` is modelled as an explicit sum.
- Set iteration order: the model fixes P and D in ascending order and does not model Python's hash-based `set` iteration order.
- Negative r: `2 ** r` is then a float, so both constructors raise `TypeError`. The encoder fails at `np.zeros` (`hammingclasses.py:20`) and the checker at `set(range(n))` (`:64`). The model takes r as a natural number.
- The matrices after construction: the classes store each one as an immutable sequence of rows, read from the array that the builder filled. Neither class writes to its matrix after construction.
- Encoder.HammingEncoder.constructor and Checker.HammingChecker.constructor: each class keeps r as a ghost field `order`, which the Python objects do not store. It names the code that the fields describe.
