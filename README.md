# crypto — a verified model of the coding core

The crypto toolkit is a small Java library of textbook coding schemes.
This project models its core in Dafny and proves what the code does.

Error-control codes over GF(2):
- the Hamming code;
- the extended ("modified") Hamming check matrix;
- the cyclic code, with polynomial division modulo 2 and a systematic generating matrix;
- the two-dimensional ("iterative") parity code.

Block interleaving cuts a message into Hamming code words and sends them column by column, so a burst of errors is spread over many words.

Helpers and compressors:
- the row helpers of `MatrixUtil`;
- the 8-bit serialiser of `MessageUtil`;
- the sliding-window compressor in the style of LZ77;
- the encoding and decoding loops of the Hoffman and Shannon–Fano prefix coders.

The model is imperative where the Java code is imperative:
- Java methods become Dafny methods with loops and loop invariants.
- In-place algorithms keep their arrays:
  - the LZ dictionary, buffer and message arrays;
  - the rows of the generating matrix and the sort;
  - the check-matrix and grid arrays while they are filled.
- Each method is proved against a specification function. The properties the toolkit relies on are then proved about those functions as lemmas:
  - round trips;
  - single-error correction;
  - double-error detection;
  - burst correction;
  - the shape and odd weight of the extended matrix;
  - the bounds of the LZ triads;
  - sortedness and permutation.

Bit arrays (`int[]` holding 0 and 1) are `seq<Bit>` with `Bit = x: int | 0 <= x <= 1`. Where the Java code writes other integers, the model keeps `int` and writes out Java's 32-bit wrap where an addition can overflow, as in `MatrixUtil.rowSum` (`MatrixUtil.Wrap32`). A Java exception becomes `None` or an excluded input; each exclusion is listed under "## Left out".

Modules, one per Java class:
- `Bits`: shared GF(2) words.
- `HammingCode`.
- `ModifiedHammingCode`.
- `Polynomials`: the division algebra.
- `CycleCode`.
- `IterativeCode`.
- `IterativeDecoding`: the receiving pipeline and what it corrects.
- `BlockInterleaving`.
- `MatrixUtil`.
- `MessageUtil`.
- `LempelZiv`.
- `PrefixCode`, with the thin wrappers `HoffmanCode` and `ShannonFanoCode`.

Two behaviours of the code are modelled as written and listed under "## Findings":
- The interleaving loop's bound is the length of row i rather than of row 0, so it finishes only when there are more code words than bits per word (B > n); for B ≤ n it reads a row that does not exist.
- The LZ decompressor's final flush stops at the first NUL in its buffer. A message is lost exactly when the compressor's triads cover fewer characters than the capacity (a short message such as "ab" with capacity 3); a short message whose triads cover the capacity, such as "aa" with capacity 3, survives.

## Model

| member | source | states |
|---|---|---|
| `HammingCode.GetCheckMatrix` | src/main/java/crypto/recoverycode/HammingCode.java:20-47 | the nested key/counter loops build exactly `CheckMatrix(k, r)`: entry (i, c) of an information column is bit i of the c-th number ≥ 3 that is not a power of two, and the last r columns are the identity |
| `HammingCode.FillInformationColumns` | src/main/java/crypto/recoverycode/HammingCode.java:27-40 | one pass of the inner loop fills row i of the information columns and changes no other cell |
| `HammingCode.StoreEntry` | src/main/java/crypto/recoverycode/HammingCode.java:36-38 | the store under `key` sets cell (i, c) to bit i of the c-th non-power of two and leaves every other cell unchanged |
| `HammingCode.KeyToggle` | src/main/java/crypto/recoverycode/HammingCode.java:28-30 | toggling `key` whenever 2^i divides j keeps `key` equal to "bit i of j is 0" |
| `HammingCode.NonPowGap` | src/main/java/crypto/recoverycode/HammingCode.java:32-35 | only powers of two lie between consecutive counted values, so the skip of 0 and the powers of two counts exactly the non-powers |
| `HammingCode.NonPowBelow` | src/main/java/crypto/recoverycode/HammingCode.java:25-43 | with k + r + 1 ≤ 2^r every information column's number fits in r bits |
| `HammingCode.CheckMatrixColumn` | src/main/java/crypto/recoverycode/HammingCode.java:25-43 | column c holds the r low bits of the c-th non-power of two, or of 2^(c-k) for a redundant column |
| `HammingCode.ColumnValueInjective` | src/main/java/crypto/recoverycode/HammingCode.java:25-43 | different columns are associated with different numbers |
| `HammingCode.CheckMatrixIsHamming` | src/main/java/crypto/recoverycode/HammingCode.java:21-43 | when k ≤ 2^r − r − 1 the matrix has r rows of k + r entries, its redundant block is the identity, and all k + r columns are nonzero and pairwise different |
| `HammingCode.CalculateRedundantBytes` | src/main/java/crypto/recoverycode/HammingCode.java:91-102 | redundant bit i is the GF(2) inner product of row i with the first k message bits; later message bits are never read |
| `HammingCode.EncodeMessage` | src/main/java/crypto/recoverycode/HammingCode.java:68-84 | the code word is the k message bits followed by their r redundant bits |
| `HammingCode.GetRedundantBytes` | src/main/java/crypto/recoverycode/HammingCode.java:109-116 | returns r bits which, behind the first k, reproduce the first k + r received bits |
| `HammingCode.GetSyndrome` | src/main/java/crypto/recoverycode/HammingCode.java:123-131 | the syndrome is the XOR of the received and the recomputed redundant bits |
| `HammingCode.GetRecoveryBytes` | src/main/java/crypto/recoverycode/HammingCode.java:138-157 | k + r bits with a single 1 at the first column equal to the syndrome, all zero when no column matches |
| `HammingCode.RecoverMessage` | src/main/java/crypto/recoverycode/HammingCode.java:163-171 | the received word XOR the recovery word |
| `HammingCode.SyndromeOfError` | src/main/java/crypto/recoverycode/HammingCode.java:109-131 | the syndrome of a code word plus errors e depends only on e: the XOR of the columns at the ones of e (zero for an unaltered code word) |
| `HammingCode.HTimesUnit` | src/main/java/crypto/recoverycode/HammingCode.java:123-131 | a single error at p has column p as its syndrome |
| `HammingCode.RecoveryOfColumn` | src/main/java/crypto/recoverycode/HammingCode.java:138-157 | with distinct nonzero columns, a syndrome equal to column p selects exactly position p |
| `HammingCode.RecoveryOfZero` | src/main/java/crypto/recoverycode/HammingCode.java:138-157 | the zero syndrome gives the zero recovery word |
| `HammingCode.RecoveryOfSingleError` | src/main/java/crypto/recoverycode/HammingCode.java:138-157 | for an error of weight at most one, the recovery word of its syndrome is the error itself |
| `HammingCode.CorrectsSingleError` | src/main/java/crypto/recoverycode/HammingCode.java:138-171 | with an identity redundant block and distinct nonzero columns, a code word with at most one flipped bit decodes to the code word |
| `HammingCode.CheckMatrixCorrectsSingleError` | src/main/java/crypto/blueprint/Blueprint.java:78-85 | the matrix `getCheckMatrix` builds, with k ≤ 2^r − r − 1, corrects every single error through the whole receive pipeline |
| `ModifiedHammingCode.ModifyCheckMatrix` | src/main/java/crypto/recoverycode/ModifiedHammingCode.java:22-37 | an r × n input gives the (r + 1) × (n + 1) extension: the input on top, a zero column after it, and below a row whose entry c is 1 XOR the parity of input column c (1 under the new column) |
| `ModifiedHammingCode.CopyWithOnes` | src/main/java/crypto/recoverycode/ModifiedHammingCode.java:23-31 | the larger matrix holds the input rows, zeros in the new column, and ones in the added row |
| `ModifiedHammingCode.SumMatrixColumn` | src/main/java/crypto/recoverycode/ModifiedHammingCode.java:44-52 | the last row is replaced by the parities of all columns, the old last-row entry included, and no other row changes |
| `ModifiedHammingCode.ParitiesOfOnes` | src/main/java/crypto/recoverycode/ModifiedHammingCode.java:29-52 | replacing the row of ones by the column parities gives the extension |
| `ModifiedHammingCode.LastRowEntry` | src/main/java/crypto/recoverycode/ModifiedHammingCode.java:44-52 | because the row of ones is counted, the parity of a column is 1 XOR the parity of the input column |
| `ModifiedHammingCode.ExtensionColumn` | src/main/java/crypto/recoverycode/ModifiedHammingCode.java:23-31 | each column of the extension is the input column followed by its extra entry, and the last column is the unit vector of the new redundant bit |
| `ModifiedHammingCode.ExtensionOddColumn` | src/main/java/crypto/recoverycode/ModifiedHammingCode.java:29-52 | every column of the extension has odd weight |
| `ModifiedHammingCode.ExtensionIdentity` | src/main/java/crypto/recoverycode/ModifiedHammingCode.java:25-31 | the old unit parity columns stay unit vectors, so the redundant block of the extension is the identity |
| `ModifiedHammingCode.ExtensionDistinct` | src/main/java/crypto/recoverycode/ModifiedHammingCode.java:25-52 | distinct nonzero input columns stay distinct and nonzero |
| `ModifiedHammingCode.ExtensionIsHamming` | src/main/java/crypto/blueprint/Blueprint.java:128-133 | the extension of a Hamming matrix is again one, for r + 1 redundant bits, with all columns of odd weight |
| `ModifiedHammingCode.ExtensionCorrectsSingleError` | src/main/java/crypto/blueprint/Blueprint.java:128-133 | the Hamming decoder on the extension at r + 1 redundant bits corrects every single error |
| `ModifiedHammingCode.RecoveryOfEven` | src/main/java/crypto/recoverycode/HammingCode.java:138-157 | a syndrome of even weight matches no odd-weight column, so the recovery word is zero |
| `ModifiedHammingCode.DoubleErrorNotMiscorrected` | src/main/java/crypto/recoverycode/ModifiedHammingCode.java:44-52 | with odd-weight distinct columns, two errors give a nonzero even-weight syndrome and the zero recovery word |
| `ModifiedHammingCode.DetectsDoubleError` | src/main/java/crypto/recoverycode/HammingCode.java:138-171 | a two-bit error has a nonzero syndrome and decoding leaves the received word as it is instead of miscorrecting |
| `ModifiedHammingCode.ExtensionDetectsDoubleError` | src/main/java/crypto/recoverycode/ModifiedHammingCode.java:22-52 | the extended code built from a Hamming matrix detects every two-bit error and does not miscorrect it |
| `Polynomials.FirstOne` | src/main/java/crypto/recoverycode/CycleCode.java:199-207 | the index of the first one, at which only zeros precede, or the length when there is none |
| `Polynomials.TrimPad` | src/main/java/crypto/recoverycode/CycleCode.java:229-247 | the trimmed word, padded back with zeros, is the word; it starts with a one unless the word is zero, in which case it is [0] |
| `Polynomials.ReducedIffDegree` | src/main/java/crypto/recoverycode/CycleCode.java:169 | the division loop stops exactly when the running word's degree is below the divisor's |
| `Polynomials.StepProgress` | src/main/java/crypto/recoverycode/CycleCode.java:172-185 | each division step clears the leading one, so the loop terminates |
| `Polynomials.ModReduced` | src/main/java/crypto/recoverycode/CycleCode.java:164-193 | the remainder is reduced: its degree is below the divisor's |
| `Polynomials.ModOfReduced` | src/main/java/crypto/recoverycode/CycleCode.java:164-193 | a reduced word is its own remainder |
| `Polynomials.ModQuotient` | src/main/java/crypto/recoverycode/CycleCode.java:172-185 | the input XOR its remainder is a combination of shifted copies of the divisor |
| `Polynomials.ReducedUnique` | src/main/java/crypto/recoverycode/CycleCode.java:164-193 | two reduced words that differ by a combination of shifts of g are equal |
| `Polynomials.ModCongruent` | src/main/java/crypto/recoverycode/CycleCode.java:164-193 | words that differ by a multiple of g have the same remainder |
| `Polynomials.ModXor` | src/main/java/crypto/recoverycode/CycleCode.java:164-193 | the remainder is linear |
| `Polynomials.ComboXor` | src/main/java/crypto/recoverycode/CycleCode.java:180-185 | combinations of shifts add coefficient by coefficient |
| `Polynomials.ComboUnit` | src/main/java/crypto/recoverycode/CycleCode.java:172-174 | selecting a single shift gives g placed at that offset |
| `Polynomials.ComboIsMultiple` | src/main/java/crypto/recoverycode/CycleCode.java:164-193 | every combination of shifts of g has remainder zero |
| `Polynomials.PlacedIsMultiple` | src/main/java/crypto/recoverycode/CycleCode.java:172-174 | g placed anywhere has remainder zero |
| `Polynomials.MultipleXor` | src/main/java/crypto/recoverycode/CycleCode.java:164-193 | the sum of two multiples of g is a multiple of g |
| `CycleCode.GetPolyDegree` | src/main/java/crypto/recoverycode/CycleCode.java:199-207 | the degree: length − 1 − the index of the first one, 0 for the zero word |
| `CycleCode.GetPolyOffset` | src/main/java/crypto/recoverycode/CycleCode.java:213-221 | the number of leading zeros, length − 1 for the zero word |
| `CycleCode.TrimPolyZero` | src/main/java/crypto/recoverycode/CycleCode.java:229-247 | the word without its leading zeros, [0] for the zero word |
| `CycleCode.PolynomialDivision` | src/main/java/crypto/recoverycode/CycleCode.java:164-193 | for a divisor with a leading one and degree ≥ 1, returns the remainder, of the input's length and of degree below the divisor's |
| `CycleCode.SubtractShifted` | src/main/java/crypto/recoverycode/CycleCode.java:172-185 | one pass of the loop adds g, placed under the leading one, to the running word |
| `CycleCode.Encode` | src/main/java/crypto/recoverycode/CycleCode.java:26-50 | n bits: the k message bits, then the trimmed remainder of message·x^(n−k) right-aligned in the n − k redundant positions |
| `CycleCode.RemainderFitsShortDivisor` | src/main/java/crypto/recoverycode/CycleCode.java:34-37 | with a divisor of degree at most n − k the trimmed remainder always fits the redundant part, so the copy never fails |
| `CycleCode.EncodedIsSum` | src/main/java/crypto/recoverycode/CycleCode.java:26-50 | the code word is message·x^(n−k) plus its remainder |
| `CycleCode.EncodedIsMultiple` | src/main/java/crypto/recoverycode/CycleCode.java:26-50 | every code word is a multiple of the generating polynomial |
| `CycleCode.CalculateSyndrome` | src/main/java/crypto/recoverycode/CycleCode.java:78-80 | the remainder of the received word, from position k on |
| `CycleCode.SyndromeOfCodeWord` | src/main/java/crypto/recoverycode/CycleCode.java:78-80 | an unaltered code word has the zero syndrome |
| `CycleCode.GetInformationBytes` | src/main/java/crypto/recoverycode/CycleCode.java:89-91 | k bits: the first k of the word, zero-padded past its end |
| `CycleCode.GetRedundantBytes` | src/main/java/crypto/recoverycode/CycleCode.java:99-101 | the bits after the first k |
| `CycleCode.InformationAndRedundant` | src/main/java/crypto/recoverycode/CycleCode.java:89-101 | the information bits followed by the redundant bits are the word |
| `CycleCode.InformationOfCodeWord` | src/main/java/crypto/recoverycode/CycleCode.java:26-50 | the information bits of a code word are the message |
| `CycleCode.GetGeneratingMatrix` | src/main/java/crypto/recoverycode/CycleCode.java:58-70 | the rows of g shifted right by their index, then formatted |
| `CycleCode.FillShiftedRow` | src/main/java/crypto/recoverycode/CycleCode.java:61-65 | row i holds the first n − k + 1 coefficients of g from column i on |
| `CycleCode.FormatGeneratingMatrix` | src/main/java/crypto/recoverycode/CycleCode.java:148-156 | every row becomes itself plus each later row whose column holds a one in it |
| `CycleCode.ReduceRowInPlace` | src/main/java/crypto/recoverycode/CycleCode.java:150-155 | the inner loop reduces row i by the rows after it, which it does not change |
| `CycleCode.FormattedSystematic` | src/main/java/crypto/recoverycode/CycleCode.java:148-156 | formatting an echelon matrix makes its first columns the identity |
| `CycleCode.GeneratingRowsSystematic` | src/main/java/crypto/recoverycode/CycleCode.java:58-70 | with a leading one in g the first k columns of the generating matrix form the identity |
| `CycleCode.GeneratingRowIsCodeWord` | src/main/java/crypto/recoverycode/CycleCode.java:58-70 | when g has degree n − k, row i of the generating matrix is `encode` of the i-th unit message |
| `CycleCode.MultipleIsEncoded` | src/main/java/crypto/recoverycode/CycleCode.java:26-50 | every multiple of g of length n is the code word of its first k bits |
| `CycleCode.FirstMatch` | src/main/java/crypto/recoverycode/CycleCode.java:112-121 | the first row whose redundant part equals the syndrome, with no earlier row matching, or the row count when none does |
| `CycleCode.GetRecoveryBytes` | src/main/java/crypto/recoverycode/CycleCode.java:109-126 | a single 1 at the index of the first matching row; when no row matches, the syndrome copied into positions k and later |
| `CycleCode.RecoverMessage` | src/main/java/crypto/recoverycode/CycleCode.java:133-141 | the received word XOR the recovery word |
| `CycleCode.RecoveryOfNoError` | src/main/java/crypto/recoverycode/CycleCode.java:109-126 | the zero syndrome recovers nothing |
| `CycleCode.RecoveryOfInformationError` | src/main/java/crypto/recoverycode/CycleCode.java:109-126 | a flipped information bit p has the syndrome of row p, which selects exactly p |
| `CycleCode.RecoveryOfRedundantError` | src/main/java/crypto/recoverycode/CycleCode.java:123 | a flipped redundant bit matches no row, and the fallback copy of the syndrome recovers it |
| `CycleCode.RecoveryOfSingleError` | src/main/java/crypto/recoverycode/CycleCode.java:109-126 | the recovery word of a single error's syndrome is that error |
| `CycleCode.CorrectsSingleError` | src/main/java/crypto/recoverycode/CycleCode.java:78-141 | when the unit code words have distinct redundant parts of weight ≥ 2, a code word with at most one flipped bit decodes to the code word |
| `IterativeCode.BuildMatrix` | src/main/java/crypto/recoverycode/IterativeCode.java:21-36 | the (R + 1) × (C + 1) grid: cell (i, j) is message bit i·C + j, with each row's parity in column C, each column's parity in row R, and the total sum in the corner |
| `IterativeCode.FillRows` | src/main/java/crypto/recoverycode/IterativeCode.java:23-31 | the loops leave the data cells, row parities and column parities, with the corner still 0 |
| `IterativeCode.FillRow` | src/main/java/crypto/recoverycode/IterativeCode.java:24-30 | one row of data copied, its parity cell set, and each column parity toggled for every 1, with other rows unchanged |
| `IterativeCode.CornerSet` | src/main/java/crypto/recoverycode/IterativeCode.java:33 | setting the corner of the filled grid to its total sum gives the encoded grid |
| `IterativeCode.CalculateTotalSum` | src/main/java/crypto/recoverycode/IterativeCode.java:175-188 | the parity of every cell but the last of the last row |
| `IterativeCode.EncodedData` | src/main/java/crypto/recoverycode/IterativeCode.java:23-26 | cell (i, j) of the encoded grid is data bit i·C + j |
| `IterativeCode.EncodedRowsEven` | src/main/java/crypto/recoverycode/IterativeCode.java:27 | every row of the encoded grid, the parity row included, has even weight |
| `IterativeCode.EncodedColumnsEven` | src/main/java/crypto/recoverycode/IterativeCode.java:28 | every column of the encoded grid, the parity column included, has even weight |
| `IterativeCode.EncodedCorner` | src/main/java/crypto/recoverycode/IterativeCode.java:33 | the corner is the parity of all other cells, and that is the parity of the data |
| `IterativeCode.CornerIsDataParity` | src/main/java/crypto/recoverycode/IterativeCode.java:175-188 | the row parities and the column parities each have the parity of the data |
| `IterativeCode.AddRedundantBytes` | src/main/java/crypto/recoverycode/IterativeCode.java:44-60 | re-encodes the data cells of a grid into the encoded grid of that data |
| `IterativeCode.ReencodeCut` | src/main/java/crypto/recoverycode/IterativeCode.java:44-73 | re-encoding the data cut from an encoded grid restores the grid |
| `IterativeCode.GetMatrixWithoutRedundantBytes` | src/main/java/crypto/recoverycode/IterativeCode.java:66-73 | the first C cells of each of the first R rows, zero-padded |
| `IterativeCode.ConvertMatrixToMessage` | src/main/java/crypto/recoverycode/IterativeCode.java:81-93 | the data row by row, then the row parities, the column parities and the corner, zero-filled to the grid's size |
| `IterativeCode.ConvertMessageToMatrix` | src/main/java/crypto/recoverycode/IterativeCode.java:101-120 | the grid of a word: data rows, row parities in column C, column parities in row R, the last bit in the corner |
| `IterativeCode.FlatOfLayout` | src/main/java/crypto/recoverycode/IterativeCode.java:81-120 | flattening the grid of a word of (R + 1)(C + 1) bits gives the word back |
| `IterativeCode.LayoutOfFlat` | src/main/java/crypto/recoverycode/IterativeCode.java:81-120 | laying out the flat word of an (R + 1) × (C + 1) grid gives the grid back |
| `IterativeCode.GetRedundantBytesFromMatrix` | src/main/java/crypto/recoverycode/IterativeCode.java:126-139 | column C of the data rows, then row R, the corner last |
| `IterativeCode.GetRedundantBytesFromMessage` | src/main/java/crypto/recoverycode/IterativeCode.java:147-154 | the R + C + 1 bits after the R·C data bits |
| `IterativeCode.GetMessageWithoutRedundantBytes` | src/main/java/crypto/recoverycode/IterativeCode.java:216-219 | the first R·C bits, zero-padded past the end of the word |
| `IterativeCode.CalculateRedundantBytes` | src/main/java/crypto/recoverycode/IterativeCode.java:162-166 | the row parities, the column parities and the parity of the data, for the first R·C data bits |
| `IterativeCode.RedundantOfCodeWord` | src/main/java/crypto/recoverycode/IterativeCode.java:126-166 | the redundant cells of the encoded grid are the encoder's redundant bits |
| `IterativeCode.CodeWordPrefix` | src/main/java/crypto/recoverycode/IterativeCode.java:23-31 | the encoding reads only the first R·C message bits |
| `IterativeCode.TotalSumOfLayout` | src/main/java/crypto/recoverycode/IterativeCode.java:175-188 | the total sum of a received word's grid is the parity of its first R·C + R + C bits; the received corner is not counted |
| `IterativeCode.TotalSumIgnoresCorner` | src/main/java/crypto/recoverycode/IterativeCode.java:178-183 | grids that differ at most in the corner have the same total sum |
| `IterativeCode.GetSyndrome` | src/main/java/crypto/recoverycode/IterativeCode.java:196-208 | received XOR recomputed redundant bits, except that the last bit is the received grid's total sum XOR the recomputed corner |
| `IterativeCode.RecoveryAt` | src/main/java/crypto/recoverycode/IterativeCode.java:235-241 | recovery bit i·C + j is set exactly when row bit i and column bit j of the syndrome are both set |
| `IterativeCode.GetRecoveryBytes` | src/main/java/crypto/recoverycode/IterativeCode.java:227-244 | the empty array, a request to resend, when the last syndrome bit is 1; otherwise R·C recovery bits |
| `IterativeCode.Restore` | src/main/java/crypto/recoverycode/IterativeCode.java:251-259 | as many bits as there are recovery bits: the received bits XOR the recovery bits |
| `IterativeCode.RecoverMessage` | src/main/java/crypto/recoverycode/IterativeCode.java:251-259 | returns `Restore` of the received word and the recovery bits |
| `IterativeDecoding.Receive` | src/main/java/crypto/blueprint/Blueprint.java:227-236 | the receiving pipeline built from the IterativeCode methods computes the decoder's `Decode` |
| `IterativeDecoding.SyndromeForm` | src/main/java/crypto/recoverycode/IterativeCode.java:196-208 | the syndrome in terms of the received bits alone; the received corner bit plays no part |
| `IterativeDecoding.SyndromeXor` | src/main/java/crypto/recoverycode/IterativeCode.java:196-208 | the syndrome is linear |
| `IterativeDecoding.SyndromeOfCodeWord` | src/main/java/crypto/recoverycode/IterativeCode.java:196-208 | an unaltered code word has the zero syndrome |
| `IterativeDecoding.SyndromeOfReceived` | src/main/java/crypto/recoverycode/IterativeCode.java:196-208 | the syndrome of a code word plus errors e is the syndrome of e |
| `IterativeDecoding.SyndromeOfDataError` | src/main/java/crypto/recoverycode/IterativeCode.java:196-208 | a flipped data bit (i, j) sets row bit i and column bit j of the syndrome and leaves the last bit clear |
| `IterativeDecoding.SyndromeOfParityError` | src/main/java/crypto/recoverycode/IterativeCode.java:196-208 | a flipped row or column parity bit sets that bit and the last bit of the syndrome |
| `IterativeDecoding.SyndromeOfCornerError` | src/main/java/crypto/recoverycode/IterativeCode.java:204-205 | a flipped corner bit leaves the syndrome zero |
| `IterativeDecoding.RecoveryOfDataError` | src/main/java/crypto/recoverycode/IterativeCode.java:233-243 | the syndrome of data error (i, j) recovers exactly that cell |
| `IterativeDecoding.DecodeReceived` | src/main/java/crypto/blueprint/Blueprint.java:227-236 | decoding a code word with errors e gives a resend request when e's last syndrome bit is set, otherwise the data XOR e's recovery bits |
| `IterativeDecoding.DecodeRestores` | src/main/java/crypto/blueprint/Blueprint.java:227-236 | decoding returns the data whenever the errors' recovery bits are exactly their data errors |
| `IterativeDecoding.DecodeCodeWord` | src/main/java/crypto/blueprint/Blueprint.java:227-236 | a code word received without error decodes to its data |
| `IterativeDecoding.CorrectsDataError` | src/main/java/crypto/blueprint/Blueprint.java:212-236 | a single wrong data bit is corrected |
| `IterativeDecoding.ResendsOnParityError` | src/main/java/crypto/recoverycode/IterativeCode.java:227-231 | a single wrong row or column parity bit makes the receiver ask for the word again |
| `IterativeDecoding.IgnoresCornerError` | src/main/java/crypto/recoverycode/IterativeCode.java:204-205 | a wrong corner bit goes unnoticed and the data comes through unchanged |
| `BlockInterleaving.BlocksCover` | src/main/java/crypto/interleaving/BlockInterleaving.java:25 | ⌈len / k⌉ words of k bits cover the message, with fewer than k bits to spare |
| `BlockInterleaving.GetInformationBytesMatrix` | src/main/java/crypto/interleaving/BlockInterleaving.java:24-34 | ⌈len / k⌉ rows of k bits, row-major, with the last row zero-padded |
| `BlockInterleaving.InformationAt` | src/main/java/crypto/interleaving/BlockInterleaving.java:27-31 | bit j of word i is message bit i·k + j, or 0 past the end |
| `BlockInterleaving.MessageOfInformation` | src/main/java/crypto/interleaving/BlockInterleaving.java:149-158 | concatenating the information words gives the message followed by its padding |
| `BlockInterleaving.GetEncodedBytesMatrix` | src/main/java/crypto/interleaving/BlockInterleaving.java:45-57 | row i is `HammingCode.encodeMessage` of information word i under one shared check matrix |
| `BlockInterleaving.GetInterleavedSequence` | src/main/java/crypto/interleaving/BlockInterleaving.java:64-72 | with the intended bound, the word sends column by column: position i·B + j carries bit i of code word j |
| `BlockInterleaving.GetInterleavedSequenceAsWritten` | src/main/java/crypto/interleaving/BlockInterleaving.java:64-72 | with the bound as written, the interleaved word when B > n and an index-out-of-bounds failure otherwise |
| `BlockInterleaving.InterleavedAt` | src/main/java/crypto/interleaving/BlockInterleaving.java:68-70 | bit i·B + j of the interleaved word is bit i of code word j |
| `BlockInterleaving.DeinterleaveSequence` | src/main/java/crypto/interleaving/BlockInterleaving.java:81-91 | for n dividing the length, ⌈len / n⌉ rows with row j holding the bits j, j + B, j + 2B, … |
| `BlockInterleaving.DeinterleaveInterleaved` | src/main/java/crypto/interleaving/BlockInterleaving.java:64-91 | reading back an interleaved B × n matrix gives the matrix |
| `BlockInterleaving.InterleaveDeinterleaved` | src/main/java/crypto/interleaving/BlockInterleaving.java:64-91 | interleaving the matrix read back from a word gives the word |
| `BlockInterleaving.DeinterleaveXor` | src/main/java/crypto/interleaving/BlockInterleaving.java:81-91 | reading back a sum of words gives the sums of the rows |
| `BlockInterleaving.BurstSpreads` | src/main/java/crypto/interleaving/BlockInterleaving.java:86 | an error burst within any B consecutive positions puts at most one wrong bit into each read-back code word |
| `BlockInterleaving.RecoverEncodedBytesMatrix` | src/main/java/crypto/interleaving/BlockInterleaving.java:102-124 | with the intended (k, r) arguments, every row through the Hamming decoder: the row XOR its recovery word |
| `BlockInterleaving.RecoverWord` | src/main/java/crypto/interleaving/BlockInterleaving.java:105-121 | one pass of the recovery loop is the Hamming decoder on the row's first k + r bits |
| `BlockInterleaving.RowSyndrome` | src/main/java/crypto/interleaving/BlockInterleaving.java:105-114 | the syndrome the loop computes for a row is its Hamming syndrome |
| `BlockInterleaving.RecoveredRow` | src/main/java/crypto/interleaving/BlockInterleaving.java:102-124 | a received code word with at most one error is restored |
| `BlockInterleaving.DecodeBytesMatrix` | src/main/java/crypto/interleaving/BlockInterleaving.java:131-140 | keeps exactly the first k bits of each row |
| `BlockInterleaving.DecodeEncoded` | src/main/java/crypto/interleaving/BlockInterleaving.java:45-57 | decoding an encoded matrix gives back exactly the information words |
| `BlockInterleaving.GetMessageSequence` | src/main/java/crypto/interleaving/BlockInterleaving.java:149-158 | the rows, each cut to the first row's length, one after another |
| `BlockInterleaving.CorrectsBurst` | src/main/java/crypto/blueprint/Blueprint.java:437-456 | encoding, interleaving, a burst of at most B wrong bits, reading back, recovering and decoding return the message followed by its padding |
| `BlockInterleaving.ProbeInside` | src/main/java/crypto/recoverycode/HammingCode.java:142-154 | the recovery scan called with (k, r) never reads outside the syndrome or the matrix |
| `BlockInterleaving.IntendedScanSafe` | src/main/java/crypto/recoverycode/HammingCode.java:138-157 | the recovery scan called with (k, r) never fails |
| `BlockInterleaving.ProbeNeverMatches` | src/main/java/crypto/recoverycode/HammingCode.java:142-154 | when the scan expects more rows than the syndrome has, each column probe runs off the syndrome before it can match |
| `BlockInterleaving.SwappedScanFrom` | src/main/java/crypto/interleaving/BlockInterleaving.java:116-117 | the scan with (r, n) matches no column and reaches column n, past the matrix |
| `BlockInterleaving.SwappedRecoveryThrows` | src/main/java/crypto/interleaving/BlockInterleaving.java:116-117 | the call as written, with (r, n), fails for every syndrome and every k, r ≥ 1, while the (k, r) call does not |
| `MatrixUtil.JavaRem` | src/main/java/crypto/util/MatrixUtil.java:28 | Java's `%`: the remainder takes the sign of the dividend |
| `MatrixUtil.RowSum` | src/main/java/crypto/util/MatrixUtil.java:23-31 | row1[i] becomes Java's (row1[i] + row2[i]) % 2 for every i, with the sum wrapped to 32 bits as Java's `int` addition wraps; nothing changes when the lengths differ; row2 is unchanged |
| `MatrixUtil.Wrap32` | src/main/java/crypto/util/MatrixUtil.java:28 | the result of Java's `int` addition: in [−2^31, 2^31), congruent to the exact sum modulo 2^32, and equal to it when the sum fits |
| `MatrixUtil.RowSumWraps` | src/main/java/crypto/util/MatrixUtil.java:28-29 | the wrap shows in `rowSum`: row1 = [2147483647] plus row2 = [2] leaves [−1], not [1] |
| `MatrixUtil.RowSumOfBits` | src/main/java/crypto/util/MatrixUtil.java:27-30 | on bit rows of equal length `rowSum` is addition over GF(2) |
| `MatrixUtil.RowSumTwice` | src/main/java/crypto/util/MatrixUtil.java:27-30 | adding the same bit row twice restores row1 |
| `MatrixUtil.SwapTwoRows` | src/main/java/crypto/util/MatrixUtil.java:10-16 | exchanges row1[i] and row2[i] for i < row1.length and leaves the rest of row2 alone |
| `MatrixUtil.FirstDiff` | src/main/java/crypto/util/MatrixUtil.java:45-53 | the first column where two words differ, with everything before it equal |
| `MatrixUtil.LexLessAsym` | src/main/java/crypto/util/MatrixUtil.java:45-53 | the sort's order is asymmetric |
| `MatrixUtil.LexTotal` | src/main/java/crypto/util/MatrixUtil.java:45-53 | two words of equal length are equal or ordered one way or the other |
| `MatrixUtil.LexLeqTrans` | src/main/java/crypto/util/MatrixUtil.java:45-53 | "not after" is transitive |
| `MatrixUtil.SortMatrixByAlphabet` | src/main/java/crypto/util/MatrixUtil.java:39-58 | the rows are a permutation of the old rows, and adjacent rows are in lexicographic order over their first `matrix.length` columns |
| `MatrixUtil.BubblePass` | src/main/java/crypto/util/MatrixUtil.java:43-56 | one inner pass keeps the multiset of rows and extends the sorted suffix that dominates the rest by one row |
| `MatrixUtil.OrderAdjacent` | src/main/java/crypto/util/MatrixUtil.java:44-55 | rows j and j + 1 are exchanged exactly when row j + 1 comes strictly first |
| `MatrixUtil.Follows` | src/main/java/crypto/util/MatrixUtil.java:45-53 | the comparison says whether row1 comes strictly after row2, decided at the first differing column |
| `MatrixUtil.BubbleStep` | src/main/java/crypto/util/MatrixUtil.java:44-55 | one comparison keeps the sorted suffix and moves the maximum of the unsorted rows one place on |
| `MatrixUtil.ExtendSorted` | src/main/java/crypto/util/MatrixUtil.java:42-57 | a maximum placed before the sorted suffix extends it |
| `MatrixUtil.SwapKeepsMultiset` | src/main/java/crypto/util/MatrixUtil.java:10-16 | exchanging two neighbours keeps the multiset of rows |
| `MessageUtil.ToBinaryString` | src/main/java/crypto/util/MessageUtil.java:21 | a binary numeral without leading zeros |
| `MessageUtil.ValueOfBinaryString` | src/main/java/crypto/util/MessageUtil.java:21 | the numeral of x denotes x |
| `MessageUtil.BinaryStringFits` | src/main/java/crypto/util/MessageUtil.java:22-24 | below 2^w the numeral has at most w digits |
| `MessageUtil.BinaryStringOverflows` | src/main/java/crypto/util/MessageUtil.java:22-24 | from 2^w on the numeral has more than w digits |
| `MessageUtil.PaddingTerminates` | src/main/java/crypto/util/MessageUtil.java:22-24 | the padding loop can end exactly when the character's code is below 256 |
| `MessageUtil.PaddedNumeral` | src/main/java/crypto/util/MessageUtil.java:21-24 | the numeral left-padded with zeros to 8 digits is the character's 8-bit big-endian form |
| `MessageUtil.PadNumeral` | src/main/java/crypto/util/MessageUtil.java:22-24 | the loop puts '0's in front until there are 8 digits |
| `MessageUtil.ConvertMessageToByteArray` | src/main/java/crypto/util/MessageUtil.java:14-31 | for characters below 256, the 8-bit big-endian forms of the characters, in order (empty for the empty message) |
| `MessageUtil.SerializeBlock` | src/main/java/crypto/util/MessageUtil.java:20-26 | block i of the output is the 8-bit form of character i |
| `MessageUtil.SerializeAppend` | src/main/java/crypto/util/MessageUtil.java:20-26 | serialising a concatenation concatenates the serialisations |
| `MessageUtil.DigitsAppend` | src/main/java/crypto/util/MessageUtil.java:28 | the digits of a concatenated numeral are the bits of the parts |
| `MessageUtil.ValueOfByteBits` | src/main/java/crypto/util/MessageUtil.java:21-24 | the w-bit form of a number below 2^w has that number as its value |
| `MessageUtil.ByteBitsOfValue` | src/main/java/crypto/util/MessageUtil.java:21-24 | a word is the fixed-width form of its own value |
| `MessageUtil.CharBitsRoundTrip` | src/main/java/crypto/util/MessageUtil.java:14-31 | a character below 256 can be read back from its 8 bits |
| `MessageUtil.DeserializeSerialize` | src/main/java/crypto/util/MessageUtil.java:14-31 | reading the bits of byte text back gives the text |
| `MessageUtil.SerializeInjective` | src/main/java/crypto/util/MessageUtil.java:14-31 | different byte texts serialise to different bits |
| `PrefixCode.EncodeMessage` | src/main/java/crypto/compress/HoffmanCode.java:73-79 | the in-order concatenation of the characters' code words ("null" for a character without one) |
| `PrefixCode.EncodeAppend` | src/main/java/crypto/compress/HoffmanCode.java:76 | encoding maps concatenation to concatenation |
| `PrefixCode.EncodeCons` | src/main/java/crypto/compress/HoffmanCode.java:76 | encoding a message that starts with c starts with c's code word |
| `PrefixCode.EncodeLength` | src/main/java/crypto/compress/HoffmanCode.java:76 | the encoded length is the sum of the code lengths of the message's characters |
| `PrefixCode.FirstKeyWith` | src/main/java/crypto/compress/HoffmanCode.java:94-95 | the first key in iteration order whose code word is the buffer, or none when no key has it |
| `PrefixCode.PickIsKey` | src/main/java/crypto/compress/HoffmanCode.java:93-95 | after the `containsValue` check the emitted character is a key whose code word matched; the '^' fallback is unreachable |
| `PrefixCode.FindFirstKey` | src/main/java/crypto/compress/HoffmanCode.java:94-95 | the first matching key in iteration order, or '^' |
| `PrefixCode.DecodeMessage` | src/main/java/crypto/compress/HoffmanCode.java:86-101 | the buffer-matching loop computes the decoder `Decode` |
| `PrefixCode.DecodedAreKeys` | src/main/java/crypto/compress/HoffmanCode.java:91-98 | every emitted character is a key of the table |
| `PrefixCode.DropsUnmatched` | src/main/java/crypto/compress/HoffmanCode.java:91-100 | symbols that never complete a code word are dropped |
| `PrefixCode.ConsumeCode` | src/main/java/crypto/compress/HoffmanCode.java:91-97 | reading the rest of c's code word emits c and clears the buffer |
| `PrefixCode.DecodeEncodedPrefix` | src/main/java/crypto/compress/HoffmanCode.java:73-101 | an encoded message followed by more symbols decodes to the message, then the decoding of the rest |
| `PrefixCode.DecodeEncode` | src/main/java/crypto/blueprint/Blueprint.java:383-385 | for a prefix-free table covering the message, decode(encode(m)) == m |
| `PrefixCode.DecodeWithTrailingBits` | src/main/java/crypto/compress/HoffmanCode.java:91-100 | trailing symbols that never complete a code word are lost, and nothing else is |
| `HoffmanCode.EncodeMessageByHoffman` | src/main/java/crypto/compress/HoffmanCode.java:73-79 | the prefix-code encoding of the message under the Hoffman table |
| `HoffmanCode.DecodeMessageByHoffman` | src/main/java/crypto/compress/HoffmanCode.java:86-101 | the prefix-code decoding of the received string under the Hoffman table, in the table's key order |
| `ShannonFanoCode.EncodeMessageByShannonFano` | src/main/java/crypto/compress/ShannonFanoCode.java:76-82 | the prefix-code encoding of the message under the Shannon–Fano table |
| `ShannonFanoCode.DecodeMessageByShannonFano` | src/main/java/crypto/compress/ShannonFanoCode.java:90-105 | the prefix-code decoding of the received string under the Shannon–Fano table, in the table's key order |
| `LempelZiv.ShiftOne` | src/main/java/crypto/compress/LempelZivCompress.java:150-154 | every cell takes its right neighbour's value and the last takes the new character; a one-cell array is unchanged |
| `LempelZiv.ShiftLeft` | src/main/java/crypto/compress/LempelZivCompress.java:147-166 | the dictionary takes in the buffer's head, the buffer the message's head, and the message a NUL; all lengths are kept |
| `LempelZiv.WindowsShift` | src/main/java/crypto/compress/LempelZivCompress.java:147-166 | one three-array shift moves the dictionary, buffer and message windows one position along the stream |
| `LempelZiv.ShiftLeftBy` | src/main/java/crypto/compress/LempelZivCompress.java:174-183 | count NUL-filling shifts |
| `LempelZiv.ShiftLeftToDecodedMessage` | src/main/java/crypto/compress/LempelZivCompress.java:190-203 | count shifts, each emitting the buffer's head unless it is NUL |
| `LempelZiv.FillBuffer` | src/main/java/crypto/compress/LempelZivCompress.java:130-140 | buffer cell i takes the message's head after i shifts, and the message is shifted once per cell |
| `LempelZiv.FillBufferRest` | src/main/java/crypto/compress/LempelZivCompress.java:130-140 | a message of two or more characters is left holding its rest followed by NULs |
| `LempelZiv.FillBufferHead` | src/main/java/crypto/compress/LempelZivCompress.java:130-140 | buffer cell i receives message character i, NUL past the end |
| `LempelZiv.PushNOfSingle` | src/main/java/crypto/compress/LempelZivCompress.java:130-140 | a message of one character is never shifted |
| `LempelZiv.HasChar` | src/main/java/crypto/compress/LempelZivCompress.java:101-108 | 1 + the index of the first occurrence of the symbol, 0 when it is absent |
| `LempelZiv.PositionSpec` | src/main/java/crypto/compress/LempelZivCompress.java:101-108 | 0 exactly when the symbol is absent, and otherwise just past its first occurrence |
| `LempelZiv.GetSequenceLength` | src/main/java/crypto/compress/LempelZivCompress.java:114-123 | the length of the common prefix of the dictionary from the position on and the buffer, capped at the end of the dictionary |
| `LempelZiv.MatchFromSpec` | src/main/java/crypto/compress/LempelZivCompress.java:114-123 | up to the match end the two agree, and there they differ unless one has ended |
| `LempelZiv.TriadForSpec` | src/main/java/crypto/compress/LempelZivCompress.java:36-50 | p is 0 exactly when the buffer's head is not in the dictionary, and otherwise just past its first occurrence; the q dictionary characters from p − 1 on are the first q of the buffer; c is the character after the match |
| `LempelZiv.HeadBounds` | src/main/java/crypto/compress/LempelZivCompress.java:38-44 | q is 0 exactly when p is |
| `LempelZiv.TriadBounds` | src/main/java/crypto/compress/LempelZivCompress.java:34-59 | every triad written has 0 ≤ p ≤ capacity and q ≤ capacity, with q = 0 exactly when p = 0 |
| `LempelZiv.FindMatch` | src/main/java/crypto/compress/LempelZivCompress.java:38-39 | p and q as `hasChar` and `getSequenceLength` give them are the triad's p and q |
| `LempelZiv.CompressStep` | src/main/java/crypto/compress/LempelZivCompress.java:36-52 | one iteration writes the stream's head triad and moves the windows q + 1 positions on |
| `LempelZiv.Compress` | src/main/java/crypto/compress/LempelZivCompress.java:22-62 | for capacity ≥ 2 and a message of two or more characters, the text of the triads the compressor writes |
| `LempelZiv.DecodeTriadInBuffer` | src/main/java/crypto/compress/LempelZivCompress.java:210-224 | q copies of buffer[p − 1] and then c are shifted into the buffer, emitting the non-NUL characters that leave it; no result when p − 1 is outside the buffer |
| `LempelZiv.DecodeRound` | src/main/java/crypto/compress/LempelZivCompress.java:78-88 | one triad read and decoded, three characters consumed, or a failure where `parseInt` or the copy throws |
| `LempelZiv.Flush` | src/main/java/crypto/compress/LempelZivCompress.java:90-92 | the final loop emits the buffer up to its first NUL |
| `LempelZiv.Decompress` | src/main/java/crypto/compress/LempelZivCompress.java:71-95 | for capacity ≥ 2, the decompressed text, or failure where the Java code throws |
| `LempelZiv.DecompressCompress` | src/main/java/crypto/blueprint/Blueprint.java:414-415 | for a NUL-free message at least as long as the capacity and 2 ≤ capacity ≤ 9, decompressing the compressed text gives the message back |
| `LempelZiv.EarlyStopLosesMessage` | src/main/java/crypto/compress/LempelZivCompress.java:90-92 | when the triads together cover fewer characters than the capacity (the compressor stops before time `capacity`), the flush drops the whole message (the lemma admits one-character messages too; for those it is about the model's `Compressed` stream only, since Java never finishes compressing one character) |
| `LempelZiv.LateStopKeepsMessage` | src/main/java/crypto/compress/LempelZivCompress.java:90-92 | the converse of `EarlyStopLosesMessage`: when the triads cover at least the capacity, the flushed output is the whole message, of any length (for one character a statement about the model's `Compressed` stream only, since Java never finishes compressing one character) |
| `LempelZiv.ShortMessageLost` | src/main/java/crypto/compress/LempelZivCompress.java:90-92 | "ab" with capacity 3 compresses to "00a00b", which decompresses to the empty string |
| `LempelZiv.ShortMessageKept` | src/main/java/crypto/compress/LempelZivCompress.java:90-92 | "aa" with capacity 3 is shorter than the capacity and still decompresses to "aa": its second triad copies one character, so the triads cover three characters and the flush meets a, a, NUL |
| `LempelZiv.DecompressCompressAll` | src/main/java/crypto/compress/LempelZivCompress.java:71-95 | with a flush that emits every non-NUL buffer character, the round trip holds for every NUL-free message of two or more characters (every message the Java compressor finishes on) and 2 ≤ capacity ≤ 9; the lemma also admits a one-character message, which is a statement about the model's `Compressed` stream only, since the Java loop never ends on one character |

## Left out

- Console output is not modelled. This covers every `printUtil` call and `HammingCode.printEncodedMessage`.
- The demo harness is not modelled: `Blueprint.java` with its random bit flips and its float formula for r, `Runner.java` and `PrintUtil.java`. It is cited only to show how the methods are meant to be chained.
- Arithmetic coding, `EntropyUtil` and `FrequencyOfLetter` are not modelled. They work on floating-point probabilities and files.
- `generateHoffmanBinaryCodes` and `generateShannonFanoBinaryCodes` are not modelled, because they split the alphabet on floating-point probabilities. The code table is an input of the model.
- The key order of a Java `HashMap` is not modelled. When several keys share a code word, the decoder's choice depends on that order, which is the parameter `order`.
- The float tests of `getCheckMatrix` ("j / 2^i is whole", "log2 j is whole") are modelled as the integer tests they stand for. These are "2^i divides j" and "j is a power of two".
- The `Math.ceil` row counts of the interleaver are modelled as integer ceiling division.
- Parameters that the Java methods accept but never read are dropped. An example is the code-word length of `getEncodedBytesMatrix`.
- The `syndromeMatrix` that `recoverEncodedBytesMatrix` fills but never reads is not modelled.
- BlockInterleaving.RecoverWord: the inline XOR loop of `recoverEncodedBytesMatrix` reuses `HammingCode.RecoverMessage`, which computes the same XOR.
- `Integer.parseInt` is modelled on ASCII digits only. Non-ASCII Unicode digits, which Java also accepts, are not modelled.
- Java `char` is a UTF-16 code unit and Dafny `char` a Unicode scalar value. The model has no lone surrogates. It treats a character outside the Basic Multilingual Plane as one symbol, where `chars()` (HoffmanCode.java:76, ShannonFanoCode.java:79) and `toCharArray()` (LempelZivCompress.java:27, 73) see two code units: Java's prefix encoder looks up each half, typically appending "null" twice, and the LZ arrays give it two cells. The model agrees with Java on strings of Basic Multilingual Plane characters.
- Java exceptions are not modelled as exceptions. They become `None` in `Decompress` and `GetInterleavedSequenceAsWritten`; elsewhere the model's precondition excludes them. Each method's preconditions are listed below, with what Java does outside them. Where a precondition is a sufficient condition rather than Java's exact one, the line says so.
- HammingCode.GetCheckMatrix: k and r are naturals in the model, so negative arguments are not modelled; Java throws on them (NegativeArraySizeException at HammingCode.java:21 when r < 0 or k + r < 0, ArrayIndexOutOfBoundsException at HammingCode.java:43 when r ≥ 1 and −r ≤ k < 0). Every pair of naturals is accepted.
- HammingCode.EncodeMessage: requires at least r check-matrix rows of at least k entries and a message of at least k bits. Java reads `message[i]` for every i < k and `checkMatrix[i][j]` for i < r, j < k, and throws when one is missing.
- HammingCode.CalculateRedundantBytes: requires at least r check-matrix rows of at least k entries and a message of at least k bits. Java reads these cells for r ≥ 1 and throws when one is missing; with r = 0 it reads nothing, so the message-length requirement is sufficient rather than exact there.
- HammingCode.GetRedundantBytes: requires k + r ≤ |message|. A shorter message makes `arraycopy` throw.
- HammingCode.GetSyndrome: requires the recomputed bits to be at least as many as the received ones. Java indexes both up to the received length and throws otherwise.
- HammingCode.GetRecoveryBytes: requires a syndrome of at least r bits and at least r check-matrix rows of at least k + r entries. These are sufficient conditions: Java's scan stops at the first mismatch in each column, so it throws only when it reaches a missing cell.
- HammingCode.RecoverMessage: requires at least as many recovery bits as message bits. Java indexes both up to the message length and throws otherwise.
- ModifiedHammingCode.ModifyCheckMatrix: requires a nonempty rectangular input. Java also accepts ragged rows: a row shorter than row 0 is copied and zero-padded, and a row of exactly n + 1 entries also fills the new column. It throws only for a row longer than n + 1 (ModifiedHammingCode.java:23-27). Ragged inputs are not modelled.
- ModifiedHammingCode.SumMatrixColumn: requires a matrix of at least one row, as `matrix[0]` demands.
- CycleCode.PolynomialDivision: requires a divisor whose leading coefficient is 1 and whose degree is at least 1. With any other divisor the Java code does not terminate or throws: a degree-0 divisor, or the word [1,0,0,0,0] under g = [0,1,1], loops forever, while the word [0,0,0,1,0] under g = [0,1,1] writes past the end of the array at CycleCode.java:173.
- CycleCode.Encode: requires k ≤ |message| and k ≤ n (Java reads `polynomial[i]` for i < k and allocates n − k redundant bits), a divisor as for `PolynomialDivision`, and a trimmed remainder that fits the n − k redundant positions; otherwise `arraycopy` throws. `RemainderFitsShortDivisor` shows that the fit always holds for a divisor of degree at most n − k.
- CycleCode.CalculateSyndrome: requires a divisor as for `PolynomialDivision` and k ≤ |word|. For k > |word| `copyOfRange` throws.
- CycleCode.GetRedundantBytes: requires k ≤ |word|. For k > |word| `copyOfRange` throws.
- CycleCode.GetGeneratingMatrix: requires k ≤ n and, when k ≥ 1, a generating polynomial of at least n − k + 1 coefficients. A larger k gives a negative array size, and a shorter polynomial throws in the shift loop.
- CycleCode.FormatGeneratingMatrix: requires distinct row objects and rows of one width at least the number of rows. Java reads `generatingMatrix[i][j]` for j < the row count, and `rowSum` does nothing on rows of different widths; aliased or ragged matrices are not modelled.
- CycleCode.GetRecoveryBytes: requires 1 ≤ |G| ≤ |G[0]| and rows of at least k + |syndrome| entries. `generatingMatrix[0]` needs the first; the others are sufficient conditions, since Java's scan breaks at the first mismatch and writes `recoveryBytes[i]` only for a matching row i.
- CycleCode.CorrectsSingleError: holds under the hypothesis `SeparatesUnits`, that the unit code words have pairwise different redundant parts with at least two ones each. The Java code assumes a suitable generating polynomial and does not check this.
- IterativeCode.CalculateTotalSum: requires every row to be at least as wide as row 0. Java reads `matrix[i][j]` for j < `matrix[0].length` and throws on a narrower row, except that the last row may be one shorter.
- IterativeCode.BuildMatrix: requires R·C ≤ |message|. Java reads `message[i·C + j]` for every data cell and throws on a shorter message.
- IterativeCode.AddRedundantBytes: requires at least R rows each of at least C entries. Java reads every one of those cells.
- IterativeCode.GetMatrixWithoutRedundantBytes: requires at least R rows. Java reads `matrix[i]` for i < R.
- IterativeCode.ConvertMatrixToMessage: requires more than R rows, and rows 0 … R with more than C entries each. Java reads row R and column C of them.
- IterativeCode.ConvertMessageToMatrix: requires R·C + R + C ≤ |word| and |word| ≥ 1. Java reads the row and column parities and the last bit, and throws otherwise.
- IterativeCode.GetRedundantBytesFromMatrix: requires more than R rows, and rows 0 … R with more than C entries each. Java reads column C of them.
- IterativeCode.GetRedundantBytesFromMessage: requires R·C + R + C + 1 ≤ |word|. A shorter word makes `arraycopy` throw.
- IterativeCode.CalculateRedundantBytes: requires R·C ≤ |data|, as for `BuildMatrix`.
- IterativeCode.GetSyndrome: requires 1 ≤ |received| ≤ |recomputed| and a word of at least R·C + R + C bits, at least 1. Java writes `syndrome[length − 1]` and lays out the word as `convertMessageToMatrix` does, and throws otherwise.
- IterativeCode.GetRecoveryBytes: requires a nonempty syndrome and, when it is not a resend and C ≥ 1, at least R + C + 1 bits. This is sufficient rather than exact: Java reads `syndrome[R + j]` only after `syndrome[i]` was 1.
- IterativeDecoding.Receive: requires a received word of at least R·C + R + C + 1 bits, the union of what the chained IterativeCode methods need.
- BlockInterleaving.GetInformationBytesMatrix: requires k ≥ 1. For k = 0 Java divides by zero in floating point (infinity, or NaN for an empty message) and asks for `Integer.MAX_VALUE` rows or none; this is not modelled.
- BlockInterleaving.GetEncodedBytesMatrix: requires every information word to have at least k bits. `encodeMessage` reads k bits of each and throws on a shorter word.
- BlockInterleaving.GetInterleavedSequence: requires a nonempty rectangular matrix. For an empty matrix `encodedBytesMatrix[0]` throws; ragged matrices are not modelled.
- BlockInterleaving.GetInterleavedSequenceAsWritten: requires a nonempty rectangular matrix, as `GetInterleavedSequence` does.
- BlockInterleaving.DeinterleaveSequence: requires n ≥ 1 and a nonempty word whose length is a multiple of n. Otherwise the Java loop reads past the end of the word (or, for n = 0, divides by zero).
- BlockInterleaving.RecoverEncodedBytesMatrix: states the intended (k, r) call (the call as written always throws, see "## Findings"). It requires a nonempty matrix (for `encodedMatrix[0]`), rows of at least k + r bits (for `getRedundantBytes`), and a row 0 of exactly k + r bits. The XOR loop runs over the width of row 0 and indexes the k + r recovery bits, so a wider row 0 throws.
- BlockInterleaving.DecodeBytesMatrix: requires every row to have at least k bits. A shorter row makes `arraycopy` throw.
- BlockInterleaving.GetMessageSequence: requires a nonempty matrix whose rows are at least as wide as row 0. For an empty matrix `decodedBytesMatrix[0]` throws, and a narrower row makes `arraycopy` throw.
- MatrixUtil.SwapTwoRows: requires row2 to be at least as long as row1. A shorter row2 throws.
- MatrixUtil.SortMatrixByAlphabet: requires distinct row objects and, for two or more rows, all rows of one width at least the number of rows. Java reads column k of two neighbours only while they agree before k (MatrixUtil.java:47-53), so a narrow row throws only when it agrees with its neighbour up to its own end. With rows of different widths, `swapTwoRows` exchanges only a prefix (or throws when the second row is shorter), so the result is no longer a permutation of the rows (MatrixUtil.java:10-16). Neither ragged nor aliased matrices are modelled.
- MessageUtil.PadNumeral: requires a numeral of at most 8 digits. On a longer numeral the Java padding loop never ends.
- MessageUtil.ConvertMessageToByteArray: requires every character code to be below 256. For a larger code the padding loop never ends, as `PaddingTerminates` states.
- LempelZiv.ShiftLeft: requires three distinct arrays, with a nonempty buffer and message. Java reads `buffer[0]` and `message[0]` when the arrays before them have at least two cells, so these are sufficient conditions.
- LempelZiv.FillBuffer: requires distinct arrays and a nonempty message. Java reads `message[0]`.
- LempelZiv.ShiftLeftToDecodedMessage: requires a nonempty buffer. Java reads `buffer[0]`.
- LempelZiv.GetSequenceLength: requires a buffer at least as long as the dictionary. This is sufficient: Java reads `buffer[i]` only up to the first mismatch.
- LempelZiv.DecodeTriadInBuffer: requires distinct, nonempty arrays. Its failure result covers the throwing `buffer[p − 1]`.
- LempelZiv.Flush: requires a buffer of at least two cells. With one cell the Java loop never ends on a non-NUL buffer.
- LempelZiv.Compress: requires capacity ≥ 2 and a message of two or more characters. With capacity 1 or a one-character message the Java loop never ends, and an empty message throws.
- LempelZiv.Decompress: requires capacity ≥ 2. With capacity 1 the final flush never ends on a full buffer.
- LempelZiv.DecompressCompress: proved for NUL-free messages and 2 ≤ capacity ≤ 9, so that p and q are single digits, and for messages at least as long as the capacity. Shorter messages survive exactly when the triads cover at least the capacity (see "## Findings"); `DecompressCompressAll` covers them with the intended flush.
- The loop bodies and setup steps split out of the Java methods are stated and proved on their own, with the preconditions of the loop they come from. Among them are `CompressLoop`, `CompressRound`, `ShiftMatch`, `ShiftStep`, `AppendTriad`, `CompressArrays`, `EmitAndTake`, `CopyRow`, `CopyDataRow`, `CopyRedundant`, `CopyRedundantCells`, `CopyWord`, `WriteColumn` and `NewMatrix`.

## Findings

| source | as written | input that shows it | evidently intended | confidence | as-written member | corrected member |
|---|---|---|---|---|---|---|
| src/main/java/crypto/interleaving/BlockInterleaving.java:66 | the inner loop bound is `encodedBytesMatrix[i].length`; the loop test reads row i for every i < n and throws unless there are more code words B than bits per word n | B = 1 code word of n = 7 bits | bound by the length of row 0, so every B × n matrix interleaves | not executed | `BlockInterleaving.GetInterleavedSequenceAsWritten` | `BlockInterleaving.GetInterleavedSequence` |
| src/main/java/crypto/interleaving/BlockInterleaving.java:116-117 | `getRecoveryBytes(syndrome, H, r, n)` passes (r, n) where the signature expects (k, r); the scan runs off the syndrome or reaches column n, past the matrix, and always throws | any k, r ≥ 1, e.g. k = 4, r = 3 | `getRecoveryBytes(syndrome, H, k, r)` | not executed | `BlockInterleaving.SwappedRecoveryThrows` | `BlockInterleaving.RecoverEncodedBytesMatrix` |
| src/main/java/crypto/compress/LempelZivCompress.java:90-92 | the final flush stops at the first NUL in the buffer; when the compressor's triads cover fewer characters than the capacity, the buffer still starts with NUL and the whole message is lost; this can happen only to a message shorter than the capacity, and not to every one ("aa" with capacity 3 survives, `LempelZiv.ShortMessageKept`) | "ab" with capacity 3 compresses to "00a00b", which decompresses to "" | emit every non-NUL character left in the buffer | not executed | `LempelZiv.ShortMessageLost` | `LempelZiv.DecompressCompressAll` |
