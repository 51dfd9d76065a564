/**
 * The cyclic code: a message of k bits is extended to a code word of n bits
 * by the remainder of its division by a generating polynomial g, the
 * received word is checked by dividing it again, and the syndrome is looked
 * up among the redundant parts of the rows of a systematic generating
 * matrix.  Polynomials are bit words with the highest power first.
 */
module CycleCode {
  import opened Bits
  import opened Polynomials
  import opened MatrixUtil

  // ---------------------------------------------------------------------------
  // Helpers on polynomials
  // ---------------------------------------------------------------------------

  /** The degree of a polynomial, scanning for its leading one. */
  method GetPolyDegree(polynomial: seq<Bit>) returns (degree: int)
    ensures degree == Degree(polynomial)
  {
    for i := 0 to |polynomial|
      invariant forall t :: 0 <= t < i ==> polynomial[t] == 0
    {
      if polynomial[i] == 1 {
        return |polynomial| - 1 - i;
      }
    }
    return 0;
  }

  /** The number of leading zeros of a polynomial, |polynomial| - 1 when it has no one. */
  method GetPolyOffset(polynomial: seq<Bit>) returns (offset: int)
    ensures offset == Offset(polynomial)
  {
    for i := 0 to |polynomial|
      invariant forall t :: 0 <= t < i ==> polynomial[t] == 0
    {
      if polynomial[i] == 1 {
        return i;
      }
    }
    return |polynomial| - 1;
  }

  /** The polynomial without its leading zeros; [0] when it is zero. */
  method TrimPolyZero(polynomial: seq<Bit>) returns (trimmed: seq<Bit>)
    ensures trimmed == Trim(polynomial)
  {
    var trimTo := 0;
    for i := 0 to |polynomial|
      invariant trimTo == 0 && (|polynomial| == 0 || i < |polynomial|)
      invariant forall t :: 0 <= t < i ==> polynomial[t] == 0
    {
      if polynomial[i] == 1 {
        trimTo := i;
        break;
      } else if i == |polynomial| - 1 {
        FirstOneAt(polynomial, |polynomial|);
        return [0];
      }
    }
    FirstOneAt(polynomial, trimTo);
    var trimmedPoly := new Bit[|polynomial| - trimTo];
    for i := trimTo to |polynomial|
      modifies trimmedPoly
      invariant forall t :: trimTo <= t < i ==> trimmedPoly[t - trimTo] == polynomial[t]
    {
      trimmedPoly[i - trimTo] := polynomial[i];
    }
    trimmed := trimmedPoly[..];
    assert trimmed == polynomial[trimTo..];
  }

  // ---------------------------------------------------------------------------
  // Division
  // ---------------------------------------------------------------------------

  /**
   * Divides firstPoly by secondPoly: while the degree of the running word is at
   * least that of the divisor, the divisor is placed under the leading one
   * and added.  The result is the remainder: reduced, and differing from
   * the input by the combination of shifts of the divisor that the steps
   * added.
   */
  method PolynomialDivision(firstPoly: seq<Bit>, secondPoly: seq<Bit>) returns (rest: seq<Bit>)
    requires Divisor(secondPoly)
    ensures rest == Mod(firstPoly, secondPoly)
    ensures Reduced(rest, secondPoly)
  {
    var N := |firstPoly|;
    var resultPoly := new Bit[N](i requires 0 <= i < N => firstPoly[i]);
    var divPoly := new Bit[N](_ => 0);
    ReducedIffDegree(firstPoly, secondPoly);
    var degree := GetPolyDegree(resultPoly[..]);
    var divisorDegree := GetPolyDegree(secondPoly);
    var degreeDifference := degree - divisorDegree;
    assert resultPoly[..] == firstPoly;
    while degreeDifference >= 0
      invariant Mod(resultPoly[..], secondPoly) == Mod(firstPoly, secondPoly)
      invariant degreeDifference == Degree(resultPoly[..]) - (|secondPoly| - 1)
      decreases N - FirstOne(resultPoly[..])
    {
      ghost var w := resultPoly[..];
      SubtractShifted(resultPoly, divPoly, secondPoly);
      StepProgress(w, secondPoly);
      degree := GetPolyDegree(resultPoly[..]);
      divisorDegree := GetPolyDegree(secondPoly);
      degreeDifference := degree - divisorDegree;
    }
    rest := resultPoly[..];
    ReducedIffDegree(rest, secondPoly);
  }

  /** The body of the division loop: one step of the division, in place. */
  method SubtractShifted(resultPoly: array<Bit>, divPoly: array<Bit>, secondPoly: seq<Bit>)
    requires resultPoly != divPoly && resultPoly.Length == divPoly.Length
    requires Divisor(secondPoly) && Degree(resultPoly[..]) >= |secondPoly| - 1
    modifies resultPoly, divPoly
    ensures resultPoly[..] == Step(old(resultPoly[..]), secondPoly)
  {
    ghost var w := resultPoly[..];
    for i := 0 to divPoly.Length
      modifies divPoly
      invariant forall t :: 0 <= t < i ==> divPoly[t] == 0
    {
      divPoly[i] := 0;
    }
    assert resultPoly[..] == w;
    var offset := GetPolyOffset(resultPoly[..]);
    for i := 0 to |secondPoly|
      modifies divPoly
      invariant forall t :: 0 <= t < divPoly.Length ==>
        divPoly[t] == if offset <= t < offset + i then secondPoly[t - offset] else 0
    {
      divPoly[offset + i] := secondPoly[i];
    }
    assert divPoly[..] == Placed(secondPoly, offset, |w|);
    for i := 0 to divPoly.Length
      modifies resultPoly
      invariant forall t :: 0 <= t < i ==> resultPoly[t] == XorBit(w[t], divPoly[t])
      invariant forall t :: i <= t < resultPoly.Length ==> resultPoly[t] == w[t]
    {
      var sum := resultPoly[i] as int + divPoly[i] as int;
      if sum % 2 == 0 {
        sum := 0;
      }
      resultPoly[i] := sum;
    }
    assert resultPoly[..] == Xor(w, divPoly[..]);
  }

  // ---------------------------------------------------------------------------
  // Encoding and the syndrome
  // ---------------------------------------------------------------------------

  /** The first k message bits followed by n - k zeros: the message times x^(n - k). */
  function MainPoly(polynomial: seq<Bit>, k: nat, n: nat): (w: seq<Bit>)
    requires k <= |polynomial| && k <= n
    ensures |w| == n
  {
    polynomial[..k] + Zeros(n - k)
  }

  /** The remainder the encoder computes. */
  function Remainder(polynomial: seq<Bit>, k: nat, n: nat, g: seq<Bit>): (rem: seq<Bit>)
    requires k <= |polynomial| && k <= n && Divisor(g)
    ensures |rem| == n
  {
    Mod(MainPoly(polynomial, k, n), g)
  }

  /** The trimmed remainder fits into the n - k redundant positions (otherwise the copy fails). */
  ghost predicate RemainderFits(polynomial: seq<Bit>, k: nat, n: nat, g: seq<Bit>)
    requires k <= |polynomial| && k <= n && Divisor(g)
  {
    |Trim(Remainder(polynomial, k, n, g))| <= n - k
  }

  /** The word `encode` returns: the message bits, then the remainder right-aligned in n - k positions. */
  function Encoded(polynomial: seq<Bit>, k: nat, n: nat, g: seq<Bit>): (c: seq<Bit>)
    requires k <= |polynomial| && k <= n && Divisor(g)
    ensures |c| == n
  {
    (polynomial + Remainder(polynomial, k, n, g)[k..])[..n]
  }

  /**
   * Encodes a message: the remainder of the message times x^(n - k), without
   * its leading zeros, is copied to the end of the redundant part, and the
   * code word is the message followed by the redundant part.
   */
  method Encode(numberOfInformationBytes: nat, codeWordLength: nat, polynomial: seq<Bit>,
                generatingPolynomial: seq<Bit>) returns (encodedMessage: seq<Bit>)
    requires numberOfInformationBytes <= |polynomial| && numberOfInformationBytes <= codeWordLength
    requires Divisor(generatingPolynomial)
    requires RemainderFits(polynomial, numberOfInformationBytes, codeWordLength, generatingPolynomial)
    ensures encodedMessage == Encoded(polynomial, numberOfInformationBytes, codeWordLength, generatingPolynomial)
  {
    var k, n := numberOfInformationBytes, codeWordLength;
    var mainPolynomial := new Bit[n](_ => 0);
    for i := 0 to k
      modifies mainPolynomial
      invariant forall t :: 0 <= t < n ==> mainPolynomial[t] == if t < i then polynomial[t] else 0
    {
      mainPolynomial[i] := polynomial[i];
    }
    assert mainPolynomial[..] == MainPoly(polynomial, k, n);
    var division := PolynomialDivision(mainPolynomial[..], generatingPolynomial);
    var rest := TrimPolyZero(division);
    var redundantBytes := CopyRightAligned(rest, n - k);
    RedundantPart(division, k);
    encodedMessage := Concatenate(polynomial, redundantBytes, n);
  }

  /** A word of the given length holding rest in its last positions (the copy into the redundant part). */
  method CopyRightAligned(rest: seq<Bit>, length: nat) returns (bytes: seq<Bit>)
    requires |rest| <= length
    ensures bytes == Zeros(length - |rest|) + rest
  {
    var redundantBytes := new Bit[length](_ => 0);
    var startPosition := length - |rest|;
    for i := 0 to |rest|
      invariant forall t :: 0 <= t < length ==>
        redundantBytes[t] == if startPosition <= t < startPosition + i then rest[t - startPosition] else 0
    {
      redundantBytes[startPosition + i] := rest[i];
    }
    bytes := redundantBytes[..];
  }

  /** The first n bits of the message followed by the redundant part. */
  method Concatenate(polynomial: seq<Bit>, redundantBytes: seq<Bit>, n: nat) returns (encodedMessage: seq<Bit>)
    requires n <= |polynomial| + |redundantBytes|
    ensures encodedMessage == (polynomial + redundantBytes)[..n]
  {
    var encoded := new Bit[n](_ => 0);
    for i := 0 to n
      invariant forall t :: 0 <= t < i ==>
        encoded[t] == if t < |polynomial| then polynomial[t] else redundantBytes[t - |polynomial|]
    {
      if i < |polynomial| {
        encoded[i] := polynomial[i];
      } else {
        encoded[i] := redundantBytes[i - |polynomial|];
      }
    }
    encodedMessage := encoded[..];
  }

  /** The trimmed word right-aligned in |w| - k positions is the tail of w after position k. */
  lemma RedundantPart(w: seq<Bit>, k: nat)
    requires k <= |w| && |Trim(w)| <= |w| - k
    ensures Zeros(|w| - k - |Trim(w)|) + Trim(w) == w[k..]
  {
    if |w| > 0 {
      TrimPad(w);
      var z := |w| - |Trim(w)|;
      assert w[k..] == (Zeros(z) + Trim(w))[k..];
      assert (Zeros(z) + Trim(w))[k..] == Zeros(z - k) + Trim(w);
    }
  }

  /** A divisor of degree at most n - k always leaves a remainder that fits. */
  lemma RemainderFitsShortDivisor(polynomial: seq<Bit>, k: nat, n: nat, g: seq<Bit>)
    requires k <= |polynomial| && k <= n && Divisor(g) && |g| <= n - k + 1
    ensures RemainderFits(polynomial, k, n, g)
  {
    var rem := Remainder(polynomial, k, n, g);
    ModReduced(MainPoly(polynomial, k, n), g);
    if FirstOne(rem) < n {
      assert FirstOne(rem) >= k;
    }
  }

  /** When the remainder fits, it is zero on the k message positions. */
  lemma RemainderHead(polynomial: seq<Bit>, k: nat, n: nat, g: seq<Bit>)
    requires k <= |polynomial| && k <= n && Divisor(g)
    requires RemainderFits(polynomial, k, n, g)
    ensures forall t :: 0 <= t < k ==> Remainder(polynomial, k, n, g)[t] == 0
  {
    var rem := Remainder(polynomial, k, n, g);
    if n > 0 {
      TrimPad(rem);
      assert forall t :: 0 <= t < k ==> rem[t] == Zeros(n - |Trim(rem)|)[t];
    }
  }

  /** A k-bit message is encoded as the message times x^(n - k) plus its remainder. */
  lemma EncodedIsSum(polynomial: seq<Bit>, k: nat, n: nat, g: seq<Bit>)
    requires |polynomial| == k && k <= n && Divisor(g)
    requires RemainderFits(polynomial, k, n, g)
    ensures Encoded(polynomial, k, n, g) == Xor(MainPoly(polynomial, k, n), Remainder(polynomial, k, n, g))
  {
    var main, rem := MainPoly(polynomial, k, n), Remainder(polynomial, k, n, g);
    RemainderHead(polynomial, k, n, g);
    var c := polynomial + rem[k..];
    assert Encoded(polynomial, k, n, g) == c;
    forall t | 0 <= t < n
      ensures c[t] == XorBit(main[t], rem[t])
    {
      if t < k {
        assert main[t] == polynomial[t] && rem[t] == 0;
      } else {
        assert main[t] == 0 && c[t] == rem[t];
      }
    }
    assert c == Xor(main, rem);
  }

  /** A code word of a k-bit message is a multiple of the generating polynomial. */
  lemma EncodedIsMultiple(polynomial: seq<Bit>, k: nat, n: nat, g: seq<Bit>)
    requires |polynomial| == k && k <= n && Divisor(g)
    requires RemainderFits(polynomial, k, n, g)
    ensures IsMultiple(Encoded(polynomial, k, n, g), g)
  {
    var main, rem := MainPoly(polynomial, k, n), Remainder(polynomial, k, n, g);
    EncodedIsSum(polynomial, k, n, g);
    ModXor(main, rem, g);
    ModReduced(main, g);
    ModOfReduced(rem, g);
    XorSelf(rem);
  }

  /** The syndrome: the part after position k of the remainder of the received word. */
  method CalculateSyndrome(encodedMessage: seq<Bit>, generatingPolynomial: seq<Bit>, numberOfInformationBytes: nat)
    returns (syndrome: seq<Bit>)
    requires Divisor(generatingPolynomial) && numberOfInformationBytes <= |encodedMessage|
    ensures syndrome == Mod(encodedMessage, generatingPolynomial)[numberOfInformationBytes..]
  {
    var division := PolynomialDivision(encodedMessage, generatingPolynomial);
    syndrome := GetRedundantBytes(division, numberOfInformationBytes);
  }

  /** An unaltered code word has the zero syndrome. */
  lemma SyndromeOfCodeWord(polynomial: seq<Bit>, k: nat, n: nat, g: seq<Bit>)
    requires |polynomial| == k && k <= n && Divisor(g)
    requires RemainderFits(polynomial, k, n, g)
    ensures Mod(Encoded(polynomial, k, n, g), g)[k..] == Zeros(n - k)
  {
    EncodedIsMultiple(polynomial, k, n, g);
  }

  /** The first k bits of a word, padded with zeros when the word is shorter (as copyOfRange pads). */
  function GetInformationBytes(encodedMessage: seq<Bit>, numberOfInformationBytes: nat): (info: seq<Bit>)
    ensures |info| == numberOfInformationBytes
    ensures numberOfInformationBytes <= |encodedMessage| ==> info == encodedMessage[..numberOfInformationBytes]
  {
    PaddedPrefix(encodedMessage, numberOfInformationBytes)
  }

  /** The bits of a word after the first k. */
  function GetRedundantBytes(encodedMessage: seq<Bit>, numberOfInformationBytes: nat): (red: seq<Bit>)
    requires numberOfInformationBytes <= |encodedMessage|
    ensures |red| == |encodedMessage| - numberOfInformationBytes
  {
    encodedMessage[numberOfInformationBytes..]
  }

  /** The information and the redundant bytes together make up the word. */
  lemma InformationAndRedundant(encodedMessage: seq<Bit>, k: nat)
    requires k <= |encodedMessage|
    ensures GetInformationBytes(encodedMessage, k) + GetRedundantBytes(encodedMessage, k) == encodedMessage
  {
  }

  /** The information bytes of a code word of a k-bit message are the message. */
  lemma InformationOfCodeWord(polynomial: seq<Bit>, k: nat, n: nat, g: seq<Bit>)
    requires |polynomial| == k && k <= n && Divisor(g)
    ensures GetInformationBytes(Encoded(polynomial, k, n, g), k) == polynomial
  {
  }

  // ---------------------------------------------------------------------------
  // The generating matrix
  // ---------------------------------------------------------------------------

  /** Row i of the matrix before formatting: the first n - k + 1 coefficients of g, shifted right by i. */
  function ShiftedRow(g: seq<Bit>, i: nat, k: nat, n: nat): (row: seq<Bit>)
    requires i < k <= n && n - k + 1 <= |g|
    ensures |row| == n
  {
    Placed(g[..n - k + 1], i, n)
  }

  /** Row r after the formatting loop has passed rows j and later: each such row whose column holds a one in r is added to r. */
  function ReduceRow(r: seq<Bit>, rows: seq<seq<Bit>>, j: nat): (f: seq<Bit>)
    requires forall t :: 0 <= t < |rows| ==> |rows[t]| == |r|
    ensures |f| == |r|
    decreases |rows| - j
  {
    if j >= |rows| then r
    else ReduceRow(if j < |r| && r[j] == 1 then Xor(r, rows[j]) else r, rows, j + 1)
  }

  /** The matrix after formatting: every row reduced by the rows below it, as they were before. */
  function Formatted(rows: seq<seq<Bit>>): (f: seq<seq<Bit>>)
    requires forall a, b :: 0 <= a < |rows| && 0 <= b < |rows| ==> |rows[a]| == |rows[b]|
    ensures |f| == |rows| && forall t :: 0 <= t < |rows| ==> |f[t]| == |rows[t]|
  {
    seq(|rows|, i requires 0 <= i < |rows| => ReduceRow(rows[i], rows, i + 1))
  }

  /** The generating matrix of the code: the shifted rows, formatted. */
  function GeneratingRows(k: nat, n: nat, g: seq<Bit>): (rows: seq<seq<Bit>>)
    requires k <= n && (k > 0 ==> n - k + 1 <= |g|)
    ensures |rows| == k && forall t :: 0 <= t < k ==> |rows[t]| == n
  {
    Formatted(seq(k, i requires 0 <= i < k => ShiftedRow(g, i, k, n)))
  }

  /** The first w entries of r are those of the i-th unit row. */
  ghost predicate IdentityRow(r: seq<Bit>, i: nat, w: nat)
    requires w <= |r|
  {
    forall c :: 0 <= c < w ==> r[c] == if c == i then 1 else 0
  }

  /** Each row has a one on the diagonal and zeros to its left. */
  ghost predicate Echelon(rows: seq<seq<Bit>>) {
    forall a :: 0 <= a < |rows| ==>
      |rows| <= |rows[a]| && rows[a][a] == 1 && forall c :: 0 <= c < a ==> rows[a][c] == 0
  }

  /** The first |rows| columns form the identity matrix. */
  ghost predicate Systematic(rows: seq<seq<Bit>>)
    requires forall a :: 0 <= a < |rows| ==> |rows| <= |rows[a]|
  {
    forall a, c :: 0 <= a < |rows| && 0 <= c < |rows| ==> rows[a][c] == if a == c then 1 else 0
  }

  /**
   * Builds the generating matrix: each row is the generating polynomial
   * shifted right by its index, and formatting makes the first k columns
   * the identity.
   */
  method GetGeneratingMatrix(numberOfInformationBytes: nat, codeWordLength: nat, generatingPolynomial: seq<Bit>)
    returns (generatingMatrix: array<array<int>>)
    requires numberOfInformationBytes <= codeWordLength
    requires numberOfInformationBytes > 0 ==> codeWordLength - numberOfInformationBytes + 1 <= |generatingPolynomial|
    ensures Rows(generatingMatrix) == GeneratingRows(numberOfInformationBytes, codeWordLength, generatingPolynomial)
  {
    var k, n, g := numberOfInformationBytes, codeWordLength, generatingPolynomial;
    generatingMatrix := NewMatrix(k, n);
    ghost var rows := generatingMatrix[..];
    ghost var shifted := seq(k, i requires 0 <= i < k => ShiftedRow(g, i, k, n));
    for i := 0 to k
      modifies set a | 0 <= a < k :: rows[a]
      invariant forall a :: 0 <= a < i ==> rows[a][..] == shifted[a]
      invariant forall a :: i <= a < k ==> rows[a][..] == Zeros(n)
    {
      FillShiftedRow(generatingMatrix[i], g, i, k, n);
    }
    assert Rows(generatingMatrix) == shifted;
    FormatGeneratingMatrix(generatingMatrix, shifted);
  }

  /** A new k-by-n matrix of zeros (the allocation of a two-dimensional Java array). */
  method NewMatrix(k: nat, n: nat) returns (matrix: array<array<int>>)
    ensures fresh(matrix) && matrix.Length == k
    ensures forall a :: 0 <= a < k ==> fresh(matrix[a]) && matrix[a][..] == Zeros(n)
    ensures forall a, b :: 0 <= a < b < k ==> matrix[a] != matrix[b]
  {
    var rows: seq<array<int>> := [];
    for i := 0 to k
      invariant |rows| == i
      invariant forall a :: 0 <= a < i ==> fresh(rows[a]) && rows[a][..] == Zeros(n)
      invariant forall a, b :: 0 <= a < b < i ==> rows[a] != rows[b]
    {
      var row := new int[n](_ => 0);
      rows := rows + [row];
    }
    matrix := new array<int>[k](i requires 0 <= i < |rows| => rows[i]);
  }

  /** The inner loop of the construction: row i receives the coefficients of g from column i on. */
  method FillShiftedRow(row: array<int>, g: seq<Bit>, i: nat, k: nat, n: nat)
    requires i < k <= n && n - k + 1 <= |g| && row.Length == n && row[..] == Zeros(n)
    modifies row
    ensures row[..] == ShiftedRow(g, i, k, n)
  {
    for j := 0 to n - k + 1
      invariant forall t :: 0 <= t < n ==> row[t] == if i <= t < i + j then g[t - i] else 0
    {
      row[j + i] := g[j];
    }
  }

  /**
   * Formats the matrix in place: for each row, every later row whose
   * column holds a one in it is added to it.  The ghost parameter names the
   * rows as they are on entry.
   */
  method FormatGeneratingMatrix(generatingMatrix: array<array<int>>, ghost rows: seq<seq<Bit>>)
    requires Rows(generatingMatrix) == rows
    requires forall a, b :: 0 <= a < b < generatingMatrix.Length ==> generatingMatrix[a] != generatingMatrix[b]
    requires forall t :: 0 <= t < |rows| ==> |rows| <= |rows[t]| == |rows[0]|
    modifies set i | 0 <= i < generatingMatrix.Length :: generatingMatrix[i]
    ensures Rows(generatingMatrix) == Formatted(rows)
  {
    ghost var refs := generatingMatrix[..];
    for i := 0 to generatingMatrix.Length
      invariant forall t :: 0 <= t < i ==> refs[t][..] == ReduceRow(rows[t], rows, t + 1)
      invariant forall t :: i <= t < |refs| ==> refs[t][..] == rows[t]
    {
      ReduceRowInPlace(generatingMatrix[i], generatingMatrix, i, refs, rows);
    }
    FormattedByRows(rows, Rows(generatingMatrix));
  }

  /** A matrix whose every row is reduced by the rows below it is the formatted matrix. */
  lemma FormattedByRows(rows: seq<seq<Bit>>, result: seq<seq<int>>)
    requires forall a, b :: 0 <= a < |rows| && 0 <= b < |rows| ==> |rows[a]| == |rows[b]|
    requires |result| == |rows| && forall t :: 0 <= t < |rows| ==> result[t] == ReduceRow(rows[t], rows, t + 1)
    ensures result == Formatted(rows)
  {
  }

  /**
   * The inner loop of the formatting: row i is reduced by the rows after it,
   * which are still as they were.  The ghost parameter refs names the rows of
   * the matrix, which the loop does not replace.
   */
  method ReduceRowInPlace(row: array<int>, generatingMatrix: array<array<int>>, i: nat,
                          ghost refs: seq<array<int>>, ghost rows: seq<seq<Bit>>)
    requires generatingMatrix[..] == refs && i < |refs| == |rows| && row == refs[i]
    requires forall t :: i < t < |rows| ==> refs[t] != row && refs[t][..] == rows[t]
    requires forall t :: 0 <= t < |rows| ==> |rows| <= |rows[t]| == row.Length
    requires row[..] == rows[i]
    modifies row
    ensures row[..] == ReduceRow(rows[i], rows, i + 1)
  {
    ghost var current: seq<Bit> := rows[i];
    for j := i + 1 to generatingMatrix.Length
      invariant row[..] == current
      invariant ReduceRow(current, rows, j) == ReduceRow(rows[i], rows, i + 1)
    {
      if row[j] == 1 {
        RowSumOfBits(current, rows[j]);
        RowSum(row, generatingMatrix[j]);
        current := Xor(current, rows[j]);
      }
    }
  }

  /** Reducing a row of the identity pattern by echelon rows keeps the pattern. */
  lemma {:induction false} ReducePivot(r: seq<Bit>, rows: seq<seq<Bit>>, i: nat, j: nat)
    requires Echelon(rows) && forall t :: 0 <= t < |rows| ==> |rows[t]| == |r|
    requires i < j <= |rows| <= |r|
    requires IdentityRow(r, i, j)
    ensures IdentityRow(ReduceRow(r, rows, j), i, |rows|)
    decreases |rows| - j
  {
    if j < |rows| {
      var next := if r[j] == 1 then Xor(r, rows[j]) else r;
      assert IdentityRow(next, i, j + 1);
      ReducePivot(next, rows, i, j + 1);
    }
  }

  /** Formatting an echelon matrix makes its first columns the identity. */
  lemma FormattedSystematic(rows: seq<seq<Bit>>)
    requires Echelon(rows)
    requires forall a, b :: 0 <= a < |rows| && 0 <= b < |rows| ==> |rows[a]| == |rows[b]|
    ensures Systematic(Formatted(rows))
  {
    var f := Formatted(rows);
    forall i | 0 <= i < |rows|
      ensures IdentityRow(f[i], i, |rows|)
    {
      assert IdentityRow(rows[i], i, i + 1);
      ReducePivot(rows[i], rows, i, i + 1);
    }
    forall a, c | 0 <= a < |rows| && 0 <= c < |rows|
      ensures f[a][c] == if a == c then 1 else 0
    {
      assert IdentityRow(f[a], a, |rows|);
    }
  }

  /** Reducing a multiple of g by multiples of g gives a multiple of g. */
  lemma {:induction false} ReduceMultiple(r: seq<Bit>, rows: seq<seq<Bit>>, j: nat, g: seq<Bit>)
    requires Divisor(g) && forall t :: 0 <= t < |rows| ==> |rows[t]| == |r|
    requires IsMultiple(r, g) && forall t :: 0 <= t < |rows| ==> IsMultiple(rows[t], g)
    ensures IsMultiple(ReduceRow(r, rows, j), g)
    decreases |rows| - j
  {
    if j < |rows| {
      if j < |r| && r[j] == 1 {
        MultipleXor(r, rows[j], g);
      }
      ReduceMultiple(if j < |r| && r[j] == 1 then Xor(r, rows[j]) else r, rows, j + 1, g);
    }
  }

  /** A multiple of g is the code word of its first k bits. */
  lemma MultipleIsEncoded(c: seq<Bit>, k: nat, n: nat, g: seq<Bit>)
    requires Divisor(g) && |c| == n && k <= n && |g| == n - k + 1
    requires IsMultiple(c, g)
    ensures c == Encoded(c[..k], k, n, g)
  {
    MultipleRemainder(c, k, n, g);
    EncodedOfRemainder(c, k, n, g);
  }

  /** A word whose remainder part is its own tail is the code word of its head. */
  lemma EncodedOfRemainder(c: seq<Bit>, k: nat, n: nat, g: seq<Bit>)
    requires Divisor(g) && |c| == n && k <= n && Remainder(c[..k], k, n, g) == Zeros(k) + c[k..]
    ensures c == Encoded(c[..k], k, n, g)
  {
    var rem := Remainder(c[..k], k, n, g);
    assert rem[k..] == c[k..];
    var word := c[..k] + rem[k..];
    assert word == c;
    assert word[..n] == c;
  }

  /** The remainder of the information part of a multiple of g, shifted up, is the rest of the multiple. */
  lemma MultipleRemainder(c: seq<Bit>, k: nat, n: nat, g: seq<Bit>)
    requires Divisor(g) && |c| == n && k <= n && |g| == n - k + 1
    requires IsMultiple(c, g)
    ensures Remainder(c[..k], k, n, g) == Zeros(k) + c[k..]
  {
    var main := MainPoly(c[..k], k, n);
    var tail := Zeros(k) + c[k..];
    assert c == Xor(main, tail);
    ModXor(main, tail, g);
    XorZeroEqual(Mod(main, g), Mod(tail, g));
    ModOfReduced(tail, g);
  }

  /** Row i of the matrix is the code word of the i-th unit message. */
  ghost predicate UnitCodeWords(matrix: seq<seq<Bit>>, k: nat, n: nat, g: seq<Bit>)
    requires k <= n && Divisor(g)
  {
    |matrix| == k && forall i :: 0 <= i < k ==> matrix[i] == Encoded(Unit(k, i), k, n, g)
  }

  /** With a leading one in g, the generating matrix is systematic. */
  lemma GeneratingRowsSystematic(k: nat, n: nat, g: seq<Bit>)
    requires k <= n && (k > 0 ==> n - k + 1 <= |g| && g[0] == 1)
    ensures Systematic(GeneratingRows(k, n, g))
  {
    var shifted := seq(k, i requires 0 <= i < k => ShiftedRow(g, i, k, n));
    FormattedSystematic(shifted);
  }

  /** When g has degree n - k, row i of the generating matrix is the code word of the i-th unit message. */
  lemma GeneratingRowsAreCodeWords(k: nat, n: nat, g: seq<Bit>)
    requires k <= n && Divisor(g) && |g| == n - k + 1
    ensures UnitCodeWords(GeneratingRows(k, n, g), k, n, g)
  {
    forall i | 0 <= i < k
      ensures GeneratingRows(k, n, g)[i] == Encoded(Unit(k, i), k, n, g)
    {
      GeneratingRowIsCodeWord(k, n, g, i);
    }
  }

  /** Row i of the generating matrix is a multiple of g that starts with the i-th unit message. */
  lemma GeneratingRowIsCodeWord(k: nat, n: nat, g: seq<Bit>, i: nat)
    requires i < k <= n && Divisor(g) && |g| == n - k + 1
    ensures GeneratingRows(k, n, g)[i] == Encoded(Unit(k, i), k, n, g)
  {
    var shifted := seq(k, i requires 0 <= i < k => ShiftedRow(g, i, k, n));
    var row := GeneratingRows(k, n, g)[i];
    assert g[..n - k + 1] == g;
    forall t | 0 <= t < k
      ensures IsMultiple(shifted[t], g)
    {
      PlacedIsMultiple(g, t, n);
    }
    ReduceMultiple(shifted[i], shifted, i + 1, g);
    GeneratingRowsSystematic(k, n, g);
    assert row[..k] == Unit(k, i);
    MultipleIsEncoded(row, k, n, g);
  }

  // ---------------------------------------------------------------------------
  // Correction
  // ---------------------------------------------------------------------------

  /** The columns from k on of a matrix row spell out a nonempty syndrome. */
  predicate SegmentMatches(row: seq<int>, syndrome: seq<Bit>, k: nat)
    requires k + |syndrome| <= |row|
  {
    |syndrome| > 0 && row[k..k + |syndrome|] == syndrome
  }

  /** The first row from position `from` on whose redundant part is the syndrome, or |matrix| when none is. */
  function FirstMatch(matrix: seq<seq<int>>, syndrome: seq<Bit>, k: nat, from: nat): (i: nat)
    requires from <= |matrix| && forall t :: 0 <= t < |matrix| ==> k + |syndrome| <= |matrix[t]|
    ensures from <= i <= |matrix|
    ensures i < |matrix| ==> SegmentMatches(matrix[i], syndrome, k)
    ensures forall t :: from <= t < i ==> !SegmentMatches(matrix[t], syndrome, k)
    decreases |matrix| - from
  {
    if from == |matrix| then |matrix|
    else if SegmentMatches(matrix[from], syndrome, k) then from
    else FirstMatch(matrix, syndrome, k, from + 1)
  }

  /** FirstMatch is the matching row that only non-matching rows precede. */
  lemma FirstMatchAt(matrix: seq<seq<int>>, syndrome: seq<Bit>, k: nat, i: nat)
    requires forall t :: 0 <= t < |matrix| ==> k + |syndrome| <= |matrix[t]|
    requires i <= |matrix| && (i < |matrix| ==> SegmentMatches(matrix[i], syndrome, k))
    requires forall t :: 0 <= t < i ==> !SegmentMatches(matrix[t], syndrome, k)
    ensures FirstMatch(matrix, syndrome, k, 0) == i
  {
  }

  /**
   * The recovery word for a syndrome: the unit word of the first row whose
   * redundant part equals the syndrome (an error in an information bit), and
   * otherwise the syndrome itself in the redundant positions (an error there).
   */
  function Recovery(matrix: seq<seq<int>>, syndrome: seq<Bit>, k: nat): (rec: seq<Bit>)
    requires 1 <= |matrix| <= |matrix[0]|
    requires forall t :: 0 <= t < |matrix| ==> k + |syndrome| <= |matrix[t]|
    ensures |rec| == |matrix[0]|
  {
    var i := FirstMatch(matrix, syndrome, k, 0);
    if i < |matrix| then Unit(|matrix[0]|, i) else Zeros(k) + syndrome + Zeros(|matrix[0]| - k - |syndrome|)
  }

  /** Looks the syndrome up among the redundant parts of the matrix rows. */
  method GetRecoveryBytes(generatingMatrix: seq<seq<int>>, syndrome: seq<Bit>, numberOfInformationBytes: nat)
    returns (recoveryBytes: seq<Bit>)
    requires 1 <= |generatingMatrix| <= |generatingMatrix[0]|
    requires forall t :: 0 <= t < |generatingMatrix| ==> numberOfInformationBytes + |syndrome| <= |generatingMatrix[t]|
    ensures recoveryBytes == Recovery(generatingMatrix, syndrome, numberOfInformationBytes)
  {
    var k := numberOfInformationBytes;
    var recovery := new Bit[|generatingMatrix[0]|](_ => 0);
    for i := 0 to |generatingMatrix|
      invariant recovery[..] == Zeros(recovery.Length)
      invariant forall t :: 0 <= t < i ==> !SegmentMatches(generatingMatrix[t], syndrome, k)
    {
      for j := 0 to |syndrome|
        invariant |syndrome| == 0 || j < |syndrome|
        invariant forall t :: 0 <= t < j ==> generatingMatrix[i][k + t] == syndrome[t]
      {
        if generatingMatrix[i][k + j] != syndrome[j] {
          assert generatingMatrix[i][k..k + |syndrome|][j] != syndrome[j];
          break;
        } else if j == |syndrome| - 1 {
          recovery[i] := 1;
          assert generatingMatrix[i][k..k + |syndrome|] == syndrome;
          FirstMatchAt(generatingMatrix, syndrome, k, i);
          recoveryBytes := recovery[..];
          return;
        }
      }
    }
    FirstMatchAt(generatingMatrix, syndrome, k, |generatingMatrix|);
    for t := 0 to |syndrome|
      invariant forall c :: 0 <= c < recovery.Length ==>
        recovery[c] == if k <= c < k + t then syndrome[c - k] else 0
    {
      recovery[k + t] := syndrome[t];
    }
    recoveryBytes := recovery[..];
  }

  /** Adds the recovery word to the received word, bit by bit. */
  method RecoverMessage(encodedMessage: seq<Bit>, recoverySequence: seq<Bit>) returns (recoveredMessage: seq<Bit>)
    requires |encodedMessage| <= |recoverySequence|
    ensures recoveredMessage == Xor(encodedMessage, recoverySequence[..|encodedMessage|])
  {
    var recovered := new Bit[|encodedMessage|](_ => 0);
    for i := 0 to recovered.Length
      invariant forall t :: 0 <= t < i ==> recovered[t] == XorBit(encodedMessage[t], recoverySequence[t])
    {
      recovered[i] := XorBit(encodedMessage[i], recoverySequence[i]);
    }
    recoveredMessage := recovered[..];
  }

  /** The whole decoder: the received word plus the recovery word of its syndrome. */
  function Decode(received: seq<Bit>, matrix: seq<seq<int>>, g: seq<Bit>, k: nat): (w: seq<Bit>)
    requires Divisor(g) && k + 1 <= |received| && 1 <= |matrix| && |matrix[0]| == |received|
    requires forall t :: 0 <= t < |matrix| ==> |matrix[t]| == |received| && |matrix| <= |received|
    ensures |w| == |received|
  {
    Xor(received, Recovery(matrix, Mod(received, g)[k..], k))
  }

  /**
   * The code words of the unit messages have pairwise different redundant
   * parts, each with at least two ones: then an error in an information bit
   * cannot be taken for an error in a redundant bit or for another
   * information bit.
   */
  ghost predicate SeparatesUnits(k: nat, n: nat, g: seq<Bit>)
    requires k <= n && Divisor(g)
  {
    (forall i, j :: 0 <= i < j < k ==> Encoded(Unit(k, i), k, n, g)[k..] != Encoded(Unit(k, j), k, n, g)[k..]) &&
    (forall i :: 0 <= i < k ==> Weight(Encoded(Unit(k, i), k, n, g)[k..]) >= 2)
  }

  /** The remainder of a single-bit error at an information position is the redundant part of a unit code word. */
  lemma ErrorSyndrome(k: nat, n: nat, g: seq<Bit>, p: nat)
    requires p < k <= n && Divisor(g)
    ensures Mod(Unit(n, p), g)[k..] == Encoded(Unit(k, p), k, n, g)[k..]
  {
    assert MainPoly(Unit(k, p), k, n) == Unit(n, p);
  }

  /** A syndrome with fewer than two ones is the redundant part of no row. */
  lemma NoRowMatches(G: seq<seq<Bit>>, k: nat, n: nat, g: seq<Bit>, s: seq<Bit>)
    requires 1 <= k < n && Divisor(g) && SeparatesUnits(k, n, g) && UnitCodeWords(G, k, n, g)
    requires |s| == n - k && Weight(s) < 2
    ensures forall t :: 0 <= t < k ==> !SegmentMatches(G[t], s, k)
  {
    forall t | 0 <= t < k
      ensures !SegmentMatches(G[t], s, k)
    {
      assert G[t][k..k + |s|] == G[t][k..];
    }
  }

  /** Without an error the recovery word is zero. */
  lemma RecoveryOfNoError(G: seq<seq<Bit>>, k: nat, n: nat, g: seq<Bit>)
    requires 1 <= k < n && Divisor(g) && SeparatesUnits(k, n, g) && UnitCodeWords(G, k, n, g)
    ensures Recovery(G, Zeros(n - k), k) == Zeros(n)
  {
    var s := Zeros(n - k);
    WeightZeros(n - k);
    NoRowMatches(G, k, n, g, s);
    FirstMatchAt(G, s, k, k);
  }

  /** An error in information bit p is found at row p. */
  lemma RecoveryOfInformationError(G: seq<seq<Bit>>, k: nat, n: nat, g: seq<Bit>, p: nat)
    requires 1 <= k < n && Divisor(g) && SeparatesUnits(k, n, g) && UnitCodeWords(G, k, n, g)
    requires p < k
    ensures Recovery(G, Mod(Unit(n, p), g)[k..], k) == Unit(n, p)
  {
    var s := Mod(Unit(n, p), g)[k..];
    ErrorSyndrome(k, n, g, p);
    forall t | 0 <= t < p
      ensures !SegmentMatches(G[t], s, k)
    {
      assert G[t][k..k + |s|] == G[t][k..];
    }
    assert G[p][k..k + |s|] == G[p][k..];
    FirstMatchAt(G, s, k, p);
  }

  /** An error in redundant bit p matches no row and is recovered from the syndrome itself. */
  lemma RecoveryOfRedundantError(G: seq<seq<Bit>>, k: nat, n: nat, g: seq<Bit>, p: nat)
    requires 1 <= k < n && Divisor(g) && SeparatesUnits(k, n, g) && UnitCodeWords(G, k, n, g)
    requires k <= p < n
    ensures Recovery(G, Unit(n - k, p - k), k) == Unit(n, p)
  {
    var s := Unit(n - k, p - k);
    WeightUnit(n - k, p - k);
    NoRowMatches(G, k, n, g, s);
    FirstMatchAt(G, s, k, k);
    PaddedUnit(k, n, p);
  }

  /** A unit word of the redundant part, placed after k zeros, is a unit word of the whole. */
  lemma PaddedUnit(k: nat, n: nat, p: nat)
    requires k <= p < n
    ensures Zeros(k) + Unit(n - k, p - k) + Zeros(0) == Unit(n, p)
  {
  }

  /** The recovery word of the syndrome of a word with at most one error is that error. */
  lemma RecoveryOfSingleError(G: seq<seq<Bit>>, k: nat, n: nat, g: seq<Bit>, e: seq<Bit>)
    requires 1 <= k < n && Divisor(g) && |g| == n - k + 1 && SeparatesUnits(k, n, g) && UnitCodeWords(G, k, n, g)
    requires |e| == n && Weight(e) <= 1
    ensures Recovery(G, Mod(e, g)[k..], k) == e
  {
    var s := Mod(e, g)[k..];
    if Weight(e) == 0 {
      WeightZeroIsZeros(e);
      ModOfReduced(e, g);
      assert s == Zeros(n - k);
      RecoveryOfNoError(G, k, n, g);
    } else {
      var p := UnitPosition(e);
      if p < k {
        RecoveryOfInformationError(G, k, n, g, p);
      } else {
        ModOfReduced(e, g);
        assert s == Unit(n - k, p - k);
        RecoveryOfRedundantError(G, k, n, g, p);
      }
    }
  }

  /** A code word with at most one flipped bit is decoded to the code word. */
  lemma CorrectsSingleError(m: seq<Bit>, e: seq<Bit>, k: nat, n: nat, g: seq<Bit>)
    requires 1 <= k < n && Divisor(g) && |g| == n - k + 1 && SeparatesUnits(k, n, g)
    requires |m| == k && |e| == n && Weight(e) <= 1
    ensures Decode(Xor(Encoded(m, k, n, g), e), GeneratingRows(k, n, g), g, k) == Encoded(m, k, n, g)
  {
    var c, G := Encoded(m, k, n, g), GeneratingRows(k, n, g);
    RemainderFitsShortDivisor(m, k, n, g);
    EncodedIsMultiple(m, k, n, g);
    ModXor(c, e, g);
    XorZeros(Mod(e, g));
    GeneratingRowsAreCodeWords(k, n, g);
    RecoveryOfSingleError(G, k, n, g, e);
    XorCancel(c, e);
  }
}
