/**
 * The extended check matrix of the modified Hamming code: one row and one
 * column are added to an r x n check matrix.  The new row starts as all ones
 * and is then overwritten, column by column, with the parity of the whole
 * column, the all-ones entry included; so each entry is 1 plus the parity of
 * the input column, and every column of the result has odd weight.  A code
 * with such a matrix corrects one error and does not miscorrect two.
 */
module ModifiedHammingCode {
  import opened Bits
  import opened HammingCode

  // ---------------------------------------------------------------------------
  // The extended matrix
  // ---------------------------------------------------------------------------

  /** Entry c of the added row: 1 plus the parity of input column c, and 1 under the new column. */
  function ExtraEntry(H: seq<seq<Bit>>, r: nat, n: nat, c: nat): Bit
    requires HasShape(H, r, n) && c <= n
  {
    if c < n then XorBit(1, Parity(Column(H, c, r))) else 1
  }

  /**
   * E is the (r + 1) x (n + 1) matrix built from the r x n matrix H: H with a
   * zero column appended, and below it the row of extra entries.
   */
  ghost predicate IsExtension(E: seq<seq<Bit>>, H: seq<seq<Bit>>, r: nat, n: nat)
    requires HasShape(H, r, n)
  {
    IsMatrix(E, r + 1, n + 1) &&
    (forall a, c :: 0 <= a < r && 0 <= c <= n ==> E[a][c] == if c < n then H[a][c] else 0) &&
    (forall c :: 0 <= c <= n ==> E[r][c] == ExtraEntry(H, r, n, c))
  }

  /** The parities of the first n columns of the first m rows. */
  function ColumnParities(rows: seq<seq<Bit>>, m: nat, n: nat): (p: seq<Bit>)
    requires HasShape(rows, m, n)
    ensures |p| == n && forall c :: 0 <= c < n ==> p[c] == Parity(Column(rows, c, m))
  {
    seq(n, c requires 0 <= c < n => Parity(Column(rows, c, m)))
  }

  /**
   * Copies the input into a matrix one row and one column larger, sets the
   * added row to ones and replaces it by the column sums modulo 2.
   */
  method ModifyCheckMatrix(checkMatrix: seq<seq<Bit>>) returns (modified: seq<seq<Bit>>)
    requires |checkMatrix| >= 1 && IsMatrix(checkMatrix, |checkMatrix|, |checkMatrix[0]|)
    ensures IsExtension(modified, checkMatrix, |checkMatrix|, |checkMatrix[0]|)
  {
    var r, n := |checkMatrix|, |checkMatrix[0]|;
    var matrix := CopyWithOnes(checkMatrix, r, n);
    ghost var ones := ToRows(matrix);
    SumMatrixColumn(matrix);
    modified := ToRows(matrix);
    ParitiesOfOnes(checkMatrix, ones, r, n);
  }

  /** The first steps of ModifyCheckMatrix: the input copied into a larger matrix whose added row is all ones. */
  method CopyWithOnes(checkMatrix: seq<seq<Bit>>, r: nat, n: nat) returns (matrix: array2<Bit>)
    requires IsMatrix(checkMatrix, r, n)
    ensures fresh(matrix) && matrix.Length0 == r + 1 && matrix.Length1 == n + 1
    ensures forall a, c :: 0 <= a <= r && 0 <= c <= n ==>
      matrix[a, c] == if a < r then (if c < n then checkMatrix[a][c] else 0) else 1
  {
    matrix := new Bit[r + 1, n + 1]((_, _) => 0);
    for i := 0 to r
      invariant forall a, c :: 0 <= a <= r && 0 <= c <= n ==>
        matrix[a, c] == if a < i && c < n then checkMatrix[a][c] else 0
    {
      CopyRow(matrix, checkMatrix[i], i);
    }
    for c := 0 to n + 1
      invariant forall a, c' :: 0 <= a <= r && 0 <= c' <= n ==>
        matrix[a, c'] == if a < r then (if c' < n then checkMatrix[a][c'] else 0) else (if c' < c then 1 else 0)
    {
      matrix[r, c] := 1;
    }
  }

  /** The arraycopy of one input row into row i of the larger matrix. */
  method CopyRow(matrix: array2<Bit>, row: seq<Bit>, i: nat)
    requires i < matrix.Length0 && |row| <= matrix.Length1
    modifies matrix
    ensures forall a, c :: 0 <= a < matrix.Length0 && 0 <= c < matrix.Length1 ==>
      matrix[a, c] == if a == i && c < |row| then row[c] else old(matrix[a, c])
  {
    for c := 0 to |row|
      invariant forall a, c' :: 0 <= a < matrix.Length0 && 0 <= c' < matrix.Length1 ==>
        matrix[a, c'] == if a == i && c' < c then row[c'] else old(matrix[a, c'])
    {
      matrix[i, c] := row[c];
    }
  }

  /**
   * Overwrites the last row with the parities of the columns, each computed
   * over the whole column, the old last-row entry included.
   */
  method SumMatrixColumn(matrix: array2<Bit>)
    requires matrix.Length0 >= 1
    modifies matrix
    ensures ToRows(matrix) == old(ToRows(matrix))[matrix.Length0 - 1 :=
      ColumnParities(old(ToRows(matrix)), matrix.Length0, matrix.Length1)]
  {
    ghost var rows := ToRows(matrix);
    var last := matrix.Length0 - 1;
    for i := 0 to matrix.Length1
      invariant forall a, c :: 0 <= a < matrix.Length0 && 0 <= c < matrix.Length1 ==>
        matrix[a, c] == if a == last && c < i then Parity(Column(rows, c, matrix.Length0)) else rows[a][c]
    {
      ghost var col := Column(rows, i, matrix.Length0);
      var columnSum := 0;
      for a := 0 to matrix.Length0
        invariant columnSum == Weight(col[..a])
      {
        assert col[..a + 1][..a] == col[..a];
        columnSum := columnSum + matrix[a, i];
      }
      assert col[..matrix.Length0] == col;
      matrix[last, i] := columnSum % 2;
    }
    ghost var after := ToRows(matrix);
    forall a | 0 <= a < matrix.Length0
      ensures after[a] == rows[last := ColumnParities(rows, matrix.Length0, matrix.Length1)][a]
    {
    }
  }

  /**
   * The input copied into the larger matrix with a row of ones below: replacing
   * that row by the column parities gives the extended matrix.
   */
  lemma ParitiesOfOnes(H: seq<seq<Bit>>, ones: seq<seq<Bit>>, r: nat, n: nat)
    requires IsMatrix(H, r, n) && IsMatrix(ones, r + 1, n + 1)
    requires forall a, c :: 0 <= a <= r && 0 <= c <= n ==>
      ones[a][c] == if a < r then (if c < n then H[a][c] else 0) else 1
    ensures IsExtension(ones[r := ColumnParities(ones, r + 1, n + 1)], H, r, n)
  {
    var last := ColumnParities(ones, r + 1, n + 1);
    forall c | 0 <= c <= n
      ensures last[c] == ExtraEntry(H, r, n, c)
    {
      LastRowEntry(H, ones, r, n, c);
    }
  }

  /** Column c of the matrix with the row of ones has parity equal to the extra entry of c. */
  lemma LastRowEntry(H: seq<seq<Bit>>, ones: seq<seq<Bit>>, r: nat, n: nat, c: nat)
    requires IsMatrix(H, r, n) && IsMatrix(ones, r + 1, n + 1) && c <= n
    requires forall a :: 0 <= a < r ==> ones[a][c] == if c < n then H[a][c] else 0
    requires ones[r][c] == 1
    ensures Parity(Column(ones, c, r + 1)) == ExtraEntry(H, r, n, c)
  {
    var top := if c < n then Column(H, c, r) else Zeros(r);
    assert Column(ones, c, r + 1) == top + [1];
    ParityAppend(top, [1]);
    assert Weight([1]) == Weight([]) + 1;
    if c == n {
      ParityZeros(r);
    }
  }

  // ---------------------------------------------------------------------------
  // Properties of the extended matrix
  // ---------------------------------------------------------------------------

  /** The columns of an extension: each input column with its extra entry, and a unit column last. */
  lemma ExtensionColumn(E: seq<seq<Bit>>, H: seq<seq<Bit>>, r: nat, n: nat, c: nat)
    requires HasShape(H, r, n) && IsExtension(E, H, r, n) && c <= n
    ensures Column(E, c, r + 1) == (if c < n then Column(H, c, r) else Zeros(r)) + [ExtraEntry(H, r, n, c)]
    ensures c == n ==> Column(E, c, r + 1) == Unit(r + 1, r)
  {
    var lhs, rhs := Column(E, c, r + 1), (if c < n then Column(H, c, r) else Zeros(r)) + [ExtraEntry(H, r, n, c)];
    forall a | 0 <= a <= r
      ensures lhs[a] == rhs[a]
    {
    }
  }

  /** Every column of an extension has odd weight. */
  lemma ExtensionOddColumn(E: seq<seq<Bit>>, H: seq<seq<Bit>>, r: nat, n: nat, c: nat)
    requires HasShape(H, r, n) && IsExtension(E, H, r, n) && c <= n
    ensures Parity(Column(E, c, r + 1)) == 1
  {
    ExtensionColumn(E, H, r, n, c);
    var top := if c < n then Column(H, c, r) else Zeros(r);
    ParityAppend(top, [ExtraEntry(H, r, n, c)]);
    assert Weight([ExtraEntry(H, r, n, c)]) == Weight([]) + ExtraEntry(H, r, n, c);
    if c == n {
      ParityZeros(r);
    }
  }

  /** The first n columns of the first R rows of E have odd weight. */
  ghost predicate OddColumns(E: seq<seq<Bit>>, n: nat, R: nat)
    requires HasShape(E, R, n)
  {
    forall c :: 0 <= c < n ==> Parity(Column(E, c, R)) == 1
  }

  /** An extension of a k + r column matrix has k + (r + 1) columns. */
  lemma ExtensionShape(E: seq<seq<Bit>>, H: seq<seq<Bit>>, k: nat, r: nat)
    requires HasShape(H, r, k + r) && IsExtension(E, H, r, k + r)
    ensures HasShape(E, r + 1, k + (r + 1))
  {
  }

  /** All columns of an extension have odd weight. */
  lemma ExtensionOddColumns(E: seq<seq<Bit>>, H: seq<seq<Bit>>, k: nat, r: nat)
    requires HasShape(H, r, k + r) && IsExtension(E, H, r, k + r)
    ensures HasShape(E, r + 1, k + (r + 1))
    ensures OddColumns(E, k + (r + 1), r + 1)
  {
    var R := r + 1;
    ExtensionShape(E, H, k, r);
    forall c | 0 <= c < k + R
      ensures Parity(Column(E, c, R)) == 1
    {
      ExtensionOddColumn(E, H, r, k + r, c);
    }
  }

  /** The redundant block of an extension is the identity when that of H is. */
  lemma ExtensionIdentity(E: seq<seq<Bit>>, H: seq<seq<Bit>>, k: nat, r: nat)
    requires HasShape(H, r, k + r) && IdentityBlock(H, k, r) && IsExtension(E, H, r, k + r)
    ensures HasShape(E, r + 1, k + (r + 1))
    ensures IdentityBlock(E, k, r + 1)
  {
    ExtensionShape(E, H, k, r);
    forall c | k <= c < k + r
      ensures E[r][c] == 0
    {
      assert Column(H, c, r) == Unit(r, c - k);
      WeightUnit(r, c - k);
    }
  }

  /** The columns of an extension are pairwise different when those of H are nonzero and pairwise different. */
  lemma ExtensionDistinct(E: seq<seq<Bit>>, H: seq<seq<Bit>>, k: nat, r: nat)
    requires HasShape(H, r, k + r) && DistinctNonzeroColumns(H, k + r, r) && IsExtension(E, H, r, k + r)
    ensures HasShape(E, r + 1, k + (r + 1))
    ensures DistinctNonzeroColumns(E, k + (r + 1), r + 1)
  {
    var n, R := k + r, r + 1;
    ExtensionOddColumns(E, H, k, r);
    ParityZeros(R);
    forall c1, c2 | 0 <= c1 < k + (r + 1) && 0 <= c2 < k + (r + 1) && c1 != c2
      ensures Column(E, c1, R) != Column(E, c2, R)
    {
      ExtensionColumn(E, H, r, n, c1);
      ExtensionColumn(E, H, r, n, c2);
      ColumnsApart(H, r, n, c1, c2);
    }
  }

  /**
   * E is the check matrix of a code with k information bits and R redundant
   * bits whose redundant block is the identity and whose columns are nonzero,
   * pairwise different and of odd weight.
   */
  ghost predicate OddHamming(E: seq<seq<Bit>>, k: nat, R: nat) {
    HasShape(E, R, k + R) && IdentityBlock(E, k, R) && DistinctNonzeroColumns(E, k + R, R) && OddColumns(E, k + R, R)
  }

  /**
   * Extending a Hamming check matrix gives one again, for r + 1 redundant bits:
   * the redundant block is still the identity, the columns are still nonzero
   * and pairwise different, and now all of odd weight.
   */
  lemma ExtensionIsHamming(E: seq<seq<Bit>>, H: seq<seq<Bit>>, k: nat, r: nat)
    requires HasShape(H, r, k + r) && IdentityBlock(H, k, r) && DistinctNonzeroColumns(H, k + r, r)
    requires IsExtension(E, H, r, k + r)
    ensures OddHamming(E, k, r + 1)
  {
    ExtensionIdentity(E, H, k, r);
    ExtensionDistinct(E, H, k, r);
    ExtensionOddColumns(E, H, k, r);
  }

  /** Two different columns of the extended matrix differ already above the added row. */
  lemma ColumnsApart(H: seq<seq<Bit>>, r: nat, n: nat, c1: nat, c2: nat)
    requires HasShape(H, r, n) && DistinctNonzeroColumns(H, n, r)
    requires c1 <= n && c2 <= n && c1 != c2
    ensures (if c1 < n then Column(H, c1, r) else Zeros(r)) != (if c2 < n then Column(H, c2, r) else Zeros(r))
  {
  }

  /** The code of an extended Hamming matrix corrects every single error. */
  lemma ExtensionCorrectsSingleError(E: seq<seq<Bit>>, H: seq<seq<Bit>>, m: seq<Bit>, e: seq<Bit>, k: nat, r: nat)
    requires HasShape(H, r, k + r) && IdentityBlock(H, k, r) && DistinctNonzeroColumns(H, k + r, r)
    requires IsExtension(E, H, r, k + r)
    requires |m| >= k && |e| == k + (r + 1) && Weight(e) <= 1
    ensures Decode(E, Xor(CodeWord(E, m, k, r + 1), e), k, r + 1) == CodeWord(E, m, k, r + 1)
  {
    ExtensionIsHamming(E, H, k, r);
    CorrectsSingleError(E, m, e, k, r + 1);
  }

  // ---------------------------------------------------------------------------
  // Two errors
  // ---------------------------------------------------------------------------

  /** The product with a check matrix is linear. */
  lemma HTimesXor(H: seq<seq<Bit>>, a: seq<Bit>, b: seq<Bit>, r: nat)
    requires |a| == |b| && HasShape(H, r, |a|)
    ensures HTimes(H, Xor(a, b), r) == Xor(HTimes(H, a, r), HTimes(H, b, r))
  {
    var lhs, rhs := HTimes(H, Xor(a, b), r), Xor(HTimes(H, a, r), HTimes(H, b, r));
    forall j | 0 <= j < r
      ensures lhs[j] == rhs[j]
    {
      DotXor(H[j][..|a|], a, b);
    }
  }

  /** A word of even weight equals no column of odd weight, so it selects nothing. */
  lemma RecoveryOfEven(E: seq<seq<Bit>>, s: seq<Bit>, k: nat, R: nat)
    requires HasShape(E, R, k + R) && |s| == R && Parity(s) == 0
    requires OddColumns(E, k + R, R)
    ensures Recovery(s, E, k, R) == Zeros(k + R)
  {
    forall c | 0 <= c < k + R
      ensures !MatchesColumn(s, E, c, R)
    {
      MatchIsColumn(s, E, c, R);
    }
  }

  /** A syndrome that matches column c is that column. */
  lemma MatchIsColumn(s: seq<Bit>, E: seq<seq<Bit>>, c: nat, R: nat)
    requires |s| == R && HasShape(E, R, c + 1)
    ensures MatchesColumn(s, E, c, R) ==> s == Column(E, c, R)
  {
  }

  /**
   * With odd-weight, pairwise different columns, two errors give a nonzero
   * syndrome of even weight, which matches no column: the recovery word is
   * zero and the received word is left as it is.
   */
  lemma DoubleErrorNotMiscorrected(E: seq<seq<Bit>>, e: seq<Bit>, k: nat, R: nat, p: nat, q: nat)
    requires HasShape(E, R, k + R) && DistinctNonzeroColumns(E, k + R, R)
    requires OddColumns(E, k + R, R)
    requires |e| == k + R && p < |e| && q < |e| && p != q && e == Xor(Unit(|e|, p), Unit(|e|, q))
    ensures HTimes(E, e, R) != Zeros(R)
    ensures Parity(HTimes(E, e, R)) == 0
    ensures Recovery(HTimes(E, e, R), E, k, R) == Zeros(k + R)
  {
    var cp, cq := Column(E, p, R), Column(E, q, R);
    DoubleErrorSyndrome(E, |e|, R, p, q);
    EvenSum(cp, cq);
    RecoveryOfEven(E, Xor(cp, cq), k, R);
  }

  /** The syndrome of errors at p and q is the sum of columns p and q. */
  lemma DoubleErrorSyndrome(E: seq<seq<Bit>>, n: nat, R: nat, p: nat, q: nat)
    requires HasShape(E, R, n) && p < n && q < n
    ensures HTimes(E, Xor(Unit(n, p), Unit(n, q)), R) == Xor(Column(E, p, R), Column(E, q, R))
  {
    HTimesXor(E, Unit(n, p), Unit(n, q), R);
    HTimesUnit(E, n, p, R);
    HTimesUnit(E, n, q, R);
  }

  /** The sum of two different words of odd weight is nonzero and of even weight. */
  lemma EvenSum(a: seq<Bit>, b: seq<Bit>)
    requires |a| == |b| && a != b && Parity(a) == 1 && Parity(b) == 1
    ensures Xor(a, b) != Zeros(|a|) && Parity(Xor(a, b)) == 0
  {
    ParityXor(a, b);
    if Xor(a, b) == Zeros(|a|) {
      XorCancel(a, b);
      XorZeros(b);
    }
  }

  /**
   * The code of a check matrix with an identity redundant block and odd-weight,
   * pairwise different columns detects two errors e: their syndrome is not zero,
   * and decoding leaves the received word unchanged instead of flipping a third bit.
   */
  lemma DetectsDoubleError(E: seq<seq<Bit>>, m: seq<Bit>, e: seq<Bit>, k: nat, R: nat, p: nat, q: nat)
    requires OddHamming(E, k, R)
    requires |m| >= k && |e| == k + R && p < |e| && q < |e| && p != q && e == Xor(Unit(|e|, p), Unit(|e|, q))
    ensures Syndrome(E, Xor(CodeWord(E, m, k, R), e), k, R) != Zeros(R)
    ensures Decode(E, Xor(CodeWord(E, m, k, R), e), k, R) == Xor(CodeWord(E, m, k, R), e)
  {
    var w := Xor(CodeWord(E, m, k, R), e);
    SyndromeOfError(E, m, e, k, R);
    DoubleErrorNotMiscorrected(E, e, k, R, p, q);
    assert Recovery(Syndrome(E, w, k, R), E, k, R) == Zeros(k + R);
    XorZeros(w);
  }

  /** The code of an extended Hamming matrix detects two errors and does not miscorrect them. */
  lemma ExtensionDetectsDoubleError(E: seq<seq<Bit>>, H: seq<seq<Bit>>, m: seq<Bit>, k: nat, r: nat, p: nat, q: nat)
    requires HasShape(H, r, k + r) && IdentityBlock(H, k, r) && DistinctNonzeroColumns(H, k + r, r)
    requires IsExtension(E, H, r, k + r)
    requires |m| >= k && p < k + (r + 1) && q < k + (r + 1) && p != q
    ensures Syndrome(E, Xor(CodeWord(E, m, k, r + 1), Xor(Unit(k + (r + 1), p), Unit(k + (r + 1), q))), k, r + 1)
         != Zeros(r + 1)
    ensures Decode(E, Xor(CodeWord(E, m, k, r + 1), Xor(Unit(k + (r + 1), p), Unit(k + (r + 1), q))), k, r + 1)
         == Xor(CodeWord(E, m, k, r + 1), Xor(Unit(k + (r + 1), p), Unit(k + (r + 1), q)))
  {
    ExtensionIsHamming(E, H, k, r);
    DetectsDoubleError(E, m, Xor(Unit(k + (r + 1), p), Unit(k + (r + 1), q)), k, r + 1, p, q);
  }
}
