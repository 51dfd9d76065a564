/**
 * Block interleaving over the Hamming code.
 *
 * A message is cut into B = ⌈len / k⌉ information words of k bits (the last
 * one padded with zeros), each word is Hamming-encoded into n = k + r bits,
 * and the B × n matrix of code words is sent column by column: bit i of every
 * code word, then bit i + 1, and so on.  A burst of at most B consecutive
 * wrong bits therefore hits every code word at most once, and the Hamming
 * decoder repairs each of them.
 */
module BlockInterleaving {
  import opened Bits
  import HammingCode

  // ---------------------------------------------------------------------------
  // Information words
  // ---------------------------------------------------------------------------

  /** ⌈len / k⌉: the number of k-bit words a message of len bits needs. */
  function Blocks(len: nat, k: nat): nat
    requires k > 0
  {
    (len + k - 1) / k
  }

  /** The words cover the message, with fewer than k bits to spare. */
  lemma BlocksCover(len: nat, k: nat)
    requires k > 0
    ensures len <= Area(Blocks(len, k), k) < len + k
  {
    var x := len + k - 1;
    assert x == (x / k) * k + x % k;
  }

  /** Word i holds message bits i·k … i·k + k - 1, and zeros past the end of the message. */
  function InformationMatrix(m: seq<Bit>, k: nat): (M: seq<seq<Bit>>)
    requires k > 0
    ensures IsMatrix(M, Blocks(|m|, k), k)
  {
    seq(Blocks(|m|, k), i requires 0 <= i =>
      seq(k, j requires 0 <= j => if Area(i, k) + j < |m| then m[Area(i, k) + j] else 0))
  }

  /** Bit j of information word i is message bit i·k + j, or padding. */
  lemma InformationAt(m: seq<Bit>, k: nat, i: nat, j: nat)
    requires k > 0 && i < Blocks(|m|, k) && j < k
    ensures InformationMatrix(m, k)[i][j] == if i * k + j < |m| then m[i * k + j] else 0
  {
    assert Area(i, k) == i * k;
  }

  /** Cuts the message into information words of numberOfInformationBytes bits. */
  method GetInformationBytesMatrix(message: seq<Bit>, numberOfInformationBytes: nat) returns (matrix: seq<seq<Bit>>)
    requires numberOfInformationBytes > 0
    ensures matrix == InformationMatrix(message, numberOfInformationBytes)
  {
    var k := numberOfInformationBytes;
    var B := Blocks(|message|, k);
    ghost var info := InformationMatrix(message, k);
    var m := new Bit[B, k]((_, _) => 0);
    for i := 0 to B
      invariant forall a, b :: 0 <= a < B && 0 <= b < k ==> m[a, b] == if a < i then info[a][b] else 0
    {
      var j := 0;
      while j < k && i * k + j < |message|
        invariant j <= k
        invariant forall a, b :: 0 <= a < B && 0 <= b < k ==>
          m[a, b] == if a < i || (a == i && b < j) then info[a][b] else 0
      {
        InformationAt(message, k, i, j);
        m[i, j] := message[i * k + j];
        j := j + 1;
      }
      forall b | j <= b < k
        ensures info[i][b] == 0
      {
        InformationAt(message, k, i, b);
      }
    }
    matrix := ToRows(m);
    MatrixEqual(matrix, info, B, k);
  }

  /** The first c bits of every row, one row after another. */
  function Flatten(D: seq<seq<Bit>>, c: nat): (s: seq<Bit>)
    requires forall i :: 0 <= i < |D| ==> c <= |D[i]|
    ensures |s| == Area(|D|, c)
  {
    if D == [] then []
    else
      AreaStep(|D| - 1, c);
      Flatten(D[..|D| - 1], c) + D[|D| - 1][..c]
  }

  /** Cell (i, j) of the rows sits at position i·c + j of the flattened word. */
  lemma {:induction false} FlattenAt(D: seq<seq<Bit>>, c: nat, i: nat, j: nat)
    requires forall x :: 0 <= x < |D| ==> c <= |D[x]|
    requires i < |D| && j < c
    ensures Flatten(D, c)[Pos(|D|, c, i, j)] == D[i][j]
    decreases |D|
  {
    var q := |D| - 1;
    AreaStep(q, c);
    if i < q {
      RowInside(i, q, c);
      FlattenAt(D[..q], c, i, j);
    }
  }

  /** A word whose bit i·c + j is D[i][j] for every cell is the flattened matrix. */
  lemma FlattenUnique(s: seq<Bit>, D: seq<seq<Bit>>, R: nat, C: nat)
    requires IsMatrix(D, R, C) && |s| == Area(R, C)
    requires forall i, j :: 0 <= i < R && 0 <= j < C ==> s[Pos(R, C, i, j)] == D[i][j]
    ensures s == Flatten(D, C)
  {
    forall t | 0 <= t < |s|
      ensures s[t] == Flatten(D, C)[t]
    {
      var i, j := PosSplit(t, R, C);
      FlattenAt(D, C, i, j);
    }
  }

  /** Concatenating the information words gives back the message and its padding. */
  lemma MessageOfInformation(m: seq<Bit>, k: nat)
    requires k > 0
    ensures Area(Blocks(|m|, k), k) >= |m|
    ensures Flatten(InformationMatrix(m, k), k) == m + Zeros(Area(Blocks(|m|, k), k) - |m|)
  {
    var B := Blocks(|m|, k);
    BlocksCover(|m|, k);
    var s := m + Zeros(Area(B, k) - |m|);
    forall i, j | 0 <= i < B && 0 <= j < k
      ensures s[Pos(B, k, i, j)] == InformationMatrix(m, k)[i][j]
    {
    }
    FlattenUnique(s, InformationMatrix(m, k), B, k);
  }

  // ---------------------------------------------------------------------------
  // Code words
  // ---------------------------------------------------------------------------

  /** Every information word Hamming-encoded under the check matrix for k and r. */
  function EncodedMatrix(info: seq<seq<Bit>>, k: nat, r: nat): (E: seq<seq<Bit>>)
    requires forall i :: 0 <= i < |info| ==> |info[i]| >= k
    ensures IsMatrix(E, |info|, k + r)
  {
    seq(|info|, i requires 0 <= i < |info| => HammingCode.CodeWord(HammingCode.CheckMatrix(k, r), info[i], k, r))
  }

  /**
   * Encodes every information word.  The rows allocated with codeWordLength
   * bits are all replaced by the encoder's words, so that length plays no part.
   */
  method GetEncodedBytesMatrix(informationMatrix: seq<seq<Bit>>, numberOfInformationBytes: nat,
                               numberOfRedundantBytes: nat, codeWordLength: nat) returns (matrix: seq<seq<Bit>>)
    requires forall i :: 0 <= i < |informationMatrix| ==> |informationMatrix[i]| >= numberOfInformationBytes
    ensures matrix == EncodedMatrix(informationMatrix, numberOfInformationBytes, numberOfRedundantBytes)
  {
    var k, r := numberOfInformationBytes, numberOfRedundantBytes;
    var checkMatrix := HammingCode.GetCheckMatrix(k, r);
    matrix := [];
    for i := 0 to |informationMatrix|
      invariant |matrix| == i
      invariant forall a :: 0 <= a < i ==> matrix[a] == HammingCode.CodeWord(checkMatrix, informationMatrix[a], k, r)
    {
      var word := HammingCode.EncodeMessage(checkMatrix, informationMatrix[i], k, r);
      matrix := matrix + [word];
    }
  }

  // ---------------------------------------------------------------------------
  // Interleaving
  // ---------------------------------------------------------------------------

  /** The cols × rows transpose of a rows × cols matrix. */
  function Transpose(M: seq<seq<Bit>>, rows: nat, cols: nat): (T: seq<seq<Bit>>)
    requires IsMatrix(M, rows, cols)
    ensures IsMatrix(T, cols, rows)
  {
    seq(cols, i requires 0 <= i < cols => seq(rows, j requires 0 <= j < rows => M[j][i]))
  }

  /** A word of rows·cols bits cut into rows of cols bits. */
  function Unflatten(s: seq<Bit>, rows: nat, cols: nat): (M: seq<seq<Bit>>)
    requires |s| == Area(rows, cols)
    ensures IsMatrix(M, rows, cols)
  {
    seq(rows, i requires 0 <= i < rows => seq(cols, j requires 0 <= j < cols => s[Pos(rows, cols, i, j)]))
  }

  /** The transmitted order of a B × n matrix: column by column, position i·B + j carrying M[j][i]. */
  function Interleaved(M: seq<seq<Bit>>, B: nat, n: nat): (s: seq<Bit>)
    requires IsMatrix(M, B, n)
    ensures |s| == Area(n, B)
  {
    Flatten(Transpose(M, B, n), B)
  }

  /** The B × n matrix a received word of n·B bits is read back into: M[j][i] is bit j + B·i. */
  function Deinterleaved(s: seq<Bit>, B: nat, n: nat): (M: seq<seq<Bit>>)
    requires |s| == Area(n, B)
    ensures IsMatrix(M, B, n)
  {
    Transpose(Unflatten(s, n, B), n, B)
  }

  /** Bit i·B + j of the interleaved word is bit i of code word j. */
  lemma InterleavedAt(M: seq<seq<Bit>>, B: nat, n: nat, i: nat, j: nat)
    requires IsMatrix(M, B, n) && i < n && j < B
    ensures Interleaved(M, B, n)[Pos(n, B, i, j)] == M[j][i]
  {
    FlattenAt(Transpose(M, B, n), B, i, j);
  }

  /** Reading the interleaved word back gives the matrix. */
  lemma DeinterleaveInterleaved(M: seq<seq<Bit>>, B: nat, n: nat)
    requires IsMatrix(M, B, n)
    ensures Deinterleaved(Interleaved(M, B, n), B, n) == M
  {
    var D := Deinterleaved(Interleaved(M, B, n), B, n);
    forall j, i | 0 <= j < B && 0 <= i < n
      ensures D[j][i] == M[j][i]
    {
      InterleavedAt(M, B, n, i, j);
    }
    MatrixEqual(D, M, B, n);
  }

  /** Interleaving the matrix read from a word gives back the word. */
  lemma InterleaveDeinterleaved(s: seq<Bit>, B: nat, n: nat)
    requires |s| == Area(n, B)
    ensures Interleaved(Deinterleaved(s, B, n), B, n) == s
  {
    var M := Deinterleaved(s, B, n);
    forall i, j | 0 <= i < n && 0 <= j < B
      ensures s[Pos(n, B, i, j)] == Transpose(M, B, n)[i][j]
    {
    }
    FlattenUnique(s, Transpose(M, B, n), n, B);
  }

  /** Reading back a sum of words gives the sums of the rows. */
  lemma DeinterleaveXor(s: seq<Bit>, e: seq<Bit>, B: nat, n: nat, j: nat)
    requires |s| == |e| == Area(n, B) && j < B
    ensures Deinterleaved(Xor(s, e), B, n)[j] == Xor(Deinterleaved(s, B, n)[j], Deinterleaved(e, B, n)[j])
  {
  }

  /** Interleaves the code words as the Java loops intend: column i of the matrix for every i < n. */
  method GetInterleavedSequence(encodedBytesMatrix: seq<seq<Bit>>) returns (sequence: seq<Bit>)
    requires 1 <= |encodedBytesMatrix| && IsMatrix(encodedBytesMatrix, |encodedBytesMatrix|, |encodedBytesMatrix[0]|)
    ensures sequence == Interleaved(encodedBytesMatrix, |encodedBytesMatrix|, |encodedBytesMatrix[0]|)
  {
    var M := encodedBytesMatrix;
    var B, n := |M|, |M[0]|;
    ghost var I := Interleaved(M, B, n);
    var s := new Bit[B * n];
    assert s.Length == Area(n, B);
    for i := 0 to n
      invariant Area(i, B) <= s.Length
      invariant forall t :: 0 <= t < Area(i, B) ==> s[t] == I[t]
    {
      RowInside(i + 1, n, B);
      WriteColumn(M, B, n, i, s);
    }
    sequence := s[..];
  }

  /** Writes column i of the B × n matrix after the first i columns, as the transmitted order has them. */
  method WriteColumn(M: seq<seq<Bit>>, B: nat, n: nat, i: nat, s: array<Bit>)
    requires IsMatrix(M, B, n) && i < n && s.Length == Area(n, B) && Area(i + 1, B) <= s.Length
    requires forall t :: 0 <= t < Area(i, B) ==> s[t] == Interleaved(M, B, n)[t]
    modifies s
    ensures forall t :: 0 <= t < Area(i + 1, B) ==> s[t] == Interleaved(M, B, n)[t]
  {
    ghost var I := Interleaved(M, B, n);
    AreaStep(i, B);
    for j := 0 to B
      invariant forall t :: 0 <= t < Area(i, B) + j ==> s[t] == I[t]
    {
      InterleavedAt(M, B, n, i, j);
      s[i * B + j] := M[j][i];
    }
  }

  /**
   * The interleaving loop as written: its bound is the length of row i rather
   * than of row 0, so the loop test reads row i for every i up to n and fails
   * with an index out of bounds (None) unless there are more rows than columns.
   */
  method GetInterleavedSequenceAsWritten(encodedBytesMatrix: seq<seq<Bit>>) returns (result: Option<seq<Bit>>)
    requires 1 <= |encodedBytesMatrix| && IsMatrix(encodedBytesMatrix, |encodedBytesMatrix|, |encodedBytesMatrix[0]|)
    ensures result == if |encodedBytesMatrix[0]| < |encodedBytesMatrix|
                      then Some(Interleaved(encodedBytesMatrix, |encodedBytesMatrix|, |encodedBytesMatrix[0]|))
                      else None
  {
    var M := encodedBytesMatrix;
    var B, n := |M|, |M[0]|;
    ghost var I := Interleaved(M, B, n);
    var s := new Bit[B * n];
    assert s.Length == Area(n, B);
    var i := 0;
    while true
      invariant i <= n && i <= B
      invariant Area(i, B) <= s.Length
      invariant forall t :: 0 <= t < Area(i, B) ==> s[t] == I[t]
      decreases n - i
    {
      if i >= B {
        return None;
      }
      if i >= |M[i]| {
        break;
      }
      RowInside(i + 1, n, B);
      WriteColumn(M, B, n, i, s);
      i := i + 1;
    }
    assert i == n && s[..] == I;
    result := Some(s[..]);
  }

  /** A received word whose length is a multiple of n has |s| / n rows. */
  lemma BlocksExact(len: nat, n: nat)
    requires n > 0 && len % n == 0
    ensures Area(n, Blocks(len, n)) == len
  {
    var q := len / n;
    assert len == q * n;
    DivModUnique(len + n - 1, n, q, n - 1);
  }

  /**
   * Reads a received word back into ⌈|s| / n⌉ rows of n bits.  The Java code
   * reads past the end of the word unless n divides its length, and fails on
   * an empty word, so both are required.
   */
  method DeinterleaveSequence(interleavedSequence: seq<Bit>, codeWordLength: nat) returns (matrix: seq<seq<Bit>>)
    requires codeWordLength > 0 && 0 < |interleavedSequence| && |interleavedSequence| % codeWordLength == 0
    ensures |matrix| == Blocks(|interleavedSequence|, codeWordLength)
    ensures Area(codeWordLength, |matrix|) == |interleavedSequence|
    ensures matrix == Deinterleaved(interleavedSequence, |matrix|, codeWordLength)
  {
    var s, n := interleavedSequence, codeWordLength;
    var B := Blocks(|s|, n);
    BlocksExact(|s|, n);
    ghost var D := Deinterleaved(s, B, n);
    var m := new Bit[B, n]((_, _) => 0);
    for i := 0 to n
      invariant forall a, b :: 0 <= a < B && 0 <= b < n ==> m[a, b] == if b < i then D[a][b] else 0
    {
      for j := 0 to B
        invariant forall a, b :: 0 <= a < B && 0 <= b < n ==>
          m[a, b] == if b < i || (b == i && a < j) then D[a][b] else 0
      {
        assert j + B * i == Pos(n, B, i, j);
        m[j, i] := s[j + B * i];
      }
    }
    matrix := ToRows(m);
    MatrixEqual(matrix, D, B, n);
  }

  // ---------------------------------------------------------------------------
  // Recovery and decoding
  // ---------------------------------------------------------------------------

  /** Every received word (its first k + r bits) through the Hamming decoder. */
  ghost function RecoveredMatrix(E: seq<seq<Bit>>, k: nat, r: nat): (D: seq<seq<Bit>>)
    requires forall i :: 0 <= i < |E| ==> |E[i]| >= k + r
    ensures |D| == |E|
  {
    seq(|E|, i requires 0 <= i < |E| => HammingCode.Decode(HammingCode.CheckMatrix(k, r), E[i][..k + r], k, r))
  }

  /** What the decoder's methods compute for one received word is its Hamming syndrome. */
  lemma RowSyndrome(H: seq<seq<Bit>>, w: seq<Bit>, k: nat, r: nat, yr: seq<Bit>, calculatedYr: seq<Bit>)
    requires HammingCode.HasShape(H, r, k + r) && |w| >= k + r
    requires |yr| == r && w[..k] + yr == w[..k + r]
    requires calculatedYr == HammingCode.Redundancy(H, w, k, r)
    ensures HammingCode.HasShape(H, r, k) && Xor(yr, calculatedYr[..|yr|]) == HammingCode.Syndrome(H, w[..k + r], k, r)
  {
    var v := w[..k + r];
    assert v[..k] == w[..k];
    assert yr == v[k..] by {
      assert yr == (w[..k] + yr)[k..];
    }
  }

  /**
   * Recovers every received word with the Hamming decoder, calling
   * getRecoveryBytes with (k, r) as its signature expects.
   */
  method RecoverEncodedBytesMatrix(encodedMatrix: seq<seq<Bit>>, numberOfInformationBytes: nat,
                                   numberOfRedundantBytes: nat, codeWordLength: nat) returns (recoveredBytesMatrix: seq<seq<Bit>>)
    requires 1 <= |encodedMatrix| && |encodedMatrix[0]| == numberOfInformationBytes + numberOfRedundantBytes
    requires forall i :: 0 <= i < |encodedMatrix| ==> |encodedMatrix[i]| >= numberOfInformationBytes + numberOfRedundantBytes
    ensures recoveredBytesMatrix == RecoveredMatrix(encodedMatrix, numberOfInformationBytes, numberOfRedundantBytes)
  {
    var E, k, r := encodedMatrix, numberOfInformationBytes, numberOfRedundantBytes;
    var checkMatrix := HammingCode.GetCheckMatrix(k, r);
    recoveredBytesMatrix := [];
    for i := 0 to |E|
      invariant recoveredBytesMatrix == RecoveredMatrix(E, k, r)[..i]
    {
      var row := RecoverWord(E[i], checkMatrix, k, r, |E[0]|);
      assert RecoveredMatrix(E, k, r)[..i + 1] == RecoveredMatrix(E, k, r)[..i] + [row];
      recoveredBytesMatrix := recoveredBytesMatrix + [row];
    }
    assert RecoveredMatrix(E, k, r)[..|E|] == RecoveredMatrix(E, k, r);
  }

  /** One pass of the recovery loop: the first `width` = k + r bits of a received word plus its recovery word. */
  method RecoverWord(word: seq<Bit>, checkMatrix: seq<seq<Bit>>, k: nat, r: nat, width: nat) returns (row: seq<Bit>)
    requires checkMatrix == HammingCode.CheckMatrix(k, r) && width == k + r && |word| >= width
    ensures row == HammingCode.Decode(checkMatrix, word[..k + r], k, r)
  {
    var yr := HammingCode.GetRedundantBytes(word, k, r);
    var calculatedYr := HammingCode.CalculateRedundantBytes(checkMatrix, word, k, r);
    var syndrome := HammingCode.GetSyndrome(yr, calculatedYr);
    RowSyndrome(checkMatrix, word, k, r, yr, calculatedYr);
    var recoveringBytes := HammingCode.GetRecoveryBytes(syndrome, checkMatrix, k, r);
    // the inner loop adds the recovery word to the first `width` bits, as RecoverMessage does
    row := HammingCode.RecoverMessage(word[..width], recoveringBytes);
    assert recoveringBytes[..width] == recoveringBytes;
  }

  /** The first k bits of every word. */
  function DecodedMatrix(E: seq<seq<Bit>>, k: nat): (D: seq<seq<Bit>>)
    requires forall i :: 0 <= i < |E| ==> |E[i]| >= k
    ensures IsMatrix(D, |E|, k)
  {
    seq(|E|, i requires 0 <= i < |E| => E[i][..k])
  }

  /** Keeps the information part of every word. */
  method DecodeBytesMatrix(encodedMatrix: seq<seq<Bit>>, numberOfInformationBytes: nat) returns (informationBytes: seq<seq<Bit>>)
    requires forall i :: 0 <= i < |encodedMatrix| ==> |encodedMatrix[i]| >= numberOfInformationBytes
    ensures informationBytes == DecodedMatrix(encodedMatrix, numberOfInformationBytes)
  {
    var k := numberOfInformationBytes;
    informationBytes := [];
    for i := 0 to |encodedMatrix|
      invariant |informationBytes| == i
      invariant forall a :: 0 <= a < i ==> informationBytes[a] == encodedMatrix[a][..k]
    {
      var row := new Bit[k];
      ArrayCopy(encodedMatrix[i], 0, row, 0, k);
      informationBytes := informationBytes + [row[..]];
    }
  }

  /** Decoding an encoded matrix keeps exactly the information words. */
  lemma DecodeEncoded(info: seq<seq<Bit>>, k: nat, r: nat)
    requires IsMatrix(info, |info|, k)
    ensures DecodedMatrix(EncodedMatrix(info, k, r), k) == info
  {
    var D := DecodedMatrix(EncodedMatrix(info, k, r), k);
    forall i | 0 <= i < |info|
      ensures D[i] == info[i]
    {
      assert info[i][..k] == info[i];
    }
  }

  /** Concatenates the words, each cut to the length of the first. */
  method GetMessageSequence(decodedBytesMatrix: seq<seq<Bit>>) returns (sequence: seq<Bit>)
    requires 1 <= |decodedBytesMatrix|
    requires forall i :: 0 <= i < |decodedBytesMatrix| ==> |decodedBytesMatrix[i]| >= |decodedBytesMatrix[0]|
    ensures sequence == Flatten(decodedBytesMatrix, |decodedBytesMatrix[0]|)
  {
    var D := decodedBytesMatrix;
    var c := |D[0]|;
    var n := |D| * c;
    var out := new Bit[n](_ => 0);
    assert out[..] == Flatten(D[..0], c) + Zeros(n);
    for i := 0 to |D|
      invariant Area(i, c) <= n
      invariant out[..] == Flatten(D[..i], c) + Zeros(n - Area(i, c))
    {
      CopyWord(D, c, i, out);
    }
    assert D[..|D|] == D;
    sequence := out[..];
  }

  /** One pass of the concatenation loop: word i is copied over the zeros after the first i words. */
  method CopyWord(D: seq<seq<Bit>>, c: nat, i: nat, out: array<Bit>)
    requires forall x :: 0 <= x < |D| ==> c <= |D[x]|
    requires i < |D| && out.Length == |D| * c && Area(i, c) <= out.Length
    requires out[..] == Flatten(D[..i], c) + Zeros(out.Length - Area(i, c))
    modifies out
    ensures Area(i + 1, c) <= out.Length
    ensures out[..] == Flatten(D[..i + 1], c) + Zeros(out.Length - Area(i + 1, c))
  {
    RowInside(i + 1, |D|, c);
    AreaStep(i, c);
    ghost var before := out[..];
    ArrayCopy(D[i], 0, out, i * c, c);
    SequenceStep(D, c, i, out.Length, before, out[..]);
  }

  /** Copying word i over the zeros after the first i words. */
  lemma SequenceStep(D: seq<seq<Bit>>, c: nat, i: nat, n: nat, before: seq<Bit>, after: seq<Bit>)
    requires forall x :: 0 <= x < |D| ==> c <= |D[x]|
    requires i < |D| && Area(i, c) + c <= n
    requires before == Flatten(D[..i], c) + Zeros(n - Area(i, c))
    requires after == before[..Area(i, c)] + D[i][0..c] + before[Area(i, c) + c..]
    ensures Area(i + 1, c) <= n && after == Flatten(D[..i + 1], c) + Zeros(n - Area(i + 1, c))
  {
    AreaStep(i, c);
    OverwriteZeros(Flatten(D[..i], c), D[i][..c], n);
    assert D[i][0..c] == D[i][..c];
    assert D[..i + 1][..i] == D[..i];
  }

  // ---------------------------------------------------------------------------
  // Bursts
  // ---------------------------------------------------------------------------

  /** An error pattern whose ones all lie in the window [a, a + B). */
  ghost predicate Burst(e: seq<Bit>, a: nat, B: nat) {
    forall p :: 0 <= p < |e| && (p < a || a + B <= p) ==> e[p] == 0
  }

  /** A burst of at most B bits touches every read-back word at most once. */
  lemma BurstSpreads(e: seq<Bit>, a: nat, B: nat, n: nat, j: nat)
    requires |e| == Area(n, B) && Burst(e, a, B) && j < B
    ensures Weight(Deinterleaved(e, B, n)[j]) <= 1
  {
    var row := Deinterleaved(e, B, n)[j];
    forall x, y | 0 <= x < y < n
      ensures row[x] == 0 || row[y] == 0
    {
      RowInside(x + 1, y, B);
      AreaStep(x, B);
      assert Pos(n, B, x, j) + B <= Pos(n, B, y, j);
    }
    AtMostOneOne(row);
  }

  /** One received word of the burst pipeline: the code word plus at most one error, decoded. */
  lemma RecoveredRow(info: seq<seq<Bit>>, k: nat, r: nat, received: seq<seq<Bit>>, errors: seq<seq<Bit>>, j: nat)
    requires k + r + 1 <= Pow2(r) && IsMatrix(info, |info|, k)
    requires IsMatrix(received, |info|, k + r) && IsMatrix(errors, |info|, k + r) && j < |info|
    requires received[j] == Xor(EncodedMatrix(info, k, r)[j], errors[j]) && Weight(errors[j]) <= 1
    ensures RecoveredMatrix(received, k, r)[j] == EncodedMatrix(info, k, r)[j]
  {
    var H := HammingCode.CheckMatrix(k, r);
    var w := HammingCode.CodeWord(H, info[j], k, r);
    assert EncodedMatrix(info, k, r)[j] == w;
    assert received[j][..k + r] == received[j];
    assert RecoveredMatrix(received, k, r)[j] == HammingCode.Decode(H, Xor(w, errors[j]), k, r);
    HammingCode.CheckMatrixCorrectsSingleError(k, r, info[j], errors[j]);
  }

  /**
   * Burst correction: encode, interleave, add a burst of at most B wrong bits,
   * read back, recover and decode; concatenated, the words give back the
   * message followed by its padding.
   */
  lemma CorrectsBurst(m: seq<Bit>, k: nat, r: nat, e: seq<Bit>, a: nat)
    requires 0 < k && k + r + 1 <= Pow2(r)
    requires |e| == Area(k + r, Blocks(|m|, k)) && Burst(e, a, Blocks(|m|, k))
    ensures Area(Blocks(|m|, k), k) >= |m|
    ensures var B, n := Blocks(|m|, k), k + r;
      var sent := Interleaved(EncodedMatrix(InformationMatrix(m, k), k, r), B, n);
      Flatten(DecodedMatrix(RecoveredMatrix(Deinterleaved(Xor(sent, e), B, n), k, r), k), k)
        == m + Zeros(Area(B, k) - |m|)
  {
    var B, n := Blocks(|m|, k), k + r;
    var info := InformationMatrix(m, k);
    var M := EncodedMatrix(info, k, r);
    var sent := Interleaved(M, B, n);
    var received := Deinterleaved(Xor(sent, e), B, n);
    var errors := Deinterleaved(e, B, n);
    DeinterleaveInterleaved(M, B, n);
    forall j | 0 <= j < B
      ensures RecoveredMatrix(received, k, r)[j] == M[j]
    {
      DeinterleaveXor(sent, e, B, n, j);
      BurstSpreads(e, a, B, n, j);
      RecoveredRow(info, k, r, received, errors, j);
    }
    assert RecoveredMatrix(received, k, r) == M;
    DecodeEncoded(info, k, r);
    MessageOfInformation(m, k);
  }

  // ---------------------------------------------------------------------------
  // The recovery call as written
  // ---------------------------------------------------------------------------

  /** How the recovery scan of HammingCode ends on column c, for arbitrary arguments. */
  datatype ColumnProbe = Differs | Matches | OutOfBounds

  /**
   * The inner loop of HammingCode's recovery scan on column c from row j on,
   * called with rArg for the number of redundant bits: it reads syndrome[j]
   * and checkMatrix[j][c], stops at the first difference, and reports a match
   * when row rArg - 1 agrees.
   */
  function ProbeColumn(s: seq<Bit>, H: seq<seq<Bit>>, c: nat, rArg: nat, j: nat): ColumnProbe
    decreases rArg - j
  {
    if j >= rArg then Differs
    else if j >= |s| || j >= |H| || c >= |H[j]| then OutOfBounds
    else if s[j] != H[j][c] then Differs
    else if j == rArg - 1 then Matches
    else ProbeColumn(s, H, c, rArg, j + 1)
  }

  /** Whether the recovery scan from column c on, called with (kArg, rArg), fails with an index out of bounds. */
  function ScanThrows(s: seq<Bit>, H: seq<seq<Bit>>, kArg: nat, rArg: nat, c: nat): bool
    decreases kArg + rArg - c
  {
    if c >= kArg + rArg then false
    else
      match ProbeColumn(s, H, c, rArg, 0)
      case OutOfBounds => true
      case Matches => false
      case Differs => ScanThrows(s, H, kArg, rArg, c + 1)
  }

  /** With arguments inside the matrix the probe never leaves it. */
  lemma {:induction false} ProbeInside(s: seq<Bit>, H: seq<seq<Bit>>, k: nat, r: nat, c: nat, j: nat)
    requires HammingCode.HasShape(H, r, k + r) && |s| >= r && c < k + r
    ensures ProbeColumn(s, H, c, r, j) != OutOfBounds
    decreases r - j
  {
    if j < r && s[j] == H[j][c] && j != r - 1 {
      ProbeInside(s, H, k, r, c, j + 1);
    }
  }

  /** Called with (k, r), as its signature expects, the scan never fails. */
  lemma {:induction false} IntendedScanSafe(s: seq<Bit>, H: seq<seq<Bit>>, k: nat, r: nat, c: nat)
    requires HammingCode.HasShape(H, r, k + r) && |s| >= r
    ensures !ScanThrows(s, H, k, r, c)
    decreases k + r - c
  {
    if c < k + r {
      ProbeInside(s, H, k, r, c, 0);
      IntendedScanSafe(s, H, k, r, c + 1);
    }
  }

  /** With n rows expected and only r < n available, the probe reads past the syndrome before it can match. */
  lemma {:induction false} ProbeNeverMatches(s: seq<Bit>, H: seq<seq<Bit>>, c: nat, r: nat, n: nat, j: nat)
    requires |s| == r && |H| == r && r < n && j <= r
    ensures ProbeColumn(s, H, c, n, j) != Matches
    decreases r - j
  {
    if j < r && c < |H[j]| && s[j] == H[j][c] {
      ProbeNeverMatches(s, H, c, r, n, j + 1);
    }
  }

  /** From column c ≤ n on, the swapped scan fails: no column matches, and column n is past the matrix. */
  lemma {:induction false} SwappedScanFrom(s: seq<Bit>, k: nat, r: nat, c: nat)
    requires 1 <= k && 1 <= r && |s| == r && c <= k + r
    ensures ScanThrows(s, HammingCode.CheckMatrix(k, r), r, k + r, c)
    decreases k + r - c
  {
    var H := HammingCode.CheckMatrix(k, r);
    ProbeNeverMatches(s, H, c, r, k + r, 0);
    if c < k + r {
      SwappedScanFrom(s, k, r, c + 1);
    }
  }

  /**
   * The recovery call as written passes (r, n) where getRecoveryBytes expects
   * (k, r); for every syndrome of r bits and every k, r ≥ 1 it fails.
   */
  lemma SwappedRecoveryThrows(k: nat, r: nat, syndrome: seq<Bit>)
    requires 1 <= k && 1 <= r && |syndrome| == r
    ensures ScanThrows(syndrome, HammingCode.CheckMatrix(k, r), r, k + r, 0)
    ensures !ScanThrows(syndrome, HammingCode.CheckMatrix(k, r), k, r, 0)
  {
    SwappedScanFrom(syndrome, k, r, 0);
    IntendedScanSafe(syndrome, HammingCode.CheckMatrix(k, r), k, r, 0);
  }
}
