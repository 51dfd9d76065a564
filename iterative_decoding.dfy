/**
 * The receiving side of the iterative code as the usage blueprint chains it:
 * cut off the data bits, recompute their redundant bits, form the syndrome,
 * derive the recovery bits and apply them.  The lemmas show that the
 * syndrome depends on the error pattern only, that a single wrong data bit is
 * corrected, that a single wrong row or column parity bit makes the receiver
 * ask for the word again, and that the received corner bit is never looked at.
 */
module IterativeDecoding {
  import opened Bits
  import opened IterativeCode

  /** The check bits of a syndrome: received against computed parity bits, then one overall check. */
  function Checks(received: seq<Bit>, computed: seq<Bit>, all: Bit, data: Bit): (s: seq<Bit>)
    requires |received| == |computed|
  {
    Xor(received, computed) + [XorBit(all, data)]
  }

  /**
   * The syndrome of a received word: its R + C row and column parity bits
   * against those recomputed from its data bits, then the total sum of the
   * received grid (the parity of every received bit before the corner)
   * against the recomputed corner bit.
   */
  function Syndrome(w: seq<Bit>, R: nat, C: nat): (s: seq<Bit>)
    requires Area(R, C) + R + C + 1 <= |w|
    ensures |s| == R + C + 1
  {
    var n, m := Area(R, C), Area(R, C) + R + C;
    var computed := Redundant(w[..n], R, C);
    Checks(w[n..m], computed[..R + C], Parity(w[..m]), computed[R + C])
  }

  /**
   * The decoder's output: the R·C data bits with the recovery bits applied,
   * or nothing (a request to resend) when the last syndrome bit is set.
   */
  function Decode(w: seq<Bit>, R: nat, C: nat): (d: seq<Bit>)
    requires Area(R, C) + R + C + 1 <= |w|
  {
    var s := Syndrome(w, R, C);
    Restore(w, if s[R + C] == 1 then [] else Recovery(s, R, C))
  }

  /** The full receiving pipeline: its result is Decode of the received word. */
  method Receive(receivedEncodedMessage: seq<Bit>, numberOfRows: nat, numberOfColumns: nat) returns (recoveredMessage: seq<Bit>)
    requires Area(numberOfRows, numberOfColumns) + numberOfRows + numberOfColumns + 1 <= |receivedEncodedMessage|
    ensures recoveredMessage == Decode(receivedEncodedMessage, numberOfRows, numberOfColumns)
  {
    var w, R, C := receivedEncodedMessage, numberOfRows, numberOfColumns;
    var data := GetMessageWithoutRedundantBytes(w, R, C);
    var received := GetRedundantBytesFromMessage(w, R, C);
    var calculated := CalculateRedundantBytes(data, R, C);
    var syndrome := GetSyndrome(received, calculated, w, R, C);
    TotalSumOfLayout(w, R, C);
    SyndromeAgrees(w, R, C, data, received, calculated, syndrome);
    var recoveryBytes := GetRecoveryBytes(syndrome, R, C);
    recoveredMessage := RecoverMessage(w, recoveryBytes);
  }

  /** What the decoder's methods return adds up to the syndrome of the received word. */
  lemma SyndromeAgrees(w: seq<Bit>, R: nat, C: nat, data: seq<Bit>, received: seq<Bit>, calculated: seq<Bit>, syndrome: seq<Bit>)
    requires Area(R, C) + R + C + 1 <= |w|
    requires |data| == Area(R, C) && forall t :: 0 <= t < |data| ==> data[t] == w[t]
    requires |received| == R + C + 1 && w[..Area(R, C)] + received == w[..Area(R, C) + |received|]
    requires calculated == Redundant(data, R, C)
    requires |syndrome| == |received|
    requires forall k :: 0 <= k < |syndrome| - 1 ==> syndrome[k] == XorBit(received[k], calculated[k])
    requires syndrome[|syndrome| - 1] == XorBit(Parity(w[..Area(R, C) + R + C]), calculated[|calculated| - 1])
    ensures syndrome == Syndrome(w, R, C)
  {
    PrefixOfWord(w, data);
    ReceivedBehind(w, Area(R, C), received);
    ChecksPointwise(syndrome, received, calculated, Parity(w[..Area(R, C) + R + C]));
  }

  /** A sequence that agrees with a longer one position by position is its prefix. */
  lemma PrefixOfWord(w: seq<Bit>, data: seq<Bit>)
    requires |data| <= |w| && forall t :: 0 <= t < |data| ==> data[t] == w[t]
    ensures data == w[..|data|]
  {
  }

  /** The bits read behind the first n, without the last, are a slice of the word. */
  lemma ReceivedBehind(w: seq<Bit>, n: nat, received: seq<Bit>)
    requires 1 <= |received| && n + |received| <= |w| && w[..n] + received == w[..n + |received|]
    ensures received[..|received| - 1] == w[n .. n + |received| - 1]
  {
    assert received == (w[..n] + received)[n..];
  }

  /** Checks computed bit by bit. */
  lemma ChecksPointwise(syndrome: seq<Bit>, received: seq<Bit>, calculated: seq<Bit>, all: Bit)
    requires 1 <= |syndrome| == |received| == |calculated|
    requires forall k :: 0 <= k < |syndrome| - 1 ==> syndrome[k] == XorBit(received[k], calculated[k])
    requires syndrome[|syndrome| - 1] == XorBit(all, calculated[|calculated| - 1])
    ensures syndrome == Checks(received[..|received| - 1], calculated[..|calculated| - 1], all, calculated[|calculated| - 1])
  {
  }

  // ---------------------------------------------------------------------------
  // The syndrome in closed form, and its linearity
  // ---------------------------------------------------------------------------

  /** Row parities followed by column parities. */
  function Sides(d: seq<Bit>, R: nat, C: nat): (p: seq<Bit>)
    requires Area(R, C) <= |d|
    ensures |p| == R + C
  {
    RowParities(d, R, C) + ColumnParities(d, R, C)
  }

  /**
   * The syndrome written out: the first R + C bits compare the received row
   * and column parity bits with those of the received data; the last bit is
   * the parity of the received row and column parity bits.
   */
  function SyndromeBits(w: seq<Bit>, R: nat, C: nat): seq<Bit>
    requires Area(R, C) + R + C + 1 <= |w|
  {
    var n := Area(R, C);
    Checks(w[n .. n + R + C], Sides(w[..n], R, C), Parity(w[..n + R + C]), Parity(w[..n]))
  }

  /** The redundant bits of the data, without the corner, are its row and column parities. */
  lemma RedundantSides(d: seq<Bit>, R: nat, C: nat)
    requires Area(R, C) == |d|
    ensures Redundant(d, R, C)[..R + C] == Sides(d, R, C)
    ensures Redundant(d, R, C)[R + C] == Parity(d)
  {
    CornerIsDataParity(d, R, C);
    assert d[..Area(R, C)] == d;
  }

  /** The syndrome in terms of the received bits alone; the received corner bit plays no part. */
  lemma SyndromeForm(w: seq<Bit>, R: nat, C: nat)
    requires Area(R, C) + R + C + 1 <= |w|
    ensures Syndrome(w, R, C) == SyndromeBits(w, R, C)
  {
    RedundantSides(w[..Area(R, C)], R, C);
  }

  /** Row parities are linear. */
  lemma RowParitiesXor(d: seq<Bit>, e: seq<Bit>, R: nat, C: nat)
    requires |d| == |e| == Area(R, C)
    ensures RowParities(Xor(d, e), R, C) == Xor(RowParities(d, R, C), RowParities(e, R, C))
  {
    forall i | 0 <= i < R
      ensures RowParities(Xor(d, e), R, C)[i] == XorBit(RowParities(d, R, C)[i], RowParities(e, R, C)[i])
    {
      RowInside(i, R, C);
      XorSlice(d, e, Area(i, C), Area(i, C) + C);
      ParityXor(RowBits(d, R, C, i), RowBits(e, R, C, i));
    }
  }

  /** Column parities are linear. */
  lemma ColumnParitiesXor(d: seq<Bit>, e: seq<Bit>, R: nat, C: nat)
    requires |d| == |e| == Area(R, C)
    ensures ColumnParities(Xor(d, e), R, C) == Xor(ColumnParities(d, R, C), ColumnParities(e, R, C))
  {
    forall j | 0 <= j < C
      ensures ColumnParities(Xor(d, e), R, C)[j] == XorBit(ColumnParities(d, R, C)[j], ColumnParities(e, R, C)[j])
    {
      assert ColumnBits(Xor(d, e), R, C, j) == Xor(ColumnBits(d, R, C, j), ColumnBits(e, R, C, j));
      ParityXor(ColumnBits(d, R, C, j), ColumnBits(e, R, C, j));
    }
  }

  /** The parity bits computed from a sum of data words are the sums of their parity bits. */
  lemma SidesXor(d: seq<Bit>, e: seq<Bit>, R: nat, C: nat)
    requires |d| == |e| == Area(R, C)
    ensures Sides(Xor(d, e), R, C) == Xor(Sides(d, R, C), Sides(e, R, C))
  {
    RowParitiesXor(d, e, R, C);
    ColumnParitiesXor(d, e, R, C);
    XorAppend(RowParities(d, R, C), ColumnParities(d, R, C), RowParities(e, R, C), ColumnParities(e, R, C));
  }

  /** Slices of a sum are sums of slices. */
  lemma XorPieces(u: seq<Bit>, v: seq<Bit>, n: nat, m: nat)
    requires |u| == |v| && n <= m <= |u|
    ensures Xor(u, v)[..n] == Xor(u[..n], v[..n])
    ensures Xor(u, v)[..m] == Xor(u[..m], v[..m])
    ensures Xor(u, v)[n..m] == Xor(u[n..m], v[n..m])
  {
  }

  /** Adding two syndromes piece by piece. */
  lemma CombineXor(a: seq<Bit>, s: seq<Bit>, x: Bit, y: Bit, a': seq<Bit>, s': seq<Bit>, x': Bit, y': Bit)
    requires |a| == |s| == |a'| == |s'|
    ensures Checks(Xor(a, a'), Xor(s, s'), XorBit(x, x'), XorBit(y, y')) == Xor(Checks(a, s, x, y), Checks(a', s', x', y'))
  {
  }

  /** Each piece of the written-out syndrome of a sum is the sum of the pieces. */
  lemma PiecesXor(u: seq<Bit>, v: seq<Bit>, R: nat, C: nat, n: nat, m: nat)
    requires n == Area(R, C) && m == n + R + C && |u| == |v| == m + 1
    ensures var w := Xor(u, v);
      w[n..m] == Xor(u[n..m], v[n..m]) &&
      Sides(w[..n], R, C) == Xor(Sides(u[..n], R, C), Sides(v[..n], R, C)) &&
      Parity(w[..m]) == XorBit(Parity(u[..m]), Parity(v[..m])) &&
      Parity(w[..n]) == XorBit(Parity(u[..n]), Parity(v[..n]))
  {
    XorPieces(u, v, n, m);
    SidesXor(u[..n], v[..n], R, C);
    ParityXor(u[..n], v[..n]);
    ParityXor(u[..m], v[..m]);
  }

  /** The syndrome of a sum of words is the sum of their syndromes. */
  lemma SyndromeXor(u: seq<Bit>, v: seq<Bit>, R: nat, C: nat)
    requires |u| == |v| == Area(R, C) + R + C + 1
    ensures Syndrome(Xor(u, v), R, C) == Xor(Syndrome(u, R, C), Syndrome(v, R, C))
  {
    var n, m := Area(R, C), Area(R, C) + R + C;
    var a, s, x, y := u[n..m], Sides(u[..n], R, C), Parity(u[..m]), Parity(u[..n]);
    var a', s', x', y' := v[n..m], Sides(v[..n], R, C), Parity(v[..m]), Parity(v[..n]);
    PiecesXor(u, v, R, C, n, m);
    SyndromeOfPieces(u, R, C, a, s, x, y);
    SyndromeOfPieces(v, R, C, a', s', x', y');
    SyndromeOfPieces(Xor(u, v), R, C, Xor(a, a'), Xor(s, s'), XorBit(x, x'), XorBit(y, y'));
    CombineXor(a, s, x, y, a', s', x', y');
  }

  // ---------------------------------------------------------------------------
  // Syndromes of code words and of single errors
  // ---------------------------------------------------------------------------

  /** The parity bits of the all-zero data word are all zero. */
  lemma SidesOfZeros(R: nat, C: nat)
    ensures Sides(Zeros(Area(R, C)), R, C) == Zeros(R + C)
  {
    var z := Zeros(Area(R, C));
    forall i | 0 <= i < R
      ensures RowParities(z, R, C)[i] == 0
    {
      RowInside(i, R, C);
      assert RowBits(z, R, C, i) == Zeros(C);
      ParityZeros(C);
    }
    forall j | 0 <= j < C
      ensures ColumnParities(z, R, C)[j] == 0
    {
      assert ColumnBits(z, R, C, j) == Zeros(R);
      ParityZeros(R);
    }
    assert RowParities(z, R, C) == Zeros(R);
    assert ColumnParities(z, R, C) == Zeros(C);
  }

  /** Row a of a single data error at (i, j) holds the error exactly when a == i. */
  lemma RowOfUnit(R: nat, C: nat, i: nat, j: nat, a: nat)
    requires i < R && j < C && a < R
    ensures RowBits(Unit(Area(R, C), Pos(R, C, i, j)), R, C, a) == if a == i then Unit(C, j) else Zeros(C)
  {
    var u, row := Unit(Area(R, C), Pos(R, C, i, j)), RowBits(Unit(Area(R, C), Pos(R, C, i, j)), R, C, a);
    RowInside(a, R, C);
    forall b | 0 <= b < C
      ensures row[b] == if a == i && b == j then 1 else 0
    {
      assert row[b] == u[Pos(R, C, a, b)];
      if Pos(R, C, a, b) == Pos(R, C, i, j) {
        PosInjective(R, C, a, b, i, j);
      }
    }
  }

  /** Column b of a single data error at (i, j) holds the error exactly when b == j. */
  lemma ColumnOfUnit(R: nat, C: nat, i: nat, j: nat, b: nat)
    requires i < R && j < C && b < C
    ensures ColumnBits(Unit(Area(R, C), Pos(R, C, i, j)), R, C, b) == if b == j then Unit(R, i) else Zeros(R)
  {
    var col := ColumnBits(Unit(Area(R, C), Pos(R, C, i, j)), R, C, b);
    forall a | 0 <= a < R
      ensures col[a] == if a == i && b == j then 1 else 0
    {
      if Pos(R, C, a, b) == Pos(R, C, i, j) {
        PosInjective(R, C, a, b, i, j);
      }
    }
  }

  /** A single data error at (i, j) makes exactly row i and column j odd. */
  lemma SidesOfUnit(R: nat, C: nat, i: nat, j: nat)
    requires i < R && j < C
    ensures Sides(Unit(Area(R, C), Pos(R, C, i, j)), R, C) == Unit(R, i) + Unit(C, j)
  {
    var u := Unit(Area(R, C), Pos(R, C, i, j));
    forall a | 0 <= a < R
      ensures RowParities(u, R, C)[a] == if a == i then 1 else 0
    {
      RowOfUnit(R, C, i, j, a);
      WeightUnit(C, j);
      ParityZeros(C);
    }
    forall b | 0 <= b < C
      ensures ColumnParities(u, R, C)[b] == if b == j then 1 else 0
    {
      ColumnOfUnit(R, C, i, j, b);
      WeightUnit(R, i);
      ParityZeros(R);
    }
  }

  /** Every code word has the zero syndrome. */
  lemma SyndromeOfCodeWord(data: seq<Bit>, R: nat, C: nat)
    requires Area(R, C) <= |data|
    ensures Syndrome(CodeWord(data, R, C), R, C) == Zeros(R + C + 1)
  {
    CodeWordPieces(data, R, C);
    CodeWordParity(data, R, C);
    SyndromeOfPieces(CodeWord(data, R, C), R, C, Sides(data[..Area(R, C)], R, C), Sides(data[..Area(R, C)], R, C),
      Parity(data[..Area(R, C)]), Parity(data[..Area(R, C)]));
    ChecksOfCodeWord(Sides(data[..Area(R, C)], R, C), R + C, Parity(data[..Area(R, C)]));
  }

  /** A code word carries the data's row and column parities behind the data. */
  lemma CodeWordPieces(data: seq<Bit>, R: nat, C: nat)
    requires Area(R, C) <= |data|
    ensures CodeWord(data, R, C)[..Area(R, C)] == data[..Area(R, C)]
    ensures CodeWord(data, R, C)[Area(R, C) .. Area(R, C) + R + C] == Sides(data[..Area(R, C)], R, C)
    ensures CodeWord(data, R, C)[..Area(R, C) + R + C] == data[..Area(R, C)] + Sides(data[..Area(R, C)], R, C)
  {
    RedundantOfPrefix(data, R, C);
    RedundantSides(data[..Area(R, C)], R, C);
  }

  /** The data and its row and column parities together have the parity of the data. */
  lemma CodeWordParity(data: seq<Bit>, R: nat, C: nat)
    requires Area(R, C) <= |data|
    ensures Parity(CodeWord(data, R, C)[..Area(R, C) + R + C]) == Parity(data[..Area(R, C)])
  {
    CodeWordPieces(data, R, C);
    CornerIsDataParity(data[..Area(R, C)], R, C);
    RedundantOfPrefix(data, R, C);
    RedundantSides(data[..Area(R, C)], R, C);
  }

  /** The checks of a word whose parity bits match its data. */
  lemma ChecksOfCodeWord(s: seq<Bit>, L: nat, x: Bit)
    requires |s| == L
    ensures Checks(s, s, x, x) == Zeros(L + 1)
  {
    XorSelf(s);
  }

  /** A prefix of a unit word. */
  lemma UnitPrefix(L: nat, p: nat, b: nat)
    requires p < L && b <= L
    ensures Unit(L, p)[..b] == if p < b then Unit(b, p) else Zeros(b)
  {
  }

  /** A slice of a unit word. */
  lemma UnitSlice(L: nat, p: nat, a: nat, b: nat)
    requires p < L && a <= b <= L
    ensures Unit(L, p)[a..b] == if a <= p < b then Unit(b - a, p - a) else Zeros(b - a)
  {
  }

  /** The checks of a word whose received parity bits are all zero and whose overall check passes. */
  lemma ChecksOfData(s: seq<Bit>, L: nat, x: Bit)
    requires |s| == L
    ensures Checks(Zeros(L), s, x, x) == s + [0]
  {
  }

  /** The checks of a word whose computed parity bits are all zero and whose overall check fails. */
  lemma ChecksOfParity(a: seq<Bit>, L: nat)
    requires |a| == L
    ensures Checks(a, Zeros(L), 1, 0) == a + [1]
  {
  }

  /** All checks pass. */
  lemma ChecksOfNothing(L: nat)
    ensures Checks(Zeros(L), Zeros(L), 0, 0) == Zeros(L + 1)
  {
  }

  /** The syndrome from its four pieces. */
  lemma SyndromeOfPieces(e: seq<Bit>, R: nat, C: nat, a: seq<Bit>, s: seq<Bit>, x: Bit, y: Bit)
    requires Area(R, C) + R + C + 1 == |e|
    requires e[Area(R, C) .. Area(R, C) + R + C] == a && Sides(e[..Area(R, C)], R, C) == s
    requires Parity(e[..Area(R, C) + R + C]) == x && Parity(e[..Area(R, C)]) == y
    ensures Syndrome(e, R, C) == Checks(a, s, x, y)
  {
    SyndromeForm(e, R, C);
  }

  /** A single error in data cell (i, j) has row i and column j in its syndrome, and a clear last bit. */
  lemma SyndromeOfDataError(R: nat, C: nat, i: nat, j: nat)
    requires i < R && j < C
    ensures Syndrome(Unit(Area(R, C) + R + C + 1, Pos(R, C, i, j)), R, C) == Unit(R, i) + Unit(C, j) + [0]
  {
    DataErrorPieces(R, C, i, j);
    SyndromeOfPieces(Unit(Area(R, C) + R + C + 1, Pos(R, C, i, j)), R, C, Zeros(R + C), Unit(R, i) + Unit(C, j), 1, 1);
    ChecksOfData(Unit(R, i) + Unit(C, j), R + C, 1);
  }

  /** The pieces of the syndrome of a single data error. */
  lemma DataErrorPieces(R: nat, C: nat, i: nat, j: nat)
    requires i < R && j < C
    ensures var n, m, e := Area(R, C), Area(R, C) + R + C, Unit(Area(R, C) + R + C + 1, Pos(R, C, i, j));
      e[n..m] == Zeros(R + C) && Sides(e[..n], R, C) == Unit(R, i) + Unit(C, j) &&
      Parity(e[..m]) == 1 && Parity(e[..n]) == 1
  {
    UnitSlice(Area(R, C) + R + C + 1, Pos(R, C, i, j), Area(R, C), Area(R, C) + R + C);
    DataErrorSides(R, C, i, j);
    DataErrorParity(R, C, i, j, Area(R, C) + R + C);
    DataErrorParity(R, C, i, j, Area(R, C));
  }

  lemma DataErrorSides(R: nat, C: nat, i: nat, j: nat)
    requires i < R && j < C
    ensures Sides(Unit(Area(R, C) + R + C + 1, Pos(R, C, i, j))[..Area(R, C)], R, C) == Unit(R, i) + Unit(C, j)
  {
    UnitPrefix(Area(R, C) + R + C + 1, Pos(R, C, i, j), Area(R, C));
    SidesOfUnit(R, C, i, j);
  }

  lemma DataErrorParity(R: nat, C: nat, i: nat, j: nat, b: nat)
    requires i < R && j < C && Area(R, C) <= b <= Area(R, C) + R + C
    ensures Parity(Unit(Area(R, C) + R + C + 1, Pos(R, C, i, j))[..b]) == 1
  {
    UnitPrefix(Area(R, C) + R + C + 1, Pos(R, C, i, j), b);
    WeightUnit(b, Pos(R, C, i, j));
  }

  /** A single error in the row or column parity bit at position p sets that bit and the last bit of the syndrome. */
  lemma SyndromeOfParityError(R: nat, C: nat, p: nat)
    requires Area(R, C) <= p < Area(R, C) + R + C
    ensures Syndrome(Unit(Area(R, C) + R + C + 1, p), R, C) == Unit(R + C, p - Area(R, C)) + [1]
  {
    UnitSlice(Area(R, C) + R + C + 1, p, Area(R, C), Area(R, C) + R + C);
    CleanDataSides(R, C, p);
    ParityErrorParity(R, C, p);
    CleanDataParity(R, C, p);
    SyndromeOfPieces(Unit(Area(R, C) + R + C + 1, p), R, C, Unit(R + C, p - Area(R, C)), Zeros(R + C), 1, 0);
    ChecksOfParity(Unit(R + C, p - Area(R, C)), R + C);
  }

  /** An error outside the data part leaves the data part's parities zero. */
  lemma CleanDataSides(R: nat, C: nat, p: nat)
    requires Area(R, C) <= p <= Area(R, C) + R + C
    ensures Sides(Unit(Area(R, C) + R + C + 1, p)[..Area(R, C)], R, C) == Zeros(R + C)
  {
    UnitPrefix(Area(R, C) + R + C + 1, p, Area(R, C));
    SidesOfZeros(R, C);
  }

  lemma CleanDataParity(R: nat, C: nat, p: nat)
    requires Area(R, C) <= p <= Area(R, C) + R + C
    ensures Parity(Unit(Area(R, C) + R + C + 1, p)[..Area(R, C)]) == 0
  {
    UnitPrefix(Area(R, C) + R + C + 1, p, Area(R, C));
    ParityZeros(Area(R, C));
  }

  lemma ParityErrorParity(R: nat, C: nat, p: nat)
    requires Area(R, C) <= p < Area(R, C) + R + C
    ensures Parity(Unit(Area(R, C) + R + C + 1, p)[..Area(R, C) + R + C]) == 1
  {
    UnitPrefix(Area(R, C) + R + C + 1, p, Area(R, C) + R + C);
    WeightUnit(Area(R, C) + R + C, p);
  }

  /** An error in the corner bit leaves the syndrome zero. */
  lemma SyndromeOfCornerError(R: nat, C: nat)
    ensures Syndrome(Unit(Area(R, C) + R + C + 1, Area(R, C) + R + C), R, C) == Zeros(R + C + 1)
  {
    CornerErrorParity(R, C);
    CleanDataSides(R, C, Area(R, C) + R + C);
    CleanDataParity(R, C, Area(R, C) + R + C);
    SyndromeOfPieces(Unit(Area(R, C) + R + C + 1, Area(R, C) + R + C), R, C, Zeros(R + C), Zeros(R + C), 0, 0);
    ChecksOfNothing(R + C);
  }

  lemma CornerErrorParity(R: nat, C: nat)
    ensures Unit(Area(R, C) + R + C + 1, Area(R, C) + R + C)[Area(R, C) .. Area(R, C) + R + C] == Zeros(R + C)
    ensures Parity(Unit(Area(R, C) + R + C + 1, Area(R, C) + R + C)[..Area(R, C) + R + C]) == 0
  {
    UnitSlice(Area(R, C) + R + C + 1, Area(R, C) + R + C, Area(R, C), Area(R, C) + R + C);
    UnitPrefix(Area(R, C) + R + C + 1, Area(R, C) + R + C, Area(R, C) + R + C);
    ParityZeros(Area(R, C) + R + C);
  }

  /** The syndrome of a code word with errors e is the syndrome of e. */
  lemma SyndromeOfReceived(data: seq<Bit>, R: nat, C: nat, e: seq<Bit>)
    requires Area(R, C) <= |data| && |e| == Area(R, C) + R + C + 1
    ensures Syndrome(Xor(CodeWord(data, R, C), e), R, C) == Syndrome(e, R, C)
  {
    SyndromeXor(CodeWord(data, R, C), e, R, C);
    SyndromeOfCodeWord(data, R, C);
    XorZeros(Syndrome(e, R, C));
  }

  // ---------------------------------------------------------------------------
  // Recovery
  // ---------------------------------------------------------------------------

  /** A syndrome that marks row i and column j recovers exactly data cell (i, j). */
  lemma RecoveryOfDataError(R: nat, C: nat, i: nat, j: nat)
    requires i < R && j < C
    ensures Recovery(Unit(R, i) + Unit(C, j) + [0], R, C) == Unit(Area(R, C), Pos(R, C, i, j))
  {
    var s, rec, u := Unit(R, i) + Unit(C, j) + [0], Recovery(Unit(R, i) + Unit(C, j) + [0], R, C), Unit(Area(R, C), Pos(R, C, i, j));
    forall t | 0 <= t < Area(R, C)
      ensures rec[t] == u[t]
    {
      var a, b := PosSplit(t, R, C);
      RecoveryAt(s, R, C, a, b);
      assert s[a] == Unit(R, i)[a] && s[R + b] == Unit(C, j)[b];
      if t == Pos(R, C, i, j) {
        PosInjective(R, C, a, b, i, j);
      }
    }
  }

  /** The zero syndrome recovers nothing. */
  lemma RecoveryOfZeros(R: nat, C: nat, L: nat)
    ensures Recovery(Zeros(L), R, C) == Zeros(Area(R, C))
  {
    forall t | 0 <= t < Area(R, C)
      ensures Recovery(Zeros(L), R, C)[t] == 0
    {
      var a, b := PosSplit(t, R, C);
      RecoveryAt(Zeros(L), R, C, a, b);
    }
  }

  // ---------------------------------------------------------------------------
  // Decoding
  // ---------------------------------------------------------------------------

  /**
   * Decoding a code word with errors e: a resend request when the last bit of
   * e's syndrome is set, otherwise the received data bits with the recovery
   * bits of e's syndrome applied.
   */
  lemma DecodeReceived(data: seq<Bit>, R: nat, C: nat, e: seq<Bit>)
    requires Area(R, C) <= |data| && |e| == Area(R, C) + R + C + 1
    ensures var s, n := Syndrome(e, R, C), Area(R, C);
      Decode(Xor(CodeWord(data, R, C), e), R, C) ==
        if s[R + C] == 1 then [] else Xor(Xor(data[..n], e[..n]), Recovery(s, R, C))
  {
    var n := Area(R, C);
    SyndromeOfReceived(data, R, C, e);
    XorSlice(CodeWord(data, R, C), e, 0, n);
    assert CodeWord(data, R, C)[0..n] == data[..n];
    assert Xor(CodeWord(data, R, C), e)[..n] == Xor(CodeWord(data, R, C), e)[0..n];
    assert e[..n] == e[0..n];
  }

  /**
   * Decoding restores the data whenever the last syndrome bit of the errors is
   * clear and their recovery bits are exactly the errors in the data bits.
   */
  lemma DecodeRestores(data: seq<Bit>, R: nat, C: nat, e: seq<Bit>)
    requires Area(R, C) <= |data| && |e| == Area(R, C) + R + C + 1
    requires Syndrome(e, R, C)[R + C] == 0 && Recovery(Syndrome(e, R, C), R, C) == e[..Area(R, C)]
    ensures Decode(Xor(CodeWord(data, R, C), e), R, C) == data[..Area(R, C)]
  {
    var n := Area(R, C);
    DecodeReceived(data, R, C, e);
    XorCancel(data[..n], e[..n]);
  }

  /** A code word received without error decodes to its data. */
  lemma DecodeCodeWord(data: seq<Bit>, R: nat, C: nat)
    requires Area(R, C) <= |data|
    ensures Decode(CodeWord(data, R, C), R, C) == data[..Area(R, C)]
  {
    var n := Area(R, C);
    SyndromeOfCodeWord(data, R, C);
    RecoveryOfZeros(R, C, R + C + 1);
    XorZeros(data[..n]);
  }

  /** A single wrong data bit is corrected. */
  lemma CorrectsDataError(data: seq<Bit>, R: nat, C: nat, i: nat, j: nat)
    requires Area(R, C) <= |data| && i < R && j < C
    ensures Decode(Xor(CodeWord(data, R, C), Unit(Area(R, C) + R + C + 1, Pos(R, C, i, j))), R, C) == data[..Area(R, C)]
  {
    var n, p := Area(R, C), Pos(R, C, i, j);
    var e := Unit(n + R + C + 1, p);
    SyndromeOfDataError(R, C, i, j);
    RecoveryOfDataError(R, C, i, j);
    UnitPrefix(n + R + C + 1, p, n);
    assert (Unit(R, i) + Unit(C, j) + [0])[R + C] == 0;
    DecodeRestores(data, R, C, e);
  }

  /** A single wrong row or column parity bit makes the receiver ask for the word again. */
  lemma ResendsOnParityError(data: seq<Bit>, R: nat, C: nat, p: nat)
    requires Area(R, C) <= |data| && Area(R, C) <= p < Area(R, C) + R + C
    ensures var w := Xor(CodeWord(data, R, C), Unit(Area(R, C) + R + C + 1, p));
      Syndrome(w, R, C)[R + C] == 1 && Decode(w, R, C) == []
  {
    var e := Unit(Area(R, C) + R + C + 1, p);
    DecodeReceived(data, R, C, e);
    SyndromeOfParityError(R, C, p);
    SyndromeOfReceived(data, R, C, e);
  }

  /** A wrong corner bit goes unnoticed, and the data comes through unchanged. */
  lemma IgnoresCornerError(data: seq<Bit>, R: nat, C: nat)
    requires Area(R, C) <= |data|
    ensures Decode(Xor(CodeWord(data, R, C), Unit(Area(R, C) + R + C + 1, Area(R, C) + R + C)), R, C) == data[..Area(R, C)]
  {
    CornerErrorRestorable(R, C);
    DecodeRestores(data, R, C, Unit(Area(R, C) + R + C + 1, Area(R, C) + R + C));
  }

  /** A corner error has a clear last syndrome bit and no recovery bits, as it has no data errors. */
  lemma CornerErrorRestorable(R: nat, C: nat)
    ensures var e := Unit(Area(R, C) + R + C + 1, Area(R, C) + R + C);
      Syndrome(e, R, C)[R + C] == 0 && Recovery(Syndrome(e, R, C), R, C) == e[..Area(R, C)]
  {
    CornerDataBits(R, C);
    CornerRecovery(R, C);
    SyndromeOfCornerError(R, C);
  }

  /** A corner error leaves the data bits alone. */
  lemma CornerDataBits(R: nat, C: nat)
    ensures Unit(Area(R, C) + R + C + 1, Area(R, C) + R + C)[..Area(R, C)] == Zeros(Area(R, C))
  {
    UnitPrefix(Area(R, C) + R + C + 1, Area(R, C) + R + C, Area(R, C));
  }

  /** A corner error recovers nothing. */
  lemma CornerRecovery(R: nat, C: nat)
    ensures Recovery(Syndrome(Unit(Area(R, C) + R + C + 1, Area(R, C) + R + C), R, C), R, C) == Zeros(Area(R, C))
  {
    SyndromeOfCornerError(R, C);
    RecoveryOfZeros(R, C, R + C + 1);
  }
}
