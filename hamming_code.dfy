/**
 * The binary Hamming code: a check matrix built from the binary numbers that
 * are not powers of two, systematic encoding (message followed by redundant
 * bits), the syndrome of a received word and single-error correction by
 * matching the syndrome against the columns of the check matrix.
 */
module HammingCode {
  import opened Bits

  // ---------------------------------------------------------------------------
  // The check matrix
  // ---------------------------------------------------------------------------

  /** x is a power of two. */
  predicate IsPow2(x: nat) {
    x == 1 || (x >= 2 && x % 2 == 0 && IsPow2(x / 2))
  }

  /** The smallest number from x on that is not a power of two. */
  function NextNonPow(x: nat): nat
    requires x >= 3
  {
    if IsPow2(x) then x + 1 else x
  }

  /** The c-th number (counting from 0) at least 3 that is not a power of two: 3, 5, 6, 7, 9, ... */
  function NonPow(c: nat): (x: nat)
    ensures x >= 3 && !IsPow2(x)
  {
    if c == 0 then 3 else NextNonPow(NonPow(c - 1) + 1)
  }

  /**
   * Entry (i, c) of the r x (k + r) check matrix: for an information column
   * c < k, bit i of the c-th non-power of two; the last r columns form the
   * identity matrix.
   */
  function CheckEntry(k: nat, i: nat, c: nat): Bit {
    if c < k then BitOf(NonPow(c), i) else if c == k + i then 1 else 0
  }

  /** The check matrix for k information bits and r redundant bits. */
  function CheckMatrix(k: nat, r: nat): (h: seq<seq<Bit>>)
    ensures IsMatrix(h, r, k + r)
  {
    seq(r, i requires 0 <= i => seq(k + r, c requires 0 <= c => CheckEntry(k, i, c)))
  }

  /** The last r columns of the first r rows of H form the identity matrix. */
  ghost predicate IdentityBlock(H: seq<seq<Bit>>, k: nat, r: nat)
    requires HasShape(H, r, k + r)
  {
    forall i, c :: 0 <= i < r && k <= c < k + r ==> H[i][c] == if c == k + i then 1 else 0
  }

  /** H has at least `rows` rows, each with at least `cols` entries. */
  ghost predicate HasShape(H: seq<seq<Bit>>, rows: nat, cols: nat) {
    |H| >= rows && forall i :: 0 <= i < rows ==> |H[i]| >= cols
  }

  /** The first n columns of the first r rows of H are nonzero and pairwise different. */
  ghost predicate DistinctNonzeroColumns(H: seq<seq<Bit>>, n: nat, r: nat)
    requires HasShape(H, r, n)
  {
    (forall c :: 0 <= c < n ==> Column(H, c, r) != Zeros(r)) &&
    (forall c1, c2 :: 0 <= c1 < n && 0 <= c2 < n && c1 != c2 ==> Column(H, c1, r) != Column(H, c2, r))
  }

  /**
   * Builds the check matrix row by row.  For row i, j runs over 0, 1, 2, ...;
   * `key` flips at every multiple of 2^i, the numbers 0 and the powers of two
   * are skipped, and every other j fills the next information column with 1
   * exactly when `key` is false.
   */
  method GetCheckMatrix(numberOfInformationBytes: nat, numberOfRedundantBytes: nat) returns (h: seq<seq<Bit>>)
    ensures h == CheckMatrix(numberOfInformationBytes, numberOfRedundantBytes)
  {
    var k, r := numberOfInformationBytes, numberOfRedundantBytes;
    var matrix := new Bit[r, k + r]((_, _) => 0);
    for i := 0 to r
      invariant forall a, c :: 0 <= a < r && 0 <= c < k + r ==>
        matrix[a, c] == if a < i then CheckEntry(k, a, c) else 0
    {
      FillInformationColumns(matrix, i, k);
      matrix[i, i + k] := 1;
    }
    h := ToRows(matrix);
    forall a | 0 <= a < r
      ensures h[a] == CheckMatrix(k, r)[a]
    {
      assert forall c :: 0 <= c < k + r ==> h[a][c] == CheckEntry(k, a, c);
    }
  }

  /** The inner loop of GetCheckMatrix: fills the information columns of row i. */
  method FillInformationColumns(matrix: array2<Bit>, i: nat, k: nat)
    requires i < matrix.Length0 && k <= matrix.Length1
    requires forall c :: 0 <= c < k ==> matrix[i, c] == 0
    modifies matrix
    ensures forall a, c :: 0 <= a < matrix.Length0 && 0 <= c < matrix.Length1 ==>
      matrix[a, c] == if a == i && c < k then CheckEntry(k, i, c) else old(matrix[a, c])
  {
    var key := false;
    var counter := 0;
    var j := 0;
    while counter < k
      invariant 0 <= counter <= k
      invariant j <= NonPow(counter)
      invariant forall x :: j <= x < NonPow(counter) ==> x == 0 || IsPow2(x)
      invariant key == (j > 0 && BitOf(j - 1, i) == 0)
      invariant forall a, c :: 0 <= a < matrix.Length0 && 0 <= c < matrix.Length1 ==>
        matrix[a, c] == if a == i && c < counter then CheckEntry(k, i, c) else old(matrix[a, c])
      decreases k - counter, NonPow(counter) - j
    {
      KeyToggle(j, i, key);
      if j % Pow2(i) == 0 {
        key := !key;
      }
      if j == 0 {
        j := j + 1;
        continue;
      } else if IsPow2(j) {
        j := j + 1;
        continue;
      }
      assert j == NonPow(counter);
      StoreEntry(matrix, i, k, counter, key);
      NonPowGap(counter);
      counter := counter + 1;
      j := j + 1;
    }
  }

  /** The store of the inner loop: entry (i, c) becomes 1 exactly when bit i of the c-th non-power of two is set. */
  method StoreEntry(matrix: array2<Bit>, i: nat, k: nat, c: nat, key: bool)
    requires i < matrix.Length0 && c < k <= matrix.Length1 && matrix[i, c] == 0
    requires key == (BitOf(NonPow(c), i) == 0)
    modifies matrix
    ensures forall a, b :: 0 <= a < matrix.Length0 && 0 <= b < matrix.Length1 ==>
      matrix[a, b] == if a == i && b == c then CheckEntry(k, i, c) else old(matrix[a, b])
  {
    if !key {
      matrix[i, c] := 1;
    }
  }

  /** Whether 2^i divides j decides whether the quotient's parity changes from j - 1 to j. */
  lemma KeyStep(j: nat, i: nat)
    ensures j > 0 && j % Pow2(i) == 0 ==> j / Pow2(i) == (j - 1) / Pow2(i) + 1
    ensures j > 0 && j % Pow2(i) != 0 ==> j / Pow2(i) == (j - 1) / Pow2(i)
  {
    var p := Pow2(i);
    if j > 0 {
      var q, m := j / p, j % p;
      if m == 0 {
        DivModUnique(j - 1, p, q - 1, p - 1);
      } else {
        DivModUnique(j - 1, p, q, m - 1);
      }
    }
  }

  /**
   * The key kept by GetCheckMatrix, toggled whenever 2^i divides j, tells bit i
   * of j: it is set exactly when that bit is 0.
   */
  lemma KeyToggle(j: nat, i: nat, key: bool)
    requires key == (j > 0 && BitOf(j - 1, i) == 0)
    ensures (if j % Pow2(i) == 0 then !key else key) == (BitOf(j, i) == 0)
  {
    BitOfDiv(j, i);
    if j > 0 {
      KeyStep(j, i);
      BitOfDiv(j - 1, i);
      ParityToggle(j / Pow2(i), (j - 1) / Pow2(i), j % Pow2(i) == 0);
    } else {
      BitOfZero(i);
    }
  }

  lemma ParityToggle(q: int, q0: int, step: bool)
    requires q == if step then q0 + 1 else q0
    ensures (q % 2 == 0) == (if step then q0 % 2 != 0 else q0 % 2 == 0)
  {
  }

  /** Between two consecutive non-powers of two there are only powers of two. */
  lemma NonPowGap(c: nat)
    ensures forall x :: NonPow(c) + 1 <= x < NonPow(c + 1) ==> IsPow2(x)
    ensures NonPow(c) < NonPow(c + 1)
  {
  }

  lemma {:induction false} Pow2IsPow2(t: nat)
    ensures IsPow2(Pow2(t))
  {
    if t > 0 {
      Pow2IsPow2(t - 1);
      assert Pow2(t) / 2 == Pow2(t - 1);
    }
  }

  /** No power of two lies strictly between 2^t and 2^(t+1). */
  lemma {:induction false} NoPowBetween(t: nat, y: nat)
    requires Pow2(t) < y < 2 * Pow2(t)
    ensures !IsPow2(y)
  {
    if t > 0 && y % 2 == 0 {
      NoPowBetween(t - 1, y / 2);
    }
  }

  /** The (2^r - r - 2)-th non-power of two is 2^r - 1. */
  lemma {:induction false} NonPowAtPow2(r: nat)
    requires r >= 2
    ensures Pow2(r) >= r + 2 && NonPow(Pow2(r) - r - 2) == Pow2(r) - 1
  {
    if r > 2 {
      var p := Pow2(r - 1);
      assert Pow2(r) == 2 * p;
      NonPowAtPow2(r - 1);
      NonPowRun(r - 1, p - r - 1, p - 1);
      assert p - (r - 1) - 2 + (p - 1) == Pow2(r) - r - 2;
    }
  }

  lemma {:induction false} NonPowRun(s: nat, b: nat, t: nat)
    requires s >= 2 && b + s + 2 == Pow2(s) && NonPow(b) == Pow2(s) - 1
    requires 0 < t <= Pow2(s) - 1
    ensures NonPow(b + t) == Pow2(s) + t
  {
    var p := Pow2(s);
    var y := p + t;
    NoPowBetween(s, y);
    if t == 1 {
      Pow2IsPow2(s);
      NonPowNext(b, p - 1, y);
      assert b + 1 == b + t;
    } else {
      var c := b + (t - 1);
      NonPowRun(s, b, t - 1);
      NonPowNext(c, y - 1, y);
      assert c + 1 == b + t;
    }
  }

  /** One step of NonPow: after v, the next number that is not a power of two. */
  lemma NonPowNext(c: nat, v: nat, y: nat)
    requires NonPow(c) == v && !IsPow2(y)
    requires y == v + 1 || (y == v + 2 && IsPow2(v + 1))
    ensures NonPow(c + 1) == y
  {
  }

  /** Non-powers of two grow with their index. */
  lemma {:induction false} NonPowMono(c1: nat, c2: nat)
    requires c1 <= c2
    ensures NonPow(c1) <= NonPow(c2)
    decreases c2
  {
    if c1 < c2 {
      NonPowMono(c1, c2 - 1);
      NonPowGap(c2 - 1);
    }
  }

  /** While k <= 2^r - r - 1, every information column index fits in r bits. */
  lemma NonPowBelow(c: nat, r: nat)
    requires c + r + 2 <= Pow2(r)
    ensures NonPow(c) < Pow2(r)
  {
    if r < 2 {
      assert false;
    }
    NonPowAtPow2(r);
    NonPowMono(c, Pow2(r) - r - 2);
  }

  /** Column c of the check matrix holds the r low bits of a number that identifies it. */
  lemma CheckMatrixColumn(k: nat, r: nat, c: nat)
    requires c < k + r
    ensures Column(CheckMatrix(k, r), c, r) == BitsOf(if c < k then NonPow(c) else Pow2(c - k), r)
  {
    var h := CheckMatrix(k, r);
    forall i | 0 <= i < r
      ensures Column(h, c, r)[i] == BitsOf(if c < k then NonPow(c) else Pow2(c - k), r)[i]
    {
      if c >= k {
        BitOfPow2(c - k, i);
      }
    }
  }

  /** The number that CheckMatrixColumn associates to a column. */
  function ColumnValue(k: nat, c: nat): nat {
    if c < k then NonPow(c) else Pow2(c - k)
  }

  /**
   * With k <= 2^r - r - 1 the check matrix is a Hamming matrix: its columns
   * are nonzero and pairwise different, and its redundant block is the identity.
   */
  lemma CheckMatrixIsHamming(k: nat, r: nat)
    requires k + r + 1 <= Pow2(r)
    ensures HasShape(CheckMatrix(k, r), r, k + r)
    ensures IdentityBlock(CheckMatrix(k, r), k, r)
    ensures DistinctNonzeroColumns(CheckMatrix(k, r), k + r, r)
  {
    var h := CheckMatrix(k, r);
    forall c | 0 <= c < k + r
      ensures 0 < ColumnValue(k, c) < Pow2(r) && Column(h, c, r) == BitsOf(ColumnValue(k, c), r)
    {
      CheckMatrixColumn(k, r, c);
      if c < k {
        NonPowBelow(c, r);
      } else {
        Pow2Mono(c - k, r);
      }
    }
    forall c | 0 <= c < k + r
      ensures Column(h, c, r) != Zeros(r)
    {
      if Column(h, c, r) == Zeros(r) {
        forall i | 0 <= i < r ensures BitsOf(0, r)[i] == Zeros(r)[i] {
          BitOfZero(i);
        }
        BitsOfInjective(ColumnValue(k, c), 0, r);
      }
    }
    forall c1, c2 | 0 <= c1 < k + r && 0 <= c2 < k + r && c1 != c2
      ensures Column(h, c1, r) != Column(h, c2, r)
    {
      if Column(h, c1, r) == Column(h, c2, r) {
        BitsOfInjective(ColumnValue(k, c1), ColumnValue(k, c2), r);
        ColumnValueInjective(k, c1, c2);
      }
    }
  }

  lemma {:induction false} Pow2Mono(a: nat, b: nat)
    requires a < b
    ensures Pow2(a) < Pow2(b)
  {
    if a + 1 < b {
      Pow2Mono(a, b - 1);
    }
  }

  /** Different columns get different numbers: non-powers and powers never meet. */
  lemma ColumnValueInjective(k: nat, c1: nat, c2: nat)
    requires c1 != c2
    ensures ColumnValue(k, c1) != ColumnValue(k, c2)
  {
    if c1 < k && c2 < k {
      if c1 < c2 {
        NonPowMono(c1 + 1, c2);
        NonPowGap(c1);
      } else {
        NonPowMono(c2 + 1, c1);
        NonPowGap(c2);
      }
    } else if c1 >= k && c2 >= k {
      if c1 < c2 {
        Pow2Mono(c1 - k, c2 - k);
      } else {
        Pow2Mono(c2 - k, c1 - k);
      }
    } else {
      Pow2IsPow2(if c1 >= k then c1 - k else c2 - k);
    }
  }

  // ---------------------------------------------------------------------------
  // Encoding
  // ---------------------------------------------------------------------------

  /** Redundant bit i is the GF(2) inner product of row i of H with the message. */
  function Redundancy(H: seq<seq<Bit>>, m: seq<Bit>, k: nat, r: nat): (red: seq<Bit>)
    requires HasShape(H, r, k) && |m| >= k
    ensures |red| == r && forall i :: 0 <= i < r ==> red[i] == Dot(H[i][..k], m[..k])
  {
    seq(r, i requires 0 <= i < r => Dot(H[i][..k], m[..k]))
  }

  /** The code word of a message: its k information bits followed by the r redundant bits. */
  function CodeWord(H: seq<seq<Bit>>, m: seq<Bit>, k: nat, r: nat): (w: seq<Bit>)
    requires HasShape(H, r, k) && |m| >= k
    ensures |w| == k + r
  {
    m[..k] + Redundancy(H, m, k, r)
  }

  method EncodeMessage(checkMatrix: seq<seq<Bit>>, message: seq<Bit>,
                       numberOfInformationBytes: nat, numberOfRedundantBytes: nat) returns (codeWord: seq<Bit>)
    requires HasShape(checkMatrix, numberOfRedundantBytes, numberOfInformationBytes)
    requires |message| >= numberOfInformationBytes
    ensures codeWord == CodeWord(checkMatrix, message, numberOfInformationBytes, numberOfRedundantBytes)
  {
    var k, r := numberOfInformationBytes, numberOfRedundantBytes;
    var redundantBytes := CalculateRedundantBytes(checkMatrix, message, k, r);
    var codeWordBytes := new Bit[k + r];
    for i := 0 to k + r
      invariant forall t :: 0 <= t < i ==> codeWordBytes[t] == (message[..k] + redundantBytes)[t]
    {
      if i < k {
        codeWordBytes[i] := message[i];
      } else {
        codeWordBytes[i] := redundantBytes[i - k];
      }
    }
    codeWord := codeWordBytes[..];
  }

  method CalculateRedundantBytes(checkMatrix: seq<seq<Bit>>, message: seq<Bit>,
                                 numberOfInformationBytes: nat, numberOfRedundantBytes: nat) returns (red: seq<Bit>)
    requires HasShape(checkMatrix, numberOfRedundantBytes, numberOfInformationBytes)
    requires |message| >= numberOfInformationBytes
    ensures red == Redundancy(checkMatrix, message, numberOfInformationBytes, numberOfRedundantBytes)
  {
    var k, r := numberOfInformationBytes, numberOfRedundantBytes;
    var redundantBytes := new Bit[r](_ => 0);
    for i := 0 to r
      invariant forall t :: 0 <= t < i ==> redundantBytes[t] == Dot(checkMatrix[t][..k], message[..k])
      invariant forall t :: i <= t < r ==> redundantBytes[t] == 0
    {
      for j := 0 to k
        invariant redundantBytes[i] == Dot(checkMatrix[i][..j], message[..j])
        invariant forall t :: 0 <= t < i ==> redundantBytes[t] == Dot(checkMatrix[t][..k], message[..k])
        invariant forall t :: i < t < r ==> redundantBytes[t] == 0
      {
        assert checkMatrix[i][..j + 1][..j] == checkMatrix[i][..j];
        assert message[..j + 1][..j] == message[..j];
        redundantBytes[i] := (redundantBytes[i] as int + message[j] * checkMatrix[i][j]) % 2;
      }
    }
    red := redundantBytes[..];
  }

  // ---------------------------------------------------------------------------
  // Decoding
  // ---------------------------------------------------------------------------

  /** The redundant part of a received word. */
  method GetRedundantBytes(message: seq<Bit>, numberOfInformationBytes: nat, numberOfRedundantBytes: nat)
    returns (red: seq<Bit>)
    requires numberOfInformationBytes + numberOfRedundantBytes <= |message|
    ensures |red| == numberOfRedundantBytes
    ensures message[..numberOfInformationBytes] + red
         == message[..numberOfInformationBytes + numberOfRedundantBytes]
  {
    red := message[numberOfInformationBytes..numberOfInformationBytes + numberOfRedundantBytes];
  }

  /** The syndrome: received redundant bits plus recomputed ones, over the received part's length. */
  method GetSyndrome(redundantBytes: seq<Bit>, calculatedRedundantBytes: seq<Bit>) returns (syndrome: seq<Bit>)
    requires |calculatedRedundantBytes| >= |redundantBytes|
    ensures syndrome == Xor(redundantBytes, calculatedRedundantBytes[..|redundantBytes|])
  {
    var s := new Bit[|redundantBytes|];
    for i := 0 to |redundantBytes|
      invariant forall t :: 0 <= t < i ==> s[t] == XorBit(redundantBytes[t], calculatedRedundantBytes[t])
    {
      s[i] := XorBit(redundantBytes[i], calculatedRedundantBytes[i]);
    }
    syndrome := s[..];
  }

  /** The syndrome equals column c of H. */
  ghost predicate MatchesColumn(s: seq<Bit>, H: seq<seq<Bit>>, c: nat, r: nat)
    requires |s| >= r && HasShape(H, r, c + 1)
  {
    r > 0 && forall j :: 0 <= j < r ==> s[j] == H[j][c]
  }

  /** Column c is the first column of H that equals the syndrome. */
  ghost predicate FirstMatch(s: seq<Bit>, H: seq<seq<Bit>>, c: nat, r: nat)
    requires |s| >= r && HasShape(H, r, c + 1)
  {
    MatchesColumn(s, H, c, r) && forall c' :: 0 <= c' < c ==> !MatchesColumn(s, H, c', r)
  }

  /** The recovery word: a single 1 at the first column of H equal to the syndrome, if any. */
  ghost function Recovery(s: seq<Bit>, H: seq<seq<Bit>>, k: nat, r: nat): (rec: seq<Bit>)
    requires |s| >= r && HasShape(H, r, k + r)
    ensures |rec| == k + r
  {
    seq(k + r, c requires 0 <= c < k + r => if FirstMatch(s, H, c, r) then 1 else 0)
  }

  method GetRecoveryBytes(syndrome: seq<Bit>, checkMatrix: seq<seq<Bit>>,
                          numberOfInformationBytes: nat, numberOfRedundantBytes: nat) returns (rec: seq<Bit>)
    requires |syndrome| >= numberOfRedundantBytes
    requires HasShape(checkMatrix, numberOfRedundantBytes, numberOfInformationBytes + numberOfRedundantBytes)
    ensures rec == Recovery(syndrome, checkMatrix, numberOfInformationBytes, numberOfRedundantBytes)
  {
    var r := numberOfRedundantBytes;
    var n := numberOfInformationBytes + r;
    var recoveryBytes := new Bit[n](_ => 0);
    var hasFound := false;
    var i := 0;
    while i < n && !hasFound
      invariant 0 <= i <= n
      invariant hasFound ==> i > 0 && FirstMatch(syndrome, checkMatrix, i - 1, r)
      invariant !hasFound ==> forall c :: 0 <= c < i ==> !MatchesColumn(syndrome, checkMatrix, c, r)
      invariant forall c :: 0 <= c < n ==>
        recoveryBytes[c] == if c < i && FirstMatch(syndrome, checkMatrix, c, r) then 1 else 0
    {
      for j := 0 to r
        invariant forall t :: 0 <= t < j ==> syndrome[t] == checkMatrix[t][i]
        invariant hasFound == (j == r && r > 0)
        invariant forall c :: 0 <= c < n ==>
          recoveryBytes[c] == if (c < i || (c == i && hasFound)) && FirstMatch(syndrome, checkMatrix, c, r) then 1 else 0
      {
        if syndrome[j] == checkMatrix[j][i] {
          if j == r - 1 {
            hasFound := true;
            recoveryBytes[i] := 1;
          }
        } else {
          break;
        }
      }
      i := i + 1;
    }
    rec := recoveryBytes[..];
    forall c | 0 <= c < n
      ensures rec[c] == Recovery(syndrome, checkMatrix, numberOfInformationBytes, r)[c]
    {
      if hasFound && c >= i {
        assert MatchesColumn(syndrome, checkMatrix, i - 1, r);
      }
    }
  }

  /** Adds the recovery word to the received word, over the received word's length. */
  method RecoverMessage(message: seq<Bit>, recoveringBytes: seq<Bit>) returns (recovered: seq<Bit>)
    requires |recoveringBytes| >= |message|
    ensures recovered == Xor(message, recoveringBytes[..|message|])
  {
    var out := new Bit[|message|];
    for i := 0 to |message|
      invariant forall t :: 0 <= t < i ==> out[t] == XorBit(message[t], recoveringBytes[t])
    {
      out[i] := (message[i] as int + recoveringBytes[i]) % 2;
    }
    recovered := out[..];
  }

  // ---------------------------------------------------------------------------
  // Correctness of the code
  // ---------------------------------------------------------------------------

  /** The syndrome the receiver computes for a received word of length k + r. */
  function Syndrome(H: seq<seq<Bit>>, w: seq<Bit>, k: nat, r: nat): (s: seq<Bit>)
    requires HasShape(H, r, k) && |w| == k + r
    ensures |s| == r
  {
    Xor(w[k..], Redundancy(H, w, k, r))
  }

  /** What the receiver makes of a received word: the word plus its recovery word. */
  ghost function Decode(H: seq<seq<Bit>>, w: seq<Bit>, k: nat, r: nat): (d: seq<Bit>)
    requires HasShape(H, r, k + r) && |w| == k + r
    ensures |d| == k + r
  {
    Xor(w, Recovery(Syndrome(H, w, k, r), H, k, r))
  }

  /** The product of the first r rows of H with an error word. */
  function HTimes(H: seq<seq<Bit>>, e: seq<Bit>, r: nat): (s: seq<Bit>)
    requires HasShape(H, r, |e|)
    ensures |s| == r && forall j :: 0 <= j < r ==> s[j] == Dot(H[j][..|e|], e)
  {
    seq(r, j requires 0 <= j < r => Dot(H[j][..|e|], e))
  }

  lemma {:induction false} DotComm(a: seq<Bit>, b: seq<Bit>)
    requires |a| == |b|
    ensures Dot(a, b) == Dot(b, a)
    decreases |a|
  {
    if a != [] {
      DotComm(a[..|a| - 1], b[..|b| - 1]);
    }
  }

  /**
   * The syndrome of a corrupted code word depends only on the error: it is
   * the product of H with the error word, when the redundant block of H is
   * the identity.
   */
  lemma SyndromeOfError(H: seq<seq<Bit>>, m: seq<Bit>, e: seq<Bit>, k: nat, r: nat)
    requires HasShape(H, r, k + r) && IdentityBlock(H, k, r)
    requires |m| >= k && |e| == k + r
    ensures Syndrome(H, Xor(CodeWord(H, m, k, r), e), k, r) == HTimes(H, e, r)
  {
    var s := Syndrome(H, Xor(CodeWord(H, m, k, r), e), k, r);
    var t := HTimes(H, e, r);
    forall j | 0 <= j < r
      ensures s[j] == t[j]
    {
      SyndromeEntry(H, m, e, k, r, j);
    }
  }

  lemma SyndromeEntry(H: seq<seq<Bit>>, m: seq<Bit>, e: seq<Bit>, k: nat, r: nat, j: nat)
    requires HasShape(H, r, k + r) && IdentityBlock(H, k, r)
    requires |m| >= k && |e| == k + r && j < r
    ensures Syndrome(H, Xor(CodeWord(H, m, k, r), e), k, r)[j] == Dot(H[j][..k + r], e)
  {
    SyndromeEntryByError(H, m, e, k, r, j);
    DotWithIdentity(H, e, k, r, j);
  }

  /** Entry j of the syndrome is error bit k + j plus row j of the information block times the error. */
  lemma SyndromeEntryByError(H: seq<seq<Bit>>, m: seq<Bit>, e: seq<Bit>, k: nat, r: nat, j: nat)
    requires HasShape(H, r, k)
    requires |m| >= k && |e| == k + r && j < r
    ensures Syndrome(H, Xor(CodeWord(H, m, k, r), e), k, r)[j] == XorBit(e[k + j], Dot(H[j][..k], e[..k]))
  {
    var c := CodeWord(H, m, k, r);
    var w := Xor(c, e);
    var row := H[j][..k];
    var a, b := Dot(row, m[..k]), Dot(row, e[..k]);
    assert c[k + j] == a;
    assert w[k + j] == XorBit(a, e[k + j]);
    assert Dot(row, w[..k]) == XorBit(a, b) by {
      assert w[..k] == Xor(m[..k], e[..k]);
      DotXor(row, m[..k], e[..k]);
    }
    assert Syndrome(H, w, k, r)[j] == XorBit(w[k + j], Dot(row, w[..k]));
  }

  /** Row j of H times e, when the redundant block of H is the identity. */
  lemma DotWithIdentity(H: seq<seq<Bit>>, e: seq<Bit>, k: nat, r: nat, j: nat)
    requires HasShape(H, r, k + r) && IdentityBlock(H, k, r)
    requires |e| == k + r && j < r
    ensures Dot(H[j][..k + r], e) == XorBit(e[k + j], Dot(H[j][..k], e[..k]))
  {
    var row := H[j][..k + r];
    DotSplit(row, e, k);
    assert row[..k] == H[j][..k];
    assert row[k..] == Unit(r, j);
    DotComm(row[k..], e[k..]);
    DotUnit(e[k..], j);
    var d, x := Dot(H[j][..k], e[..k]), e[k + j];
    assert XorBit(d, x) == XorBit(x, d);
  }

  /** The product of H with a unit error word is the column at the error. */
  lemma HTimesUnit(H: seq<seq<Bit>>, n: nat, p: nat, r: nat)
    requires p < n && HasShape(H, r, n)
    ensures HTimes(H, Unit(n, p), r) == Column(H, p, r)
  {
    forall j | 0 <= j < r
      ensures HTimes(H, Unit(n, p), r)[j] == H[j][p]
    {
      DotUnit(H[j][..n], p);
    }
  }

  lemma HTimesZeros(H: seq<seq<Bit>>, n: nat, r: nat)
    requires HasShape(H, r, n)
    ensures HTimes(H, Zeros(n), r) == Zeros(r)
  {
    forall j | 0 <= j < r
      ensures HTimes(H, Zeros(n), r)[j] == 0
    {
      DotZeros(H[j][..n]);
    }
  }

  /** A syndrome equal to column p selects position p when the columns are distinct and nonzero. */
  lemma RecoveryOfColumn(H: seq<seq<Bit>>, k: nat, r: nat, p: nat)
    requires HasShape(H, r, k + r) && DistinctNonzeroColumns(H, k + r, r) && p < k + r
    ensures Recovery(Column(H, p, r), H, k, r) == Unit(k + r, p)
  {
    var s := Column(H, p, r);
    forall c | 0 <= c < k + r
      ensures MatchesColumn(s, H, c, r) <==> c == p
    {
      if MatchesColumn(s, H, c, r) {
        assert Column(H, c, r) == s;
      }
    }
  }

  /** A zero syndrome selects nothing when no column is zero. */
  lemma RecoveryOfZero(H: seq<seq<Bit>>, k: nat, r: nat)
    requires HasShape(H, r, k + r) && DistinctNonzeroColumns(H, k + r, r)
    ensures Recovery(Zeros(r), H, k, r) == Zeros(k + r)
  {
    forall c | 0 <= c < k + r
      ensures !MatchesColumn(Zeros(r), H, c, r)
    {
      assert Column(H, c, r) != Zeros(r);
      var j :| 0 <= j < r && Column(H, c, r)[j] != Zeros(r)[j];
    }
  }

  /**
   * Single-error correction: with a Hamming matrix, a code word received with
   * no error or with one flipped bit decodes to the code word.
   */
  lemma CorrectsSingleError(H: seq<seq<Bit>>, m: seq<Bit>, e: seq<Bit>, k: nat, r: nat)
    requires HasShape(H, r, k + r) && IdentityBlock(H, k, r) && DistinctNonzeroColumns(H, k + r, r)
    requires |m| >= k && |e| == k + r
    requires Weight(e) <= 1
    ensures Decode(H, Xor(CodeWord(H, m, k, r), e), k, r) == CodeWord(H, m, k, r)
  {
    var c := CodeWord(H, m, k, r);
    var w := Xor(c, e);
    SyndromeOfError(H, m, e, k, r);
    RecoveryOfSingleError(H, e, k, r);
    assert Recovery(Syndrome(H, w, k, r), H, k, r) == e;
    XorCancel(c, e);
  }

  /** The syndrome of an error of weight at most one recovers exactly that error. */
  lemma RecoveryOfSingleError(H: seq<seq<Bit>>, e: seq<Bit>, k: nat, r: nat)
    requires HasShape(H, r, k + r) && DistinctNonzeroColumns(H, k + r, r)
    requires |e| == k + r && Weight(e) <= 1
    ensures Recovery(HTimes(H, e, r), H, k, r) == e
  {
    if Weight(e) == 0 {
      WeightZeroIsZeros(e);
      HTimesZeros(H, k + r, r);
      assert HTimes(H, e, r) == Zeros(r);
      RecoveryOfZero(H, k, r);
    } else {
      var p := UnitPosition(e);
      HTimesUnit(H, k + r, p, r);
      assert HTimes(H, e, r) == Column(H, p, r);
      RecoveryOfColumn(H, k, r, p);
    }
  }

  /** The check matrix built by GetCheckMatrix corrects every single error. */
  lemma CheckMatrixCorrectsSingleError(k: nat, r: nat, m: seq<Bit>, e: seq<Bit>)
    requires k + r + 1 <= Pow2(r)
    requires |m| >= k && |e| == k + r && Weight(e) <= 1
    ensures Decode(CheckMatrix(k, r), Xor(CodeWord(CheckMatrix(k, r), m, k, r), e), k, r)
         == CodeWord(CheckMatrix(k, r), m, k, r)
  {
    var H := CheckMatrix(k, r);
    CheckMatrixIsHamming(k, r);
    CorrectsSingleError(H, m, e, k, r);
  }
}
