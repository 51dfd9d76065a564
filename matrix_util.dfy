/**
 * In-place row operations on integer matrices (`int[][]` in Java): the rows
 * are arrays that the operations update, the matrix is an array of rows.
 */
module MatrixUtil {
  import opened Bits

  /** Java's `%` for a positive divisor: the remainder takes the sign of the dividend. */
  function JavaRem(a: int, d: int): (r: int)
    requires d > 0
    ensures a >= 0 ==> 0 <= r < d
    ensures a < 0 ==> -d < r <= 0
  {
    if a >= 0 then a % d else -((-a) % d)
  }

  /** Java's `int` addition result: x reduced into [-2^31, 2^31) modulo 2^32. */
  function Wrap32(x: int): (w: int)
    ensures -0x8000_0000 <= w < 0x8000_0000
    ensures (x - w) % 0x1_0000_0000 == 0
    ensures -0x8000_0000 <= x < 0x8000_0000 ==> w == x
  {
    (x + 0x8000_0000) % 0x1_0000_0000 - 0x8000_0000
  }

  /** The row `rowSum` leaves in its first argument, on the values before the call. */
  function RowSumOf(a: seq<int>, b: seq<int>): (s: seq<int>)
    ensures |s| == |a|
  {
    if |a| != |b| then a else seq(|a|, i requires 0 <= i < |a| => JavaRem(Wrap32(a[i] + b[i]), 2))
  }

  /** The 32-bit wrap shows in the result: the largest int plus 2 leaves -1, not 1. */
  lemma RowSumWraps()
    ensures RowSumOf([0x7fff_ffff], [2]) == [-1]
  {
    assert Wrap32(0x7fff_ffff + 2) == -0x7fff_ffff;
  }

  /** On bit rows of equal length, `rowSum` is addition over GF(2). */
  lemma RowSumOfBits(a: seq<Bit>, b: seq<Bit>)
    requires |a| == |b|
    ensures RowSumOf(a, b) == Xor(a, b)
  {
  }

  /** Adding the same bit row twice restores the original row. */
  lemma RowSumTwice(a: seq<Bit>, b: seq<Bit>)
    requires |a| == |b|
    ensures RowSumOf(RowSumOf(a, b), b) == a
  {
    RowSumOfBits(a, b);
    RowSumOfBits(Xor(a, b), b);
    XorCancel(a, b);
  }

  /** Adds row2 to row1 position by position in 32-bit arithmetic, then takes Java's remainder by 2; rows of different lengths are left alone. */
  method RowSum(row1: array<int>, row2: array<int>)
    modifies row1
    ensures row1[..] == RowSumOf(old(row1[..]), old(row2[..]))
  {
    if row1.Length != row2.Length {
      return;
    }
    for i := 0 to row1.Length
      invariant forall t :: 0 <= t < i ==> row1[t] == JavaRem(Wrap32(old(row1[t]) + old(row2[t])), 2)
      invariant forall t :: i <= t < row1.Length ==> row1[t] == old(row1[t])
      invariant row1 != row2 ==> row2[..] == old(row2[..])
    {
      row1[i] := Wrap32(row1[i] + row2[i]);
      row1[i] := JavaRem(row1[i], 2);
    }
  }

  /** Exchanges the first row1.Length entries of the two rows. */
  method SwapTwoRows(row1: array<int>, row2: array<int>)
    requires row2.Length >= row1.Length
    modifies row1, row2
    ensures forall i :: 0 <= i < row1.Length ==> row1[i] == old(row2[i]) && row2[i] == old(row1[i])
    ensures forall i :: row1.Length <= i < row2.Length ==> row2[i] == old(row2[i])
  {
    for i := 0 to row1.Length
      invariant forall t :: 0 <= t < i ==> row1[t] == old(row2[t]) && row2[t] == old(row1[t])
      invariant forall t :: i <= t < row1.Length ==> row1[t] == old(row1[t])
      invariant forall t :: i <= t < row2.Length ==> row2[t] == old(row2[t])
    {
      var buf := row1[i];
      row1[i] := row2[i];
      row2[i] := buf;
    }
  }

  // ---------------------------------------------------------------------------
  // Lexicographic order on the first columns of the rows
  // ---------------------------------------------------------------------------

  /** The first position where a and b differ, or their length when they are equal. */
  function FirstDiff(a: seq<int>, b: seq<int>): (d: nat)
    requires |a| == |b|
    ensures d <= |a| && a[..d] == b[..d] && (d < |a| ==> a[d] != b[d])
  {
    if a == [] then 0
    else if a[0] != b[0] then 0
    else
      var d' := FirstDiff(a[1..], b[1..]);
      assert a[..d' + 1] == [a[0]] + a[1..][..d'];
      assert b[..d' + 1] == [b[0]] + b[1..][..d'];
      d' + 1
  }

  /** A position before which the words agree and at which they differ is their first difference. */
  lemma FirstDiffAt(a: seq<int>, b: seq<int>, k: nat)
    requires |a| == |b| && k <= |a| && a[..k] == b[..k] && (k < |a| ==> a[k] != b[k])
    ensures FirstDiff(a, b) == k && FirstDiff(b, a) == k
  {
    var d, e := FirstDiff(a, b), FirstDiff(b, a);
    assert a[..d] == b[..d] && b[..e] == a[..e];
  }

  /** a comes strictly before b: at the first position where they differ, a is smaller. */
  predicate LexLess(a: seq<int>, b: seq<int>)
    requires |a| == |b|
  {
    var d := FirstDiff(a, b);
    d < |a| && a[d] < b[d]
  }

  lemma LexLessAsym(a: seq<int>, b: seq<int>)
    requires |a| == |b| && LexLess(a, b)
    ensures !LexLess(b, a)
  {
    FirstDiffAt(a, b, FirstDiff(a, b));
  }

  /** Two words of equal length are equal or one comes strictly before the other. */
  lemma LexTotal(a: seq<int>, b: seq<int>)
    requires |a| == |b|
    ensures a == b || LexLess(a, b) || LexLess(b, a)
  {
    var d := FirstDiff(a, b);
    FirstDiffAt(a, b, d);
    if d == |a| {
      assert a == a[..d] && b == b[..d];
    }
  }

  /** "Not after" is transitive: a <= b and b <= c give a <= c. */
  lemma LexLeqTrans(a: seq<int>, b: seq<int>, c: seq<int>)
    requires |a| == |b| == |c|
    requires !LexLess(b, a) && !LexLess(c, b)
    ensures !LexLess(c, a)
  {
    LexTotal(a, b);
    LexTotal(b, c);
    if a != b && b != c {
      var k1, k2 := FirstDiff(a, b), FirstDiff(b, c);
      var m := Min(k1, k2);
      assert a[..m] == a[..k1][..m] && b[..m] == b[..k1][..m];
      assert b[..m] == b[..k2][..m] && c[..m] == c[..k2][..m];
      if k1 < k2 {
        assert b[..k2][k1] == c[..k2][k1];
      } else if k2 < k1 {
        assert a[..k1][k2] == b[..k1][k2];
      }
      FirstDiffAt(a, c, m);
      LexLessAsym(a, c);
    } else if a != c {
      LexLessAsym(a, c);
    }
  }

  /** Contents of the rows of a matrix. */
  ghost function Rows(matrix: array<array<int>>): (rows: seq<seq<int>>)
    reads matrix, set i | 0 <= i < matrix.Length :: matrix[i]
    ensures |rows| == matrix.Length
    ensures forall i :: 0 <= i < matrix.Length ==> rows[i] == matrix[i][..]
  {
    seq(matrix.Length, i reads matrix, set i | 0 <= i < matrix.Length :: matrix[i]
                          requires 0 <= i < matrix.Length => matrix[i][..])
  }

  /** The first `len` columns of a row: the word the sort compares. */
  function Key(row: seq<int>, len: nat): seq<int>
    requires len <= |row|
  {
    row[..len]
  }

  /** Every row has at least len columns, so each has a key of length len. */
  ghost predicate Wide(rows: seq<seq<int>>, len: nat) {
    forall i :: 0 <= i < |rows| ==> len <= |rows[i]|
  }

  /** Rows from position lo on are in lexicographic order of their keys. */
  ghost predicate SortedFrom(rows: seq<seq<int>>, len: nat, lo: nat)
    requires Wide(rows, len)
  {
    forall a, b :: lo <= a < b < |rows| ==> !LexLess(Key(rows[b], len), Key(rows[a], len))
  }

  /** No row before position lo comes after a row from position lo on. */
  ghost predicate Dominated(rows: seq<seq<int>>, len: nat, lo: nat)
    requires Wide(rows, len)
  {
    forall a, b :: 0 <= a < lo <= b < |rows| ==> !LexLess(Key(rows[b], len), Key(rows[a], len))
  }

  /** The row at position m comes no earlier than every row before it. */
  ghost predicate MaxAt(rows: seq<seq<int>>, len: nat, m: nat)
    requires Wide(rows, len)
    requires m < |rows|
  {
    forall t :: 0 <= t < m ==> !LexLess(Key(rows[m], len), Key(rows[t], len))
  }

  /**
   * Bubble sort of the rows, comparing the first matrix.Length columns
   * lexicographically (the Java code uses the number of rows as the word
   * length).  The rows are exchanged by content, so the row objects stay.
   */
  method SortMatrixByAlphabet(matrix: array<array<int>>)
    requires forall a, b :: 0 <= a < b < matrix.Length ==> matrix[a] != matrix[b]
    requires matrix.Length >= 2 ==>
      forall i :: 0 <= i < matrix.Length ==> matrix[i].Length == matrix[0].Length >= matrix.Length
    modifies set i | 0 <= i < matrix.Length :: matrix[i]
    ensures multiset(Rows(matrix)) == old(multiset(Rows(matrix)))
    ensures matrix.Length >= 2 ==> SortedFrom(Rows(matrix), matrix.Length, 0)
  {
    var lengthOfWord := matrix.Length;
    if lengthOfWord < 2 {
      return;
    }
    for i := 0 to lengthOfWord - 1
      invariant multiset(Rows(matrix)) == old(multiset(Rows(matrix)))
      invariant SortedFrom(Rows(matrix), lengthOfWord, lengthOfWord - i)
      invariant Dominated(Rows(matrix), lengthOfWord, lengthOfWord - i)
    {
      BubblePass(matrix, lengthOfWord, i);
    }
    ExtendSorted(Rows(matrix), lengthOfWord, 0);
  }

  /**
   * One pass of the inner loop of the sort: afterwards the last i + 1 rows are
   * sorted and come after all the others.
   */
  method BubblePass(matrix: array<array<int>>, lengthOfWord: nat, i: nat)
    requires lengthOfWord == matrix.Length && i + 1 < lengthOfWord
    requires forall a, b :: 0 <= a < b < matrix.Length ==> matrix[a] != matrix[b]
    requires forall t :: 0 <= t < lengthOfWord ==> matrix[t].Length == matrix[0].Length >= lengthOfWord
    requires SortedFrom(Rows(matrix), lengthOfWord, lengthOfWord - i)
    requires Dominated(Rows(matrix), lengthOfWord, lengthOfWord - i)
    modifies set t | 0 <= t < matrix.Length :: matrix[t]
    ensures multiset(Rows(matrix)) == old(multiset(Rows(matrix)))
    ensures SortedFrom(Rows(matrix), lengthOfWord, lengthOfWord - 1 - i)
    ensures Dominated(Rows(matrix), lengthOfWord, lengthOfWord - 1 - i)
  {
    ghost var rows := Rows(matrix);
    for j := 0 to lengthOfWord - 1
      invariant rows == Rows(matrix) && Wide(rows, lengthOfWord)
      invariant multiset(rows) == old(multiset(Rows(matrix)))
      invariant SortedFrom(rows, lengthOfWord, lengthOfWord - i)
      invariant Dominated(rows, lengthOfWord, lengthOfWord - i)
      invariant MaxAt(rows, lengthOfWord, Min(j, lengthOfWord - 1 - i))
    {
      var swap := OrderAdjacent(matrix, j, lengthOfWord);
      ghost var rows' := if swap then rows[j := rows[j + 1]][j + 1 := rows[j]] else rows;
      if swap {
        SwapKeepsMultiset(rows, j);
      }
      BubbleStep(rows, rows', lengthOfWord, j, i, swap);
      rows := rows';
    }
    ExtendSorted(rows, lengthOfWord, lengthOfWord - 1 - i);
  }

  /** A row that is a maximum of the rows before it extends the sorted, dominating suffix. */
  lemma ExtendSorted(rows: seq<seq<int>>, len: nat, lo: nat)
    requires Wide(rows, len)
    requires lo < |rows|
    requires SortedFrom(rows, len, lo + 1) && Dominated(rows, len, lo + 1) && MaxAt(rows, len, lo)
    ensures SortedFrom(rows, len, lo) && Dominated(rows, len, lo)
  {
  }

  function Min(a: int, b: int): int {
    if a < b then a else b
  }

  /**
   * One step of the inner loop of the sort: exchanges rows j and j+1 when the
   * key of row j+1 comes strictly before that of row j.
   */
  method OrderAdjacent(matrix: array<array<int>>, j: nat, lengthOfWord: nat) returns (swap: bool)
    requires lengthOfWord == matrix.Length && j + 1 < lengthOfWord
    requires forall a, b :: 0 <= a < b < matrix.Length ==> matrix[a] != matrix[b]
    requires matrix[j].Length >= lengthOfWord && matrix[j + 1].Length == matrix[j].Length
    modifies matrix[j], matrix[j + 1]
    ensures swap == LexLess(Key(old(Rows(matrix))[j + 1], lengthOfWord), Key(old(Rows(matrix))[j], lengthOfWord))
    ensures Rows(matrix) == if swap then old(Rows(matrix))[j := old(Rows(matrix))[j + 1]][j + 1 := old(Rows(matrix))[j]]
                            else old(Rows(matrix))
  {
    ghost var rows := Rows(matrix);
    swap := Follows(matrix[j], matrix[j + 1], lengthOfWord);
    if swap {
      SwapTwoRows(matrix[j], matrix[j + 1]);
      assert matrix[j][..] == rows[j + 1] && matrix[j + 1][..] == rows[j];
      forall t | 0 <= t < lengthOfWord && t != j && t != j + 1
        ensures matrix[t][..] == rows[t]
      {
      }
      assert Rows(matrix) == rows[j := rows[j + 1]][j + 1 := rows[j]];
    }
  }

  /** The effect of one comparison of the sort on the order of the rows. */
  lemma BubbleStep(rows: seq<seq<int>>, rows': seq<seq<int>>, len: nat, j: nat, pass: nat, swap: bool)
    requires len == |rows| && j + 1 < len && pass + 1 < len
    requires Wide(rows, len)
    requires swap == LexLess(Key(rows[j + 1], len), Key(rows[j], len))
    requires rows' == if swap then rows[j := rows[j + 1]][j + 1 := rows[j]] else rows
    requires SortedFrom(rows, len, len - pass) && Dominated(rows, len, len - pass)
    requires MaxAt(rows, len, Min(j, len - 1 - pass))
    ensures Wide(rows', len)
    ensures SortedFrom(rows', len, len - pass) && Dominated(rows', len, len - pass)
    ensures MaxAt(rows', len, Min(j + 1, len - 1 - pass))
  {
    var a, b := Key(rows[j], len), Key(rows[j + 1], len);
    if j < len - 1 - pass {
      if swap {
        SwapBelow(rows, len, len - pass, j);
        LexLessAsym(b, a);
        MaxAfterSwap(rows, len, j);
      } else {
        MaxAfterKeep(rows, len, j);
      }
    }
  }

  /** Exchanging two neighbours below position lo keeps the suffix sorted and dominating. */
  lemma SwapBelow(rows: seq<seq<int>>, len: nat, lo: nat, j: nat)
    requires Wide(rows, len) && j + 1 < lo <= |rows|
    requires SortedFrom(rows, len, lo) && Dominated(rows, len, lo)
    ensures Wide(rows[j := rows[j + 1]][j + 1 := rows[j]], len)
    ensures SortedFrom(rows[j := rows[j + 1]][j + 1 := rows[j]], len, lo)
    ensures Dominated(rows[j := rows[j + 1]][j + 1 := rows[j]], len, lo)
  {
    var rows' := rows[j := rows[j + 1]][j + 1 := rows[j]];
    forall a, b | 0 <= a < lo <= b < |rows'|
      ensures !LexLess(Key(rows'[b], len), Key(rows'[a], len))
    {
      var x := if a == j then j + 1 else if a == j + 1 then j else a;
      assert rows'[a] == rows[x] && rows'[b] == rows[b];
    }
  }

  /** After an exchange, the larger of the two neighbours sits at j + 1 and dominates all before it. */
  lemma MaxAfterSwap(rows: seq<seq<int>>, len: nat, j: nat)
    requires Wide(rows, len) && j + 1 < |rows|
    requires MaxAt(rows, len, j)
    requires !LexLess(Key(rows[j], len), Key(rows[j + 1], len))
    ensures MaxAt(rows[j := rows[j + 1]][j + 1 := rows[j]], len, j + 1)
  {
    var rows' := rows[j := rows[j + 1]][j + 1 := rows[j]];
    forall t | 0 <= t < j + 1
      ensures !LexLess(Key(rows'[j + 1], len), Key(rows'[t], len))
    {
      if t == j {
        assert rows'[t] == rows[j + 1];
      } else {
        assert rows'[t] == rows[t];
      }
    }
  }

  /** Without an exchange, the row at j + 1 is no smaller than the one at j and so dominates all before it. */
  lemma MaxAfterKeep(rows: seq<seq<int>>, len: nat, j: nat)
    requires Wide(rows, len) && j + 1 < |rows|
    requires MaxAt(rows, len, j)
    requires !LexLess(Key(rows[j + 1], len), Key(rows[j], len))
    ensures MaxAt(rows, len, j + 1)
  {
    var a, b := Key(rows[j], len), Key(rows[j + 1], len);
    forall t | 0 <= t < j + 1
      ensures !LexLess(b, Key(rows[t], len))
    {
      if t < j {
        LexLeqTrans(Key(rows[t], len), a, b);
      }
    }
  }

  /**
   * The comparison of the sort: whether the first len entries of row1 come
   * strictly after those of row2, decided at the first column where they differ.
   */
  method Follows(row1: array<int>, row2: array<int>, len: nat) returns (swap: bool)
    requires 1 <= len <= row1.Length && len <= row2.Length
    ensures swap == LexLess(row2[..len], row1[..len])
  {
    ghost var a, b := row1[..len], row2[..len];
    swap := false;
    if row1[0] > row2[0] {
      swap := true;
      FirstDiffAt(a, b, 0);
    } else if row1[0] == row2[0] {
      var k := 1;
      assert a[..1] == [a[0]] && b[..1] == [b[0]];
      while k < len
        invariant 1 <= k <= len
        invariant a[..k] == b[..k]
        invariant !swap
      {
        if row1[k] > row2[k] {
          swap := true;
          FirstDiffAt(a, b, k);
          break;
        } else if row1[k] < row2[k] {
          FirstDiffAt(a, b, k);
          break;
        }
        assert a[..k + 1] == a[..k] + [a[k]] && b[..k + 1] == b[..k] + [b[k]];
        k := k + 1;
      }
      if k == len {
        FirstDiffAt(a, b, k);
      }
    } else {
      FirstDiffAt(a, b, 0);
    }
  }

  /** Exchanging two neighbours keeps the multiset of a sequence. */
  lemma SwapKeepsMultiset<T>(s: seq<T>, j: nat)
    requires j + 1 < |s|
    ensures multiset(s[j := s[j + 1]][j + 1 := s[j]]) == multiset(s)
  {
    var s' := s[j := s[j + 1]][j + 1 := s[j]];
    var pre, post := s[..j], s[j + 2..];
    assert s == pre + [s[j], s[j + 1]] + post;
    assert s' == pre + [s[j + 1], s[j]] + post;
    assert multiset([s[j], s[j + 1]]) == multiset([s[j + 1], s[j]]);
  }
}
