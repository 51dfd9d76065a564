/**
 * Words over GF(2), shared by every code of the toolkit.
 *
 * The Java code stores bits in `int` arrays and adds them with `+` followed by
 * `% 2` (or with `^`); on the values 0 and 1 both are addition modulo 2, which
 * `XorBit` models.  Matrices are sequences of rows.
 */
module Bits {

  /** A bit: an integer that is 0 or 1. */
  type Bit = b: int | 0 <= b <= 1

  /** A value, or none when the Java code would throw. */
  datatype Option<T> = None | Some(value: T)

  /** Addition in GF(2). */
  function XorBit(a: Bit, b: Bit): Bit {
    if a == b then 0 else 1
  }

  /** The all-zero word of length n. */
  function Zeros(n: nat): (z: seq<Bit>)
    ensures |z| == n
    ensures forall i :: 0 <= i < n ==> z[i] == 0
  {
    seq(n, _ => 0)
  }

  /** The word of length n with a single 1 at position p. */
  function Unit(n: nat, p: nat): (u: seq<Bit>)
    requires p < n
    ensures |u| == n
    ensures forall i :: 0 <= i < n ==> u[i] == if i == p then 1 else 0
  {
    seq(n, i => if i == p then 1 else 0)
  }

  /** Position-wise addition of two words of equal length. */
  function Xor(a: seq<Bit>, b: seq<Bit>): (c: seq<Bit>)
    requires |a| == |b|
    ensures |c| == |a|
    ensures forall i :: 0 <= i < |a| ==> c[i] == XorBit(a[i], b[i])
  {
    seq(|a|, i requires 0 <= i < |a| => XorBit(a[i], b[i]))
  }

  /** Number of ones in a word. */
  function Weight(s: seq<Bit>): nat {
    if s == [] then 0 else Weight(s[..|s| - 1]) + s[|s| - 1]
  }

  /** Parity of a word: its weight modulo 2. */
  function Parity(s: seq<Bit>): Bit {
    Weight(s) % 2
  }

  /** Multiplication in GF(2); on 0 and 1 it is the integer product. */
  function AndBit(a: Bit, b: Bit): (c: Bit)
    ensures c == a * b
  {
    if a == 1 && b == 1 then 1 else 0
  }

  /** Inner product over GF(2), accumulated from the front as the Java loops do. */
  function Dot(a: seq<Bit>, b: seq<Bit>): Bit
    requires |a| == |b|
  {
    if a == [] then 0 else XorBit(Dot(a[..|a| - 1], b[..|b| - 1]), AndBit(a[|a| - 1], b[|b| - 1]))
  }

  /** The first `n` bits of `s`, padded with zeros when `s` is shorter (as copyOfRange pads). */
  function PaddedPrefix(s: seq<Bit>, n: nat): (t: seq<Bit>)
    ensures |t| == n
    ensures n <= |s| ==> t == s[..n]
  {
    seq(n, i requires 0 <= i < n => if i < |s| then s[i] else 0)
  }

  /** `m` has `rows` rows of `cols` entries each. */
  ghost predicate IsMatrix<T>(m: seq<seq<T>>, rows: nat, cols: nat) {
    |m| == rows && forall i :: 0 <= i < rows ==> |m[i]| == cols
  }

  /** Column c of the first `rows` rows of m. */
  function Column(m: seq<seq<Bit>>, c: nat, rows: nat): (col: seq<Bit>)
    requires rows <= |m| && forall i :: 0 <= i < rows ==> c < |m[i]|
    ensures |col| == rows && forall i :: 0 <= i < rows ==> col[i] == m[i][c]
  {
    seq(rows, i requires 0 <= i < rows && i < |m| && c < |m[i]| => m[i][c])
  }

  /** The rows of a two-dimensional array. */
  function ToRows(m: array2<Bit>): (rows: seq<seq<Bit>>)
    reads m
    ensures IsMatrix(rows, m.Length0, m.Length1)
    ensures forall i, j :: 0 <= i < m.Length0 && 0 <= j < m.Length1 ==> rows[i][j] == m[i, j]
  {
    seq(m.Length0, i reads m requires 0 <= i < m.Length0 =>
      seq(m.Length1, j reads m requires 0 <= j < m.Length1 => m[i, j]))
  }

  /**
   * System.arraycopy on bit arrays: `length` bits of `src` from `srcPos`
   * overwrite `dest` from `destPos`; the rest of `dest` is unchanged.
   */
  method ArrayCopy(src: seq<Bit>, srcPos: nat, dest: array<Bit>, destPos: nat, length: nat)
    requires srcPos + length <= |src| && destPos + length <= dest.Length
    modifies dest
    ensures dest[..] == old(dest[..destPos]) + src[srcPos .. srcPos + length] + old(dest[destPos + length ..])
  {
    ghost var before := dest[..];
    for k := 0 to length
      invariant forall t :: 0 <= t < dest.Length ==>
        dest[t] == if destPos <= t < destPos + k then src[srcPos + t - destPos] else before[t]
    {
      dest[destPos + k] := src[srcPos + k];
    }
    assert dest[..] == before[..destPos] + src[srcPos .. srcPos + length] + before[destPos + length ..];
  }

  /** Overwriting the zeros after a prefix `d` with the bits `r`. */
  lemma OverwriteZeros(d: seq<Bit>, r: seq<Bit>, n: nat)
    requires |d| + |r| <= n
    ensures var z := d + Zeros(n - |d|);
      z[..|d|] + r + z[|d| + |r|..] == (d + r) + Zeros(n - |d| - |r|)
  {
    var z := d + Zeros(n - |d|);
    assert z[..|d|] == d;
    assert z[|d| + |r|..] == Zeros(n - |d| - |r|);
  }

  /** Concatenation is associative. */
  lemma AppendAssoc<T>(x: seq<T>, y: seq<T>, z: seq<T>)
    ensures (x + y) + z == x + (y + z)
  {
  }

  /** 2 to the power i. */
  function Pow2(i: nat): (p: nat)
    ensures p >= 1
  {
    if i == 0 then 1 else 2 * Pow2(i - 1)
  }

  /** Bit i of the binary representation of x (bit 0 is the least significant). */
  function BitOf(x: nat, i: nat): Bit {
    if i == 0 then x % 2 else BitOf(x / 2, i - 1)
  }

  // ---------------------------------------------------------------------------
  // GF(2) algebra
  // ---------------------------------------------------------------------------

  lemma XorSelf(a: seq<Bit>)
    ensures Xor(a, a) == Zeros(|a|)
  {
  }

  lemma XorZeros(a: seq<Bit>)
    ensures Xor(a, Zeros(|a|)) == a && Xor(Zeros(|a|), a) == a
  {
  }

  lemma XorComm(a: seq<Bit>, b: seq<Bit>)
    requires |a| == |b|
    ensures Xor(a, b) == Xor(b, a)
  {
  }

  lemma XorAssoc(a: seq<Bit>, b: seq<Bit>, c: seq<Bit>)
    requires |a| == |b| == |c|
    ensures Xor(Xor(a, b), c) == Xor(a, Xor(b, c))
  {
  }

  lemma XorCancel(a: seq<Bit>, b: seq<Bit>)
    requires |a| == |b|
    ensures Xor(Xor(a, b), b) == a
  {
  }

  lemma XorSwap(a: seq<Bit>, b: seq<Bit>, c: seq<Bit>, d: seq<Bit>)
    requires |a| == |b| == |c| == |d|
    ensures Xor(Xor(a, b), Xor(c, d)) == Xor(Xor(a, c), Xor(b, d))
  {
  }

  lemma XorRotate(a: seq<Bit>, b: seq<Bit>, c: seq<Bit>)
    requires |a| == |b| == |c|
    ensures Xor(Xor(Xor(a, b), c), b) == Xor(a, c)
  {
  }

  lemma XorShuffle(a: seq<Bit>, b: seq<Bit>, c: seq<Bit>, d: seq<Bit>)
    requires |a| == |b| == |c| == |d|
    ensures Xor(c, d) == Xor(Xor(a, b), Xor(Xor(a, c), Xor(b, d)))
  {
  }

  /** Words whose sum is zero are equal. */
  lemma XorZeroEqual(a: seq<Bit>, b: seq<Bit>)
    requires |a| == |b| && Xor(a, b) == Zeros(|a|)
    ensures a == b
  {
    assert forall i :: 0 <= i < |a| ==> XorBit(a[i], b[i]) == 0;
  }

  lemma XorAppend(a1: seq<Bit>, a2: seq<Bit>, b1: seq<Bit>, b2: seq<Bit>)
    requires |a1| == |b1| && |a2| == |b2|
    ensures Xor(a1 + a2, b1 + b2) == Xor(a1, b1) + Xor(a2, b2)
  {
  }

  lemma XorSlice(a: seq<Bit>, b: seq<Bit>, i: nat, j: nat)
    requires |a| == |b| && i <= j <= |a|
    ensures Xor(a, b)[i..j] == Xor(a[i..j], b[i..j])
  {
  }

  /** The weight of a concatenation is the sum of the weights. */
  lemma {:induction false} WeightAppend(a: seq<Bit>, b: seq<Bit>)
    ensures Weight(a + b) == Weight(a) + Weight(b)
    decreases |b|
  {
    if b == [] {
      assert a + b == a;
    } else {
      assert (a + b)[..|a + b| - 1] == a + b[..|b| - 1];
      WeightAppend(a, b[..|b| - 1]);
    }
  }

  /** The weight of s[a..c] is the weight of s[a..b] plus that of s[b..c]. */
  lemma WeightSplit(s: seq<Bit>, a: nat, b: nat, c: nat)
    requires a <= b <= c <= |s|
    ensures Weight(s[a..c]) == Weight(s[a..b]) + Weight(s[b..c])
  {
    assert s[a..c] == s[a..b] + s[b..c];
    WeightAppend(s[a..b], s[b..c]);
  }

  /** The weight of the prefix s[..c] is the weight of s[..b] plus that of s[b..c]. */
  lemma WeightPrefix(s: seq<Bit>, b: nat, c: nat)
    requires b <= c <= |s|
    ensures Weight(s[..c]) == Weight(s[..b]) + Weight(s[b..c])
  {
    assert s[..c] == s[..b] + s[b..c];
    WeightAppend(s[..b], s[b..c]);
  }

  /** A one-bit word weighs its bit. */
  lemma WeightSingle(s: seq<Bit>)
    requires |s| == 1
    ensures Weight(s) == s[0]
  {
    assert s[..0] == [];
  }

  lemma ParityAppend(a: seq<Bit>, b: seq<Bit>)
    ensures Parity(a + b) == XorBit(Parity(a), Parity(b))
  {
    WeightAppend(a, b);
  }

  lemma WeightZeros(n: nat)
    ensures Weight(Zeros(n)) == 0
  {
    if n > 0 {
      assert Zeros(n)[..n - 1] == Zeros(n - 1);
      WeightZeros(n - 1);
    }
  }

  lemma {:induction false} WeightUnit(n: nat, p: nat)
    requires p < n
    ensures Weight(Unit(n, p)) == 1
  {
    assert Unit(n, p) == Zeros(p) + [1] + Zeros(n - p - 1);
    WeightAppend(Zeros(p) + [1], Zeros(n - p - 1));
    WeightAppend(Zeros(p), [1]);
    WeightZeros(p);
    WeightZeros(n - p - 1);
    assert Weight([1]) == Weight([]) + 1;
  }

  /** A word of weight 0 is the zero word. */
  lemma {:induction false} WeightZeroIsZeros(s: seq<Bit>)
    requires Weight(s) == 0
    ensures s == Zeros(|s|)
  {
    if s != [] {
      WeightZeroIsZeros(s[..|s| - 1]);
      assert s == s[..|s| - 1] + [s[|s| - 1]];
    }
  }

  /** A word of weight one is a unit word. */
  lemma UnitPosition(e: seq<Bit>) returns (p: nat)
    requires Weight(e) == 1
    ensures p < |e| && e == Unit(|e|, p)
  {
    var n := |e| - 1;
    if e[n] == 1 {
      WeightZeroIsZeros(e[..n]);
      p := n;
      assert e == e[..n] + [e[n]];
    } else {
      p := UnitPosition(e[..n]);
      assert e == e[..n] + [e[n]];
    }
  }

  /** A word with no two ones has weight at most one. */
  lemma {:induction false} AtMostOneOne(s: seq<Bit>)
    requires forall x, y :: 0 <= x < y < |s| ==> s[x] == 0 || s[y] == 0
    ensures Weight(s) <= 1
  {
    if s != [] {
      var n := |s| - 1;
      if s[n] == 1 {
        assert s[..n] == Zeros(n);
        WeightZeros(n);
      } else {
        AtMostOneOne(s[..n]);
      }
    }
  }

  /** Parity is additive: the parity of a sum of words is the sum of their parities. */
  lemma {:induction false} ParityXor(a: seq<Bit>, b: seq<Bit>)
    requires |a| == |b|
    ensures Parity(Xor(a, b)) == XorBit(Parity(a), Parity(b))
    decreases |a|
  {
    if a != [] {
      var n := |a| - 1;
      assert Xor(a, b) == Xor(a[..n], b[..n]) + [XorBit(a[n], b[n])];
      assert a == a[..n] + [a[n]] && b == b[..n] + [b[n]];
      ParityXor(a[..n], b[..n]);
      ParitySnoc(Xor(a[..n], b[..n]), XorBit(a[n], b[n]));
      ParitySnoc(a[..n], a[n]);
      ParitySnoc(b[..n], b[n]);
    }
  }

  lemma ParityZeros(n: nat)
    ensures Parity(Zeros(n)) == 0
  {
    WeightZeros(n);
  }

  /** Appending one bit adds it to the parity. */
  lemma ParitySnoc(s: seq<Bit>, b: Bit)
    ensures Parity(s + [b]) == XorBit(Parity(s), b)
  {
    assert (s + [b])[..|s|] == s;
  }

  /** Appending one bit adds it to the weight. */
  lemma WeightSnoc(s: seq<Bit>, b: Bit)
    ensures Weight(s + [b]) == Weight(s) + b
  {
    assert (s + [b])[..|s|] == s;
  }

  /** Two matrices of the same shape with the same entries are equal. */
  lemma MatrixEqual(g: seq<seq<Bit>>, h: seq<seq<Bit>>, rows: nat, cols: nat)
    requires IsMatrix(g, rows, cols) && IsMatrix(h, rows, cols)
    requires forall i, j :: 0 <= i < rows && 0 <= j < cols ==> g[i][j] == h[i][j]
    ensures g == h
  {
    forall i | 0 <= i < rows
      ensures g[i] == h[i]
    {
    }
  }

  /** Appending a word's parity bit gives a word of even weight. */
  lemma ParityAppendOwn(s: seq<Bit>)
    ensures Parity(s + [Parity(s)]) == 0
  {
    ParityAppend(s, [Parity(s)]);
    assert Weight([Parity(s)]) == Weight([]) + Parity(s);
  }

  lemma {:induction false} DotAppend(a1: seq<Bit>, a2: seq<Bit>, b1: seq<Bit>, b2: seq<Bit>)
    requires |a1| == |b1| && |a2| == |b2|
    ensures Dot(a1 + a2, b1 + b2) == XorBit(Dot(a1, b1), Dot(a2, b2))
    decreases |a2|
  {
    if a2 == [] {
      assert a1 + a2 == a1 && b1 + b2 == b1;
    } else {
      var n := |a2| - 1;
      assert (a1 + a2)[..|a1 + a2| - 1] == a1 + a2[..n];
      assert (b1 + b2)[..|b1 + b2| - 1] == b1 + b2[..n];
      DotAppend(a1, a2[..n], b1, b2[..n]);
    }
  }

  /** The inner product is linear in its second argument. */
  lemma {:induction false} DotXor(a: seq<Bit>, b: seq<Bit>, c: seq<Bit>)
    requires |a| == |b| == |c|
    ensures Dot(a, Xor(b, c)) == XorBit(Dot(a, b), Dot(a, c))
    decreases |a|
  {
    if a != [] {
      var n := |a| - 1;
      assert Xor(b, c)[..n] == Xor(b[..n], c[..n]);
      DotXor(a[..n], b[..n], c[..n]);
    }
  }

  lemma {:induction false} DotZeros(a: seq<Bit>)
    ensures Dot(a, Zeros(|a|)) == 0
    decreases |a|
  {
    if a != [] {
      assert Zeros(|a|)[..|a| - 1] == Zeros(|a| - 1);
      DotZeros(a[..|a| - 1]);
    }
  }

  /** The inner product with a unit word picks one entry. */
  lemma {:induction false} DotUnit(a: seq<Bit>, p: nat)
    requires p < |a|
    ensures Dot(a, Unit(|a|, p)) == a[p]
    decreases |a|
  {
    var n := |a| - 1;
    if p == n {
      assert Unit(|a|, p)[..n] == Zeros(n);
      DotZeros(a[..n]);
    } else {
      assert Unit(|a|, p)[..n] == Unit(n, p);
      DotUnit(a[..n], p);
    }
  }

  lemma DotSplit(a: seq<Bit>, b: seq<Bit>, k: nat)
    requires |a| == |b| && k <= |a|
    ensures Dot(a, b) == XorBit(Dot(a[..k], b[..k]), Dot(a[k..], b[k..]))
  {
    assert a == a[..k] + a[k..] && b == b[..k] + b[k..];
    DotAppend(a[..k], a[k..], b[..k], b[k..]);
  }

  /** The inner product only reads the positions where both words are given. */
  lemma DotPrefix(a: seq<Bit>, b: seq<Bit>, b': seq<Bit>)
    requires |a| == |b| == |b'| && b == b'
    ensures Dot(a, b) == Dot(a, b')
  {
  }

  // ---------------------------------------------------------------------------
  // Binary representation
  // ---------------------------------------------------------------------------

  /** Division with remainder has exactly one solution. */
  lemma DivModUnique(x: int, d: int, q: int, m: int)
    requires d > 0 && 0 <= m < d && x == q * d + m
    ensures x / d == q && x % d == m
  {
    var q', m' := x / d, x % d;
    assert x == q' * d + m';
    assert (q - q') * d == m' - m;
    if q > q' {
      MulAtLeast(q - q', d);
      assert false;
    } else if q < q' {
      MulAtLeast(q' - q, d);
      assert false;
    }
  }

  lemma MulDouble(q: int, p: int)
    ensures q * (2 * p) == 2 * (q * p)
  {
  }

  lemma MulAtLeast(a: int, d: int)
    requires d > 0 && a >= 1
    ensures a * d >= d
  {
  }

  /** Bit i is the parity of x divided by 2^i, as the Java key toggle computes it. */
  lemma {:induction false} BitOfDiv(x: nat, i: nat)
    ensures BitOf(x, i) == (x / Pow2(i)) % 2
  {
    if i > 0 {
      BitOfDiv(x / 2, i - 1);
      DivHalf(x, Pow2(i - 1));
    }
  }

  /** Dividing by 2p is halving and then dividing by p. */
  lemma DivHalf(x: nat, p: nat)
    requires p > 0
    ensures x / (2 * p) == (x / 2) / p
  {
    var h, b := x / 2, x % 2;
    var q, m := h / p, h % p;
    assert h == q * p + m;
    MulDouble(q, p);
    assert x == q * (2 * p) + (2 * m + b);
    DivModUnique(x, 2 * p, q, 2 * m + b);
  }

  lemma {:induction false} BitOfPow2(i: nat, t: nat)
    ensures BitOf(Pow2(i), t) == if t == i then 1 else 0
  {
    if t > 0 {
      if i == 0 {
        BitOfZero(t - 1);
      } else {
        assert Pow2(i) / 2 == Pow2(i - 1);
        BitOfPow2(i - 1, t - 1);
      }
    }
  }

  lemma {:induction false} BitOfZero(t: nat)
    ensures BitOf(0, t) == 0
  {
    if t > 0 {
      BitOfZero(t - 1);
    }
  }

  /** Bits at or above position r of a number below 2^r are zero. */
  lemma {:induction false} BitOfSmall(x: nat, r: nat, t: nat)
    requires x < Pow2(r) && r <= t
    ensures BitOf(x, t) == 0
  {
    if r == 0 {
      assert x == 0;
      BitOfZero(t);
    } else {
      BitOfSmall(x / 2, r - 1, t - 1);
    }
  }

  /** The r low bits of x, least significant first. */
  function BitsOf(x: nat, r: nat): (s: seq<Bit>)
    ensures |s| == r && forall i :: 0 <= i < r ==> s[i] == BitOf(x, i)
  {
    seq(r, i requires 0 <= i < r => BitOf(x, i))
  }

  /** Numbers below 2^r are determined by their r low bits. */
  lemma {:induction false} BitsOfInjective(x: nat, y: nat, r: nat)
    requires x < Pow2(r) && y < Pow2(r)
    requires BitsOf(x, r) == BitsOf(y, r)
    ensures x == y
  {
    if r == 0 {
    } else {
      assert BitOf(x, 0) == BitsOf(x, r)[0] == BitsOf(y, r)[0] == BitOf(y, 0);
      var hx, hy := BitsOf(x / 2, r - 1), BitsOf(y / 2, r - 1);
      forall i | 0 <= i < r - 1
        ensures hx[i] == hy[i]
      {
        assert BitOf(x, i + 1) == BitsOf(x, r)[i + 1];
        assert BitOf(y, i + 1) == BitsOf(y, r)[i + 1];
      }
      BitsOfInjective(x / 2, y / 2, r - 1);
    }
  }

  // ---------------------------------------------------------------------------
  // Row-major positions in a grid
  // ---------------------------------------------------------------------------

  /** The number of cells of an R × C grid. */
  function Area(R: nat, C: nat): nat {
    R * C
  }

  /** One more row adds C cells. */
  lemma AreaStep(r: nat, C: nat)
    ensures Area(r + 1, C) == Area(r, C) + C
  {
  }

  /** The first r rows of an R × C grid lie inside it, and so does row r when r < R. */
  lemma {:induction false} RowInside(r: nat, R: nat, C: nat)
    requires r <= R
    ensures Area(r, C) <= Area(R, C)
    ensures r < R ==> Area(r, C) + C <= Area(R, C)
    decreases R - r
  {
    if r < R {
      AreaStep(r, C);
      RowInside(r + 1, R, C);
    }
  }

  /** Position of data cell (i, j) in row-major order: i·C + j. */
  function Pos(R: nat, C: nat, i: nat, j: nat): (t: nat)
    requires i < R && j < C
    ensures t == Area(i, C) + j && t < Area(R, C)
  {
    RowInside(i, R, C);
    Area(i, C) + j
  }

  /** Every position below R·C is the position of one cell. */
  lemma {:induction false} PosSplit(t: nat, R: nat, C: nat) returns (i: nat, j: nat)
    requires t < Area(R, C)
    ensures i < R && j < C && Pos(R, C, i, j) == t
  {
    AreaStep(R - 1, C);
    if t < Area(R - 1, C) {
      i, j := PosSplit(t, R - 1, C);
    } else {
      i, j := R - 1, t - Area(R - 1, C);
    }
  }

  /** Distinct cells have distinct positions. */
  lemma PosInjective(R: nat, C: nat, i: nat, j: nat, a: nat, b: nat)
    requires i < R && j < C && a < R && b < C
    requires Pos(R, C, i, j) == Pos(R, C, a, b)
    ensures i == a && j == b
  {
    if i < a {
      RowInside(i + 1, a, C);
      assert false;
    } else if a < i {
      RowInside(a + 1, i, C);
      assert false;
    }
  }
}
