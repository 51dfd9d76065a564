/**
 * The two-dimensional parity ("iterative") code.
 *
 * R·C data bits are laid out row by row in an R × C grid.  Column C of the
 * grid holds the parity of each row, row R the parity of each column, and the
 * corner (R, C) the parity of every other cell.  The transmitted word is the
 * data followed by the R row parities, the C column parities and the corner.
 * A single wrong data bit shows up as one odd row and one odd column, and the
 * receiver flips the bit where they cross.
 */
module IterativeCode {
  import opened Bits

  // ---------------------------------------------------------------------------
  // The encoder's view: data, row and column parities, corner
  // ---------------------------------------------------------------------------

  /** Data row i. */
  function RowBits(data: seq<Bit>, R: nat, C: nat, i: nat): (row: seq<Bit>)
    requires Area(R, C) <= |data| && i < R
    ensures |row| == C
  {
    RowInside(i, R, C);
    data[Area(i, C) .. Area(i, C) + C]
  }

  /** Data column j, top to bottom. */
  function ColumnBits(data: seq<Bit>, R: nat, C: nat, j: nat): (col: seq<Bit>)
    requires Area(R, C) <= |data| && j < C
    ensures |col| == R
  {
    seq(R, i requires 0 <= i < R => data[Pos(R, C, i, j)])
  }

  /** The parity of each data row: column C of the grid. */
  function RowParities(data: seq<Bit>, R: nat, C: nat): (p: seq<Bit>)
    requires Area(R, C) <= |data|
    ensures |p| == R
  {
    seq(R, i requires 0 <= i < R => Parity(RowBits(data, R, C, i)))
  }

  /** The parity of each data column: row R of the grid. */
  function ColumnParities(data: seq<Bit>, R: nat, C: nat): (p: seq<Bit>)
    requires Area(R, C) <= |data|
    ensures |p| == C
  {
    seq(C, j requires 0 <= j < C => Parity(ColumnBits(data, R, C, j)))
  }

  /** The R + C + 1 redundant bits: row parities, column parities, and the parity of all of them and the data. */
  function Redundant(data: seq<Bit>, R: nat, C: nat): (red: seq<Bit>)
    requires Area(R, C) <= |data|
    ensures |red| == R + C + 1
  {
    var sides := RowParities(data, R, C) + ColumnParities(data, R, C);
    sides + [Parity(data[..Area(R, C)] + sides)]
  }

  /** The transmitted word: the R·C data bits followed by the redundant bits. */
  function CodeWord(data: seq<Bit>, R: nat, C: nat): (w: seq<Bit>)
    requires Area(R, C) <= |data|
    ensures |w| == Area(R, C) + R + C + 1
  {
    data[..Area(R, C)] + Redundant(data, R, C)
  }

  // ---------------------------------------------------------------------------
  // Grid and flat word
  // ---------------------------------------------------------------------------

  /**
   * The (R + 1) × (C + 1) grid of a flat word: data row by row, then column
   * C from the next R bits, row R from the C bits after them, and the corner
   * from the last bit of the word.
   */
  function Layout(w: seq<Bit>, R: nat, C: nat): (grid: seq<seq<Bit>>)
    requires Area(R, C) + R + C <= |w| && 1 <= |w|
    ensures IsMatrix(grid, R + 1, C + 1)
  {
    seq(R + 1, i requires 0 <= i <= R =>
      seq(C + 1, j requires 0 <= j <= C =>
        if i < R && j < C then w[Pos(R, C, i, j)]
        else if i < R then w[Area(R, C) + i]
        else if j < C then w[Area(R, C) + R + j]
        else w[|w| - 1]))
  }

  /** The first C cells of each of the first R rows, row after row. */
  function DataOf(grid: seq<seq<Bit>>, R: nat, C: nat): (data: seq<Bit>)
    requires R <= |grid| && forall i :: 0 <= i < R ==> C <= |grid[i]|
    ensures |data| == Area(R, C)
  {
    if R == 0 then [] else DataOf(grid, R - 1, C) + grid[R - 1][..C]
  }

  /** The redundant cells of a grid: column C of the first R rows, row R up to column C, then the corner. */
  function RedundantOf(grid: seq<seq<Bit>>, R: nat, C: nat): (red: seq<Bit>)
    requires R < |grid| && forall i :: 0 <= i <= R ==> C < |grid[i]|
    ensures |red| == R + C + 1
  {
    seq(R, i requires 0 <= i < R => grid[i][C]) + grid[R][..C] + [grid[R][C]]
  }

  /** Multiplication is monotone. */
  lemma MulMono(a: nat, b: nat, c: nat)
    requires a <= b
    ensures a * c <= b * c && c * a <= c * b
  {
  }

  /** A grid with at least R + 1 rows of at least C + 1 cells has at least (R + 1)(C + 1) cells. */
  lemma GridSize(grid: seq<seq<Bit>>, R: nat, C: nat)
    requires R < |grid| && forall i :: 0 <= i <= R ==> C < |grid[i]|
    ensures Area(R, C) + R + C + 1 <= |grid| * |grid[0]|
  {
    MulMono(R + 1, |grid|, C + 1);
    MulMono(C + 1, |grid[0]|, |grid|);
    assert (R + 1) * (C + 1) == R * C + R + C + 1;
  }

  /**
   * The flat word of a grid: data, redundant cells, and zeros up to the size
   * |grid| · |grid[0]| of the message array.
   */
  function Flat(grid: seq<seq<Bit>>, R: nat, C: nat): (w: seq<Bit>)
    requires R < |grid| && forall i :: 0 <= i <= R ==> C < |grid[i]|
    ensures |w| == |grid| * |grid[0]|
  {
    GridSize(grid, R, C);
    DataOf(grid, R, C) + RedundantOf(grid, R, C) + Zeros(|grid| * |grid[0]| - (Area(R, C) + R + C + 1))
  }

  /** The first C cells of the first R rows. */
  function Cut(grid: seq<seq<Bit>>, R: nat, C: nat): (cut: seq<seq<Bit>>)
    requires R <= |grid|
    ensures IsMatrix(cut, R, C)
  {
    seq(R, i requires 0 <= i < R => PaddedPrefix(grid[i], C))
  }

  // ---------------------------------------------------------------------------
  // The total sum
  // ---------------------------------------------------------------------------

  /** Every row is at least as wide as the first. */
  ghost predicate WideRows(grid: seq<seq<Bit>>) {
    forall i :: 0 <= i < |grid| ==> |grid[0]| <= |grid[i]|
  }

  /** How many cells of row r the total sum visits: the first row's width, one less in the last row. */
  function RowEnd(grid: seq<seq<Bit>>, r: nat): (e: nat)
    requires r < |grid| && WideRows(grid)
    ensures e <= |grid[r]|
  {
    if r == |grid| - 1 && |grid[0]| > 0 then |grid[0]| - 1 else |grid[0]|
  }

  /** The cells of the first r rows that the total sum visits, row after row. */
  function Scanned(grid: seq<seq<Bit>>, r: nat): seq<Bit>
    requires r <= |grid| && WideRows(grid)
  {
    if r == 0 then [] else Scanned(grid, r - 1) + grid[r - 1][..RowEnd(grid, r - 1)]
  }

  /** The parity of every cell of the grid but the last cell of the last row. */
  function TotalSum(grid: seq<seq<Bit>>): Bit
    requires WideRows(grid)
  {
    Parity(Scanned(grid, |grid|))
  }

  // ---------------------------------------------------------------------------
  // Parities of parities
  // ---------------------------------------------------------------------------

  /** The data of the first q + 1 rows is that of the first q rows followed by row q. */
  lemma RowPrefix(data: seq<Bit>, C: nat, q: nat)
    requires Area(q + 1, C) <= |data|
    ensures data[..Area(q + 1, C)] == data[..Area(q, C)] + RowBits(data, q + 1, C, q)
  {
    var a, b := Area(q, C), Area(q + 1, C);
    assert data[..b] == data[..a] + data[a..b];
  }

  /** The row parities together have the parity of the data. */
  lemma {:induction false} RowParitiesParity(data: seq<Bit>, R: nat, C: nat)
    requires Area(R, C) <= |data|
    ensures Parity(RowParities(data, R, C)) == Parity(data[..Area(R, C)])
  {
    if R > 0 {
      var q := R - 1;
      RowParitiesParity(data, q, C);
      var row := RowBits(data, R, C, q);
      assert RowParities(data, R, C) == RowParities(data, q, C) + [Parity(row)];
      ParitySnoc(RowParities(data, q, C), Parity(row));
      RowPrefix(data, C, q);
      ParityAppend(data[..Area(q, C)], row);
    }
  }

  /** Adding data row R - 1 to the column parities of the rows above it adds the row bit by bit. */
  lemma ColumnParitiesStep(data: seq<Bit>, R: nat, C: nat)
    requires Area(R, C) <= |data| && R > 0
    ensures Area(R - 1, C) <= |data|
    ensures ColumnParities(data, R, C) == Xor(ColumnParities(data, R - 1, C), RowBits(data, R, C, R - 1))
  {
    AreaStep(R - 1, C);
    forall j | 0 <= j < C
      ensures ColumnParities(data, R, C)[j]
           == XorBit(ColumnParities(data, R - 1, C)[j], RowBits(data, R, C, R - 1)[j])
    {
      ColumnSnoc(data, R, C, j);
    }
  }

  /** Column j of the first R rows is column j of the first R - 1 rows, then the cell in row R - 1. */
  lemma ColumnSnoc(data: seq<Bit>, R: nat, C: nat, j: nat)
    requires Area(R, C) <= |data| && 0 < R && j < C && Area(R, C) == Area(R - 1, C) + C
    ensures Parity(ColumnBits(data, R, C, j)) == XorBit(Parity(ColumnBits(data, R - 1, C, j)), RowBits(data, R, C, R - 1)[j])
  {
    var col := ColumnBits(data, R, C, j);
    assert col[R - 1] == RowBits(data, R, C, R - 1)[j];
    assert col == ColumnBits(data, R - 1, C, j) + [col[R - 1]];
    ParitySnoc(ColumnBits(data, R - 1, C, j), col[R - 1]);
  }

  /** The column parities together have the parity of the data. */
  lemma {:induction false} ColumnParitiesParity(data: seq<Bit>, R: nat, C: nat)
    requires Area(R, C) <= |data|
    ensures Parity(ColumnParities(data, R, C)) == Parity(data[..Area(R, C)])
  {
    if R == 0 {
      assert ColumnParities(data, 0, C) == Zeros(C);
      ParityZeros(C);
    } else {
      var q := R - 1;
      ColumnParitiesParity(data, q, C);
      ColumnParitiesStep(data, R, C);
      ParityXor(ColumnParities(data, q, C), RowBits(data, R, C, q));
      RowPrefix(data, C, q);
      ParityAppend(data[..Area(q, C)], RowBits(data, R, C, q));
    }
  }

  /** The corner bit is the parity of the data: the row and the column parities each add that parity once more. */
  lemma CornerIsDataParity(data: seq<Bit>, R: nat, C: nat)
    requires Area(R, C) <= |data|
    ensures Redundant(data, R, C)[R + C] == Parity(data[..Area(R, C)])
    ensures Parity(RowParities(data, R, C)) == Parity(data[..Area(R, C)])
    ensures Parity(ColumnParities(data, R, C)) == Parity(data[..Area(R, C)])
  {
    var rows, cols := RowParities(data, R, C), ColumnParities(data, R, C);
    RowParitiesParity(data, R, C);
    ColumnParitiesParity(data, R, C);
    assert data[..Area(R, C)] + (rows + cols) == (data[..Area(R, C)] + rows) + cols;
    ParityAppend(data[..Area(R, C)] + rows, cols);
    ParityAppend(data[..Area(R, C)], rows);
  }

  // ---------------------------------------------------------------------------
  // Grid and flat word are each other's inverse
  // ---------------------------------------------------------------------------

  /** Cell (i, j) of the data part of a grid sits at Pos(i, j) of the flattened data. */
  lemma {:induction false} DataOfAt(grid: seq<seq<Bit>>, R: nat, C: nat, i: nat, j: nat)
    requires R <= |grid| && forall a :: 0 <= a < R ==> C <= |grid[a]|
    requires i < R && j < C
    ensures DataOf(grid, R, C)[Pos(R, C, i, j)] == grid[i][j]
  {
    if i < R - 1 {
      DataOfAt(grid, R - 1, C, i, j);
    } else {
      assert Pos(R, C, i, j) == Area(R - 1, C) + j;
    }
  }

  /** Row i of the grid of a word: data row i, then its row parity bit. */
  lemma LayoutRow(w: seq<Bit>, R: nat, C: nat, i: nat)
    requires Area(R, C) + R + C <= |w| && 1 <= |w| && i < R
    ensures Layout(w, R, C)[i] == RowBits(w, R, C, i) + [w[Area(R, C) + i]]
  {
    var grid, row := Layout(w, R, C), RowBits(w, R, C, i);
    forall j | 0 <= j < C
      ensures grid[i][j] == row[j]
    {
      RowInside(i, R, C);
      assert grid[i][j] == w[Pos(R, C, i, j)];
    }
    assert grid[i] == row + [w[Area(R, C) + i]];
  }

  /** Column j of the grid of a word: data column j and its column parity bit; column C: the row parity bits and the last bit. */
  lemma LayoutColumn(w: seq<Bit>, R: nat, C: nat, j: nat)
    requires Area(R, C) + R + C <= |w| && 1 <= |w| && j <= C
    ensures Column(Layout(w, R, C), j, R + 1) ==
      if j < C then ColumnBits(w, R, C, j) + [w[Area(R, C) + R + j]]
      else w[Area(R, C) .. Area(R, C) + R] + [w[|w| - 1]]
  {
    var grid := Layout(w, R, C);
    var col := Column(grid, j, R + 1);
    if j < C {
      var bits := ColumnBits(w, R, C, j);
      forall i | 0 <= i < R
        ensures col[i] == bits[i]
      {
        assert grid[i][j] == w[Pos(R, C, i, j)];
      }
      assert col == bits + [w[Area(R, C) + R + j]];
    } else {
      var bits := w[Area(R, C) .. Area(R, C) + R];
      forall i | 0 <= i < R
        ensures col[i] == bits[i]
      {
        assert grid[i][j] == w[Area(R, C) + i];
      }
      assert col == bits + [w[|w| - 1]];
    }
  }

  /** Row R of the grid of a word: the column parity bits, then the last bit. */
  lemma LayoutLastRow(w: seq<Bit>, R: nat, C: nat)
    requires Area(R, C) + R + C <= |w| && 1 <= |w|
    ensures Layout(w, R, C)[R] == w[Area(R, C) + R .. Area(R, C) + R + C] + [w[|w| - 1]]
  {
  }

  /** The data part of the grid of a word is the word's first R·C bits. */
  lemma {:induction false} DataOfLayout(w: seq<Bit>, R: nat, C: nat, r: nat)
    requires Area(R, C) + R + C <= |w| && 1 <= |w| && r <= R && Area(r, C) <= Area(R, C)
    ensures DataOf(Layout(w, R, C), r, C) == w[..Area(r, C)]
  {
    if r > 0 {
      var q := r - 1;
      RowInside(q, R, C);
      DataOfLayout(w, R, C, q);
      RowPrefix(w, C, q);
      LayoutRow(w, R, C, q);
      assert Layout(w, R, C)[q][..C] == RowBits(w, R, C, q);
    }
  }

  /** Flattening the grid of a word of (R + 1)(C + 1) bits gives the word back. */
  lemma FlatOfLayout(w: seq<Bit>, R: nat, C: nat)
    requires |w| == Area(R, C) + R + C + 1
    ensures Flat(Layout(w, R, C), R, C) == w
  {
    var grid := Layout(w, R, C);
    DataOfLayout(w, R, C, R);
    assert (R + 1) * (C + 1) == Area(R, C) + R + C + 1;
    assert RedundantOf(grid, R, C) == w[Area(R, C) ..];
    assert w == w[..Area(R, C)] + w[Area(R, C) ..];
  }

  /** Laying out the flat word of an (R + 1) × (C + 1) grid gives the grid back. */
  lemma LayoutOfFlat(grid: seq<seq<Bit>>, R: nat, C: nat)
    requires IsMatrix(grid, R + 1, C + 1)
    ensures Layout(Flat(grid, R, C), R, C) == grid
  {
    var w := Flat(grid, R, C);
    var back := Layout(w, R, C);
    forall i | 0 <= i <= R
      ensures back[i] == grid[i]
    {
      forall j | 0 <= j <= C
        ensures back[i][j] == grid[i][j]
      {
        if i < R && j < C {
          DataOfAt(grid, R, C, i, j);
        }
      }
    }
  }

  /** The redundant cells of the grid of a word are the bits after the data and the last bit. */
  lemma RedundantOfLayout(w: seq<Bit>, R: nat, C: nat)
    requires Area(R, C) + R + C <= |w| && 1 <= |w|
    ensures RedundantOf(Layout(w, R, C), R, C) == w[Area(R, C) .. Area(R, C) + R + C] + [w[|w| - 1]]
  {
  }

  /** The data of the cut grid is the data of the grid. */
  lemma DataOfCut(grid: seq<seq<Bit>>, R: nat, C: nat)
    requires R <= |grid| && forall i :: 0 <= i < R ==> C <= |grid[i]|
    ensures DataOf(Cut(grid, R, C), R, C) == DataOf(grid, R, C)
  {
    var cut := Cut(grid, R, C);
    forall t | 0 <= t < Area(R, C)
      ensures DataOf(cut, R, C)[t] == DataOf(grid, R, C)[t]
    {
      var i, j := PosSplit(t, R, C);
      DataOfAt(cut, R, C, i, j);
      DataOfAt(grid, R, C, i, j);
    }
  }

  /** The redundant bits depend on the first R·C data bits only. */
  lemma RedundantOfPrefix(data: seq<Bit>, R: nat, C: nat)
    requires Area(R, C) <= |data|
    ensures Redundant(data[..Area(R, C)], R, C) == Redundant(data, R, C)
  {
    var d := data[..Area(R, C)];
    forall i | 0 <= i < R
      ensures RowBits(d, R, C, i) == RowBits(data, R, C, i)
    {
      RowInside(i, R, C);
    }
    forall j | 0 <= j < C
      ensures ColumnBits(d, R, C, j) == ColumnBits(data, R, C, j)
    {
    }
    assert RowParities(d, R, C) == RowParities(data, R, C);
    assert ColumnParities(d, R, C) == ColumnParities(data, R, C);
    assert d[..Area(R, C)] == data[..Area(R, C)];
  }

  // ---------------------------------------------------------------------------
  // The total sum of a laid-out word
  // ---------------------------------------------------------------------------

  /** The first r rows of a laid-out word contribute their data bits and their row parity bits. */
  lemma {:induction false} ScannedLayout(w: seq<Bit>, R: nat, C: nat, r: nat)
    requires Area(R, C) + R + C <= |w| && 1 <= |w| && r <= R && Area(r, C) <= Area(R, C)
    ensures Weight(Scanned(Layout(w, R, C), r)) == Weight(w[..Area(r, C)]) + Weight(w[Area(R, C) .. Area(R, C) + r])
  {
    var grid := Layout(w, R, C);
    if r > 0 {
      var q, n := r - 1, Area(R, C);
      LayoutRowVisited(w, R, C, q, r);
      ScannedLayout(w, R, C, q);
      ScannedStep(grid, w, q, Area(q, C), Area(r, C), n, n + q, n + r);
      assert q + 1 == r;
    } else {
      assert Area(r, C) == 0;
      assert w[..0] == [] && w[Area(R, C) .. Area(R, C)] == [];
    }
  }

  /**
   * If the first q rows visit as many ones as w[..a] and w[m..p], and row q
   * visits w[a..b] and w[p..p'] (p' = p + 1), the first q + 1 rows visit as
   * many as w[..b] and w[m..p'].
   */
  lemma ScannedStep(grid: seq<seq<Bit>>, w: seq<Bit>, q: nat, a: nat, b: nat, m: nat, p: nat, p': nat)
    requires q < |grid| && WideRows(grid)
    requires a <= b <= |w| && m <= p && p' == p + 1 && p' <= |w|
    requires Weight(Scanned(grid, q)) == Weight(w[..a]) + Weight(w[m..p])
    requires grid[q][..RowEnd(grid, q)] == w[a..b] + w[p..p']
    ensures Weight(Scanned(grid, q + 1)) == Weight(w[..b]) + Weight(w[m..p'])
  {
    var s := Scanned(grid, q);
    assert Scanned(grid, q + 1) == s + (w[a..b] + w[p..p']);
    WeightAppend(s, w[a..b] + w[p..p']);
    WeightAppend(w[a..b], w[p..p']);
    WeightPrefix(w, a, b);
    WeightSplit(w, m, p, p');
  }

  /**
   * The total sum of a grid whose rows but the last visit as many ones as
   * w[..a] and w[a..b], and whose last row visits w[b..c].
   */
  lemma TotalSumOfRows(grid: seq<seq<Bit>>, w: seq<Bit>, q: nat, a: nat, b: nat, c: nat)
    requires |grid| == q + 1 && WideRows(grid) && a <= b <= c <= |w|
    requires Weight(Scanned(grid, q)) == Weight(w[..a]) + Weight(w[a..b])
    requires grid[q][..RowEnd(grid, q)] == w[b..c]
    ensures TotalSum(grid) == Parity(w[..c])
  {
    var s := Scanned(grid, q);
    assert Scanned(grid, |grid|) == s + w[b..c];
    WeightOfParts(s, w, a, b, c);
  }

  /** The total sum visits all of row q < R of the grid of a word: data row q and its row parity bit. */
  lemma LayoutRowVisited(w: seq<Bit>, R: nat, C: nat, q: nat, r: nat)
    requires Area(R, C) + R + C <= |w| && 1 <= |w| && q < R && r == q + 1
    ensures Area(q, C) + C == Area(r, C) <= Area(R, C)
    ensures var grid := Layout(w, R, C);
      grid[q][..RowEnd(grid, q)] == w[Area(q, C) .. Area(r, C)] + w[Area(R, C) + q .. Area(R, C) + r]
  {
    RowInside(q, R, C);
    AreaStep(q, C);
    LayoutRow(w, R, C, q);
    var grid := Layout(w, R, C);
    assert grid[q][..RowEnd(grid, q)] == grid[q];
  }

  /** The total sum visits row R of the grid of a word up to the corner: the column parity bits. */
  lemma LayoutLastVisited(w: seq<Bit>, R: nat, C: nat)
    requires Area(R, C) + R + C <= |w| && 1 <= |w|
    ensures var grid := Layout(w, R, C);
      grid[R][..RowEnd(grid, R)] == w[Area(R, C) + R .. Area(R, C) + R + C]
  {
    LayoutLastRow(w, R, C);
  }

  /** A word as heavy as w[..a] and w[a..b] together, followed by w[b..c], is as heavy as w[..c]. */
  lemma WeightOfParts(s: seq<Bit>, w: seq<Bit>, a: nat, b: nat, c: nat)
    requires a <= b <= c <= |w| && Weight(s) == Weight(w[..a]) + Weight(w[a..b])
    ensures Weight(s + w[b..c]) == Weight(w[..c])
  {
    WeightAppend(s, w[b..c]);
    WeightThreeParts(w, a, b, c);
  }

  /** Cutting a prefix of w at a and b splits its weight in three. */
  lemma WeightThreeParts(w: seq<Bit>, a: nat, b: nat, c: nat)
    requires a <= b <= c <= |w|
    ensures Weight(w[..c]) == Weight(w[..a]) + Weight(w[a..b]) + Weight(w[b..c])
  {
    WeightPrefix(w, a, c);
    WeightSplit(w, a, b, c);
  }

  /**
   * The total sum of the grid of a word is the parity of the word's first
   * R·C + R + C bits: the corner cell, whatever it holds, is not counted.
   */
  lemma TotalSumOfLayout(w: seq<Bit>, R: nat, C: nat)
    requires Area(R, C) + R + C <= |w| && 1 <= |w|
    ensures TotalSum(Layout(w, R, C)) == Parity(w[..Area(R, C) + R + C])
  {
    var grid := Layout(w, R, C);
    var n := Area(R, C);
    ScannedLayout(w, R, C, R);
    LayoutLastVisited(w, R, C);
    TotalSumOfRows(grid, w, R, n, n + R, n + R + C);
  }

  // ---------------------------------------------------------------------------
  // The encoded grid
  // ---------------------------------------------------------------------------

  /** Row i of the encoded grid is data row i and its parity; row R is the column parities and the corner. */
  lemma EncodedRow(data: seq<Bit>, R: nat, C: nat, i: nat)
    requires Area(R, C) <= |data| && i <= R
    ensures var grid, w := Layout(CodeWord(data, R, C), R, C), CodeWord(data, R, C);
      grid[i] == if i < R then RowBits(data, R, C, i) + [Parity(RowBits(data, R, C, i))]
                 else ColumnParities(data, R, C) + [w[|w| - 1]]
  {
    var w := CodeWord(data, R, C);
    if i < R {
      LayoutRow(w, R, C, i);
      CodeWordRowBits(data, R, C, i);
      CodeWordRedundant(data, R, C, i);
    } else {
      LayoutLastRow(w, R, C);
      var cols := ColumnParities(data, R, C);
      forall j | 0 <= j < C
        ensures w[Area(R, C) + R + j] == cols[j]
      {
        CodeWordRedundant(data, R, C, R + j);
      }
      assert w[Area(R, C) + R .. Area(R, C) + R + C] == cols;
    }
  }

  /** The first R·C bits of the code word are the data bits. */
  lemma CodeWordData(data: seq<Bit>, R: nat, C: nat, t: nat)
    requires Area(R, C) <= |data| && t < Area(R, C)
    ensures CodeWord(data, R, C)[t] == data[t]
  {
    assert CodeWord(data, R, C)[t] == data[..Area(R, C)][t];
  }

  /** The bits after them are the redundant bits. */
  lemma CodeWordRedundant(data: seq<Bit>, R: nat, C: nat, k: nat)
    requires Area(R, C) <= |data| && k <= R + C
    ensures CodeWord(data, R, C)[Area(R, C) + k] == Redundant(data, R, C)[k]
  {
  }

  /** Data row i of the code word is data row i. */
  lemma CodeWordRowBits(data: seq<Bit>, R: nat, C: nat, i: nat)
    requires Area(R, C) <= |data| && i < R
    ensures RowBits(CodeWord(data, R, C), R, C, i) == RowBits(data, R, C, i)
  {
    var w := CodeWord(data, R, C);
    var row, a := RowBits(w, R, C, i), Area(i, C);
    RowInside(i, R, C);
    forall j | 0 <= j < C
      ensures row[j] == RowBits(data, R, C, i)[j]
    {
      assert row[j] == w[a + j];
      CodeWordData(data, R, C, a + j);
    }
  }

  /** Data column j of the code word is data column j. */
  lemma CodeWordColumnBits(data: seq<Bit>, R: nat, C: nat, j: nat)
    requires Area(R, C) <= |data| && j < C
    ensures ColumnBits(CodeWord(data, R, C), R, C, j) == ColumnBits(data, R, C, j)
  {
    var w := CodeWord(data, R, C);
    var col := ColumnBits(w, R, C, j);
    forall i | 0 <= i < R
      ensures col[i] == ColumnBits(data, R, C, j)[i]
    {
      var p := Pos(R, C, i, j);
      assert col[i] == w[p];
      CodeWordData(data, R, C, p);
    }
  }

  /** Column j of the encoded grid is data column j and its parity; column C is the row parities and the corner. */
  lemma EncodedColumn(data: seq<Bit>, R: nat, C: nat, j: nat)
    requires Area(R, C) <= |data| && j <= C
    ensures var grid, w := Layout(CodeWord(data, R, C), R, C), CodeWord(data, R, C);
      Column(grid, j, R + 1) == if j < C then ColumnBits(data, R, C, j) + [Parity(ColumnBits(data, R, C, j))]
                                else RowParities(data, R, C) + [w[|w| - 1]]
  {
    if j < C {
      EncodedDataColumn(data, R, C, j);
    } else {
      EncodedParityColumn(data, R, C);
    }
  }

  /** A data column of the encoded grid: the data column and its parity. */
  lemma EncodedDataColumn(data: seq<Bit>, R: nat, C: nat, j: nat)
    requires Area(R, C) <= |data| && j < C
    ensures Column(Layout(CodeWord(data, R, C), R, C), j, R + 1) == ColumnBits(data, R, C, j) + [Parity(ColumnBits(data, R, C, j))]
  {
    var w := CodeWord(data, R, C);
    LayoutColumn(w, R, C, j);
    CodeWordColumnBits(data, R, C, j);
    CodeWordRedundant(data, R, C, R + j);
    var sides := RowParities(data, R, C) + ColumnParities(data, R, C);
    assert Redundant(data, R, C)[R + j] == sides[R + j] == ColumnParities(data, R, C)[j];
  }

  /** The last column of the encoded grid: the row parities and the corner. */
  lemma EncodedParityColumn(data: seq<Bit>, R: nat, C: nat)
    requires Area(R, C) <= |data|
    ensures var w := CodeWord(data, R, C);
      Column(Layout(w, R, C), C, R + 1) == RowParities(data, R, C) + [w[|w| - 1]]
  {
    var w := CodeWord(data, R, C);
    LayoutColumn(w, R, C, C);
    var rows := RowParities(data, R, C);
    forall i | 0 <= i < R
      ensures w[Area(R, C) + i] == rows[i]
    {
      CodeWordRedundant(data, R, C, i);
    }
    assert w[Area(R, C) .. Area(R, C) + R] == rows;
  }

  /** Cell (i, j) of the encoded grid is data bit i·C + j. */
  lemma EncodedData(data: seq<Bit>, R: nat, C: nat, i: nat, j: nat)
    requires Area(R, C) <= |data| && i < R && j < C
    ensures Layout(CodeWord(data, R, C), R, C)[i][j] == data[Pos(R, C, i, j)]
  {
  }

  /** Every row of the encoded grid, the parity row included, has even weight. */
  lemma EncodedRowsEven(data: seq<Bit>, R: nat, C: nat, i: nat)
    requires Area(R, C) <= |data| && i <= R
    ensures Parity(Layout(CodeWord(data, R, C), R, C)[i]) == 0
  {
    EncodedRow(data, R, C, i);
    if i < R {
      ParityAppendOwn(RowBits(data, R, C, i));
    } else {
      CornerIsDataParity(data, R, C);
      ParityAppendOwn(ColumnParities(data, R, C));
    }
  }

  /** Every column of the encoded grid, the parity column included, has even weight. */
  lemma EncodedColumnsEven(data: seq<Bit>, R: nat, C: nat, j: nat)
    requires Area(R, C) <= |data| && j <= C
    ensures Parity(Column(Layout(CodeWord(data, R, C), R, C), j, R + 1)) == 0
  {
    EncodedColumn(data, R, C, j);
    if j < C {
      ParityAppendOwn(ColumnBits(data, R, C, j));
    } else {
      CornerIsDataParity(data, R, C);
      ParityAppendOwn(RowParities(data, R, C));
    }
  }

  /** The corner of the encoded grid is the parity of all its other cells, and of the data alone. */
  lemma EncodedCorner(data: seq<Bit>, R: nat, C: nat)
    requires Area(R, C) <= |data|
    ensures var grid := Layout(CodeWord(data, R, C), R, C);
      grid[R][C] == TotalSum(grid) && grid[R][C] == Parity(data[..Area(R, C)])
  {
    var w := CodeWord(data, R, C);
    TotalSumOfLayout(w, R, C);
    assert w[..Area(R, C) + R + C] == data[..Area(R, C)] + (RowParities(data, R, C) + ColumnParities(data, R, C));
    CornerIsDataParity(data, R, C);
  }

  /** Re-encoding the data cut from an encoded grid restores the grid. */
  lemma ReencodeCut(data: seq<Bit>, R: nat, C: nat)
    requires Area(R, C) <= |data|
    ensures var grid := Layout(CodeWord(data, R, C), R, C);
      Layout(CodeWord(DataOf(Cut(grid, R, C), R, C), R, C), R, C) == grid
  {
    var w := CodeWord(data, R, C);
    var grid := Layout(w, R, C);
    DataOfCut(grid, R, C);
    DataOfLayout(w, R, C, R);
    assert w[..Area(R, C)] == data[..Area(R, C)];
    CodeWordPrefix(data, R, C);
  }

  /** The code word depends on the first R·C data bits only. */
  lemma CodeWordPrefix(data: seq<Bit>, R: nat, C: nat)
    requires Area(R, C) <= |data|
    ensures CodeWord(data[..Area(R, C)], R, C) == CodeWord(data, R, C)
  {
    var d := data[..Area(R, C)];
    RedundantOfPrefix(data, R, C);
    assert d[..Area(R, C)] == d;
  }

  /** The total sum looks at every cell but the corner: two grids that differ at most there have the same total sum. */
  lemma TotalSumIgnoresCorner(g: seq<seq<Bit>>, h: seq<seq<Bit>>, rows: nat, cols: nat)
    requires IsMatrix(g, rows, cols) && IsMatrix(h, rows, cols)
    requires forall i, j :: 0 <= i < rows && 0 <= j < cols && (i, j) != (rows - 1, cols - 1) ==> g[i][j] == h[i][j]
    ensures TotalSum(g) == TotalSum(h)
  {
    ScannedAgree(g, h, rows, cols, rows);
  }

  /** Two grids that agree on the cells the total sum visits agree on every scanned prefix. */
  lemma {:induction false} ScannedAgree(g: seq<seq<Bit>>, h: seq<seq<Bit>>, rows: nat, cols: nat, r: nat)
    requires IsMatrix(g, rows, cols) && IsMatrix(h, rows, cols) && r <= rows
    requires forall i, j :: 0 <= i < rows && 0 <= j < cols && (i, j) != (rows - 1, cols - 1) ==> g[i][j] == h[i][j]
    ensures Scanned(g, r) == Scanned(h, r)
  {
    if r > 0 {
      ScannedAgree(g, h, rows, cols, r - 1);
      var q := r - 1;
      forall j | 0 <= j < RowEnd(g, q)
        ensures g[q][j] == h[q][j]
      {
      }
      assert g[q][..RowEnd(g, q)] == h[q][..RowEnd(h, q)];
    }
  }

  // ---------------------------------------------------------------------------
  // The encoder
  // ---------------------------------------------------------------------------

  /** The parity of every cell of the matrix except the last cell of the last row. */
  method CalculateTotalSum(matrix: seq<seq<Bit>>) returns (totalSum: Bit)
    requires WideRows(matrix)
    ensures totalSum == TotalSum(matrix)
  {
    var sum: nat := 0;
    for i := 0 to |matrix|
      invariant sum == Weight(Scanned(matrix, i))
    {
      var j := 0;
      assert Scanned(matrix, i) + matrix[i][..j] == Scanned(matrix, i);
      while j < |matrix[0]|
        invariant j <= RowEnd(matrix, i)
        invariant sum == Weight(Scanned(matrix, i) + matrix[i][..j])
      {
        if i == |matrix| - 1 && j == |matrix[0]| - 1 {
          break;
        }
        assert Scanned(matrix, i) + matrix[i][..j + 1] == (Scanned(matrix, i) + matrix[i][..j]) + [matrix[i][j]];
        WeightSnoc(Scanned(matrix, i) + matrix[i][..j], matrix[i][j]);
        sum := sum + matrix[i][j];
        j := j + 1;
      }
      assert j == RowEnd(matrix, i);
    }
    totalSum := sum % 2;
  }

  /**
   * The encoded grid of the first R·C message bits: the bits row by row, each
   * row's parity in column C, each column's parity in row R, and the total
   * sum in the corner.
   */
  method BuildMatrix(message: seq<Bit>, numberOfRows: nat, numberOfColumns: nat) returns (matrix: seq<seq<Bit>>)
    requires Area(numberOfRows, numberOfColumns) <= |message|
    ensures matrix == Layout(CodeWord(message, numberOfRows, numberOfColumns), numberOfRows, numberOfColumns)
  {
    var R, C := numberOfRows, numberOfColumns;
    var m := new Bit[R + 1, C + 1]((_, _) => 0);
    FillRows(m, message, R, C);
    FilledArray(m, message, R, C);
    ghost var before := ToRows(m);
    var corner := CalculateTotalSum(ToRows(m));
    m[R, C] := corner;
    matrix := ToRows(m);
    CornerSet(before, matrix, message, R, C);
  }

  /** The encoder's grid before the corner is set: data rows, their parities and the column parities. */
  ghost predicate Filled(rows: seq<seq<Bit>>, message: seq<Bit>, R: nat, C: nat)
    requires Area(R, C) <= |message|
  {
    IsMatrix(rows, R + 1, C + 1) &&
    (forall a, b :: 0 <= a < R && 0 <= b < C ==> rows[a][b] == RowBits(message, R, C, a)[b]) &&
    (forall a :: 0 <= a < R ==> rows[a][C] == Parity(RowBits(message, R, C, a))) &&
    (forall b :: 0 <= b < C ==> rows[R][b] == ColumnParities(message, R, C)[b])
  }

  /** What FillRows leaves in the array is a filled grid. */
  lemma FilledArray(m: array2<Bit>, message: seq<Bit>, R: nat, C: nat)
    requires m.Length0 == R + 1 && m.Length1 == C + 1 && Area(R, C) <= |message|
    requires forall a, b :: 0 <= a < R && 0 <= b < C ==> m[a, b] == RowBits(message, R, C, a)[b]
    requires forall a :: 0 <= a < R ==> m[a, C] == Parity(RowBits(message, R, C, a))
    requires forall b :: 0 <= b < C ==> m[R, b] == ColumnParities(message, R, C)[b]
    ensures Filled(ToRows(m), message, R, C)
  {
  }

  /** Setting the corner of a filled grid to its total sum gives the encoded grid. */
  lemma CornerSet(before: seq<seq<Bit>>, after: seq<seq<Bit>>, message: seq<Bit>, R: nat, C: nat)
    requires Area(R, C) <= |message| && Filled(before, message, R, C) && IsMatrix(after, R + 1, C + 1)
    requires forall a, b :: 0 <= a <= R && 0 <= b <= C && (a, b) != (R, C) ==> after[a][b] == before[a][b]
    requires after[R][C] == TotalSum(before)
    ensures after == Layout(CodeWord(message, R, C), R, C)
  {
    var grid := Layout(CodeWord(message, R, C), R, C);
    EncodingCells(before, message, R, C);
    EncodedCorner(message, R, C);
    MatrixEqual(after, grid, R + 1, C + 1);
  }

  /** The encoder's loops: data rows and their parities, and the column parities in row R; the corner stays 0. */
  method FillRows(m: array2<Bit>, message: seq<Bit>, R: nat, C: nat)
    requires m.Length0 == R + 1 && m.Length1 == C + 1 && Area(R, C) <= |message|
    requires forall a, b :: 0 <= a <= R && 0 <= b <= C ==> m[a, b] == 0
    modifies m
    ensures forall a, b :: 0 <= a < R && 0 <= b < C ==> m[a, b] == RowBits(message, R, C, a)[b]
    ensures forall a :: 0 <= a < R ==> m[a, C] == Parity(RowBits(message, R, C, a))
    ensures forall b :: 0 <= b < C ==> m[R, b] == ColumnParities(message, R, C)[b]
    ensures m[R, C] == 0
  {
    for i := 0 to R
      invariant Area(i, C) <= Area(R, C)
      invariant forall a, b :: 0 <= a < i && 0 <= b < C ==> m[a, b] == RowBits(message, R, C, a)[b]
      invariant forall a :: 0 <= a < i ==> m[a, C] == Parity(RowBits(message, R, C, a))
      invariant forall a, b :: i <= a < R && 0 <= b <= C ==> m[a, b] == 0
      invariant forall b :: 0 <= b < C ==> m[R, b] == ColumnParities(message, i, C)[b]
      invariant m[R, C] == 0
    {
      RowInside(i + 1, R, C);
      ColumnParitiesNext(message, R, C, i);
      FillRow(m, RowBits(message, R, C, i), R, C, i);
    }
  }

  /** Adding data row i to the column parities of the rows above it. */
  lemma ColumnParitiesNext(data: seq<Bit>, R: nat, C: nat, i: nat)
    requires Area(R, C) <= |data| && i < R
    ensures Area(i + 1, C) <= |data|
    ensures forall b :: 0 <= b < C ==>
      ColumnParities(data, i + 1, C)[b] == XorBit(ColumnParities(data, i, C)[b], RowBits(data, R, C, i)[b])
  {
    RowInside(i + 1, R, C);
    ColumnParitiesStep(data, i + 1, C);
    assert RowBits(data, i + 1, C, i) == RowBits(data, R, C, i);
  }

  /**
   * A grid whose data rows carry the data and their parities, and whose row R
   * carries the column parities, is the encoded grid everywhere but in the
   * corner, and so has the encoded grid's total sum.
   */
  lemma EncodingCells(rows: seq<seq<Bit>>, message: seq<Bit>, R: nat, C: nat)
    requires Area(R, C) <= |message| && Filled(rows, message, R, C)
    ensures var grid := Layout(CodeWord(message, R, C), R, C);
      (forall a, b :: 0 <= a <= R && 0 <= b <= C && (a, b) != (R, C) ==> rows[a][b] == grid[a][b]) &&
      TotalSum(rows) == TotalSum(grid)
  {
    var grid := Layout(CodeWord(message, R, C), R, C);
    forall a, b | 0 <= a <= R && 0 <= b <= C && (a, b) != (R, C)
      ensures rows[a][b] == grid[a][b]
    {
      EncodedRow(message, R, C, a);
    }
    TotalSumIgnoresCorner(rows, grid, R + 1, C + 1);
  }

  /**
   * One pass of the encoder's inner loop over data row i (the message bits
   * from i·C on): copies the row into row i of the grid and toggles the row's
   * parity cell and each column's parity cell for every 1.
   */
  method FillRow(m: array2<Bit>, row: seq<Bit>, R: nat, C: nat, i: nat)
    requires m.Length0 == R + 1 && m.Length1 == C + 1 && i < R && |row| == C
    requires forall b :: 0 <= b <= C ==> m[i, b] == 0
    modifies m
    ensures forall x, b :: 0 <= x < R && x != i && 0 <= b <= C ==> m[x, b] == old(m[x, b])
    ensures forall b :: 0 <= b < C ==> m[i, b] == row[b]
    ensures m[i, C] == Parity(row)
    ensures forall b :: 0 <= b < C ==> m[R, b] == XorBit(old(m[R, b]), row[b])
    ensures m[R, C] == old(m[R, C])
  {
    for j := 0 to C
      invariant forall x, b :: 0 <= x < R && x != i && 0 <= b <= C ==> m[x, b] == old(m[x, b])
      invariant forall b :: 0 <= b < C ==> m[i, b] == if b < j then row[b] else 0
      invariant m[i, C] == Parity(row[..j])
      invariant forall b :: 0 <= b <= C ==> m[R, b] == if b < j then XorBit(old(m[R, b]), row[b]) else old(m[R, b])
    {
      assert row[..j + 1] == row[..j] + [row[j]];
      ParitySnoc(row[..j], row[j]);
      if row[j] == 1 {
        m[i, j] := 1;
        m[i, C] := XorBit(m[i, C], 1);
        m[R, j] := XorBit(m[R, j], 1);
      }
    }
    assert row[..C] == row;
  }

  /**
   * Re-encodes the data cells of a grid: the first C cells of its first R rows
   * go through the encoder's loops as the word DataOf(matrix, R, C).
   */
  method AddRedundantBytes(matrix: seq<seq<Bit>>, numberOfRows: nat, numberOfColumns: nat) returns (encoded: seq<seq<Bit>>)
    requires numberOfRows <= |matrix| && forall i :: 0 <= i < numberOfRows ==> numberOfColumns <= |matrix[i]|
    ensures encoded == Layout(CodeWord(DataOf(matrix, numberOfRows, numberOfColumns), numberOfRows, numberOfColumns), numberOfRows, numberOfColumns)
  {
    encoded := BuildMatrix(DataOf(matrix, numberOfRows, numberOfColumns), numberOfRows, numberOfColumns);
  }

  /** The first C cells (zero-padded) of each of the first R rows. */
  method GetMatrixWithoutRedundantBytes(matrix: seq<seq<Bit>>, numberOfRows: nat, numberOfColumns: nat) returns (cut: seq<seq<Bit>>)
    requires numberOfRows <= |matrix|
    ensures cut == Cut(matrix, numberOfRows, numberOfColumns)
  {
    cut := [];
    for i := 0 to numberOfRows
      invariant |cut| == i
      invariant forall a :: 0 <= a < i ==> cut[a] == PaddedPrefix(matrix[a], numberOfColumns)
    {
      cut := cut + [PaddedPrefix(matrix[i], numberOfColumns)];
    }
  }

  /** Copying data row i over the zeros after the first i data rows. */
  lemma MessageRowStep(matrix: seq<seq<Bit>>, R: nat, C: nat, i: nat, n: nat, before: seq<Bit>, after: seq<Bit>)
    requires R <= |matrix| && forall x :: 0 <= x < R ==> C <= |matrix[x]|
    requires i < R && Area(i, C) + C <= n
    requires before == DataOf(matrix, i, C) + Zeros(n - Area(i, C))
    requires after == before[..Area(i, C)] + matrix[i][0..C] + before[Area(i, C) + C..]
    ensures Area(i + 1, C) <= n && after == DataOf(matrix, i + 1, C) + Zeros(n - Area(i + 1, C))
  {
    AreaStep(i, C);
    OverwriteZeros(DataOf(matrix, i, C), matrix[i][..C], n);
    assert matrix[i][0..C] == matrix[i][..C];
  }

  /**
   * The flat message of a grid: the data cells row by row, then the
   * redundant cells, in an array of |matrix| · |matrix[0]| bits.
   */
  method ConvertMatrixToMessage(matrix: seq<seq<Bit>>, numberOfRows: nat, numberOfColumns: nat) returns (message: seq<Bit>)
    requires numberOfRows < |matrix| && forall i :: 0 <= i <= numberOfRows ==> numberOfColumns < |matrix[i]|
    ensures message == Flat(matrix, numberOfRows, numberOfColumns)
  {
    var R, C := numberOfRows, numberOfColumns;
    GridSize(matrix, R, C);
    var n := |matrix| * |matrix[0]|;
    var out := new Bit[n](_ => 0);
    assert out[..] == DataOf(matrix, 0, C) + Zeros(n);
    for i := 0 to R
      invariant Area(i, C) <= Area(R, C)
      invariant out[..] == DataOf(matrix, i, C) + Zeros(n - Area(i, C))
    {
      CopyDataRow(matrix, R, C, i, out);
    }
    message := CopyRedundantCells(matrix, R, C, out);
  }

  /** The tail of the flattening: the redundant cells go behind the data rows. */
  method CopyRedundantCells(matrix: seq<seq<Bit>>, R: nat, C: nat, out: array<Bit>) returns (message: seq<Bit>)
    requires R < |matrix| && forall x :: 0 <= x <= R ==> C < |matrix[x]|
    requires out.Length == |matrix| * |matrix[0]| && Area(R, C) + R + C + 1 <= out.Length
    requires out[..] == DataOf(matrix, R, C) + Zeros(out.Length - Area(R, C))
    modifies out
    ensures message == Flat(matrix, R, C)
  {
    var red := GetRedundantBytesFromMatrix(matrix, R, C);
    ghost var before := out[..];
    ArrayCopy(red, 0, out, Area(R, C), |red|);
    message := out[..];
    MessageRedundantStep(matrix, R, C, before, red, message);
  }

  /** The inner loop of the flattening: data row i goes behind the rows above it. */
  method CopyDataRow(matrix: seq<seq<Bit>>, R: nat, C: nat, i: nat, out: array<Bit>)
    requires R <= |matrix| && forall x :: 0 <= x < R ==> C <= |matrix[x]|
    requires i < R && Area(R, C) <= out.Length
    requires out[..] == DataOf(matrix, i, C) + Zeros(out.Length - Area(i, C))
    modifies out
    ensures Area(i + 1, C) <= Area(R, C)
    ensures out[..] == DataOf(matrix, i + 1, C) + Zeros(out.Length - Area(i + 1, C))
  {
    RowInside(i, R, C);
    RowInside(i + 1, R, C);
    ghost var before := out[..];
    ArrayCopy(matrix[i], 0, out, Area(i, C), C);
    MessageRowStep(matrix, R, C, i, out.Length, before, out[..]);
  }

  /** Copying the redundant cells over the zeros after the data rows completes the flat message. */
  lemma MessageRedundantStep(matrix: seq<seq<Bit>>, R: nat, C: nat, before: seq<Bit>, red: seq<Bit>, after: seq<Bit>)
    requires R < |matrix| && forall x :: 0 <= x <= R ==> C < |matrix[x]|
    requires Area(R, C) + R + C + 1 <= |matrix| * |matrix[0]|
    requires before == DataOf(matrix, R, C) + Zeros(|matrix| * |matrix[0]| - Area(R, C))
    requires red == RedundantOf(matrix, R, C)
    requires after == before[..Area(R, C)] + red[0..|red|] + before[Area(R, C) + |red|..]
    ensures after == Flat(matrix, R, C)
  {
    OverwriteZeros(DataOf(matrix, R, C), red, |matrix| * |matrix[0]|);
    assert red[0..|red|] == red;
  }

  /**
   * Copies the bits w[a..a + C] into row i of the grid, as System.arraycopy
   * into matrix[i] does; every other row is unchanged.
   */
  method CopyRow(w: seq<Bit>, a: nat, m: array2<Bit>, i: nat, C: nat)
    requires a + C <= |w| && i < m.Length0 && C <= m.Length1
    modifies m
    ensures forall x, b :: 0 <= x < m.Length0 && x != i && 0 <= b < m.Length1 ==> m[x, b] == old(m[x, b])
    ensures forall b :: 0 <= b < C ==> m[i, b] == w[a + b]
    ensures forall b :: C <= b < m.Length1 ==> m[i, b] == old(m[i, b])
  {
    for j := 0 to C
      invariant forall x, b :: 0 <= x < m.Length0 && x != i && 0 <= b < m.Length1 ==> m[x, b] == old(m[x, b])
      invariant forall b :: 0 <= b < j ==> m[i, b] == w[a + b]
      invariant forall b :: j <= b < m.Length1 ==> m[i, b] == old(m[i, b])
    {
      m[i, j] := w[a + j];
    }
  }

  /**
   * A grid whose cells hold the row-major data bits, the row parities in
   * column C, the column parities in row R and the last bit in the corner,
   * as read from the word, is the word's layout.
   */
  lemma LayoutCells(rows: seq<seq<Bit>>, w: seq<Bit>, R: nat, C: nat)
    requires Area(R, C) + R + C <= |w| && 1 <= |w| && IsMatrix(rows, R + 1, C + 1)
    requires forall a, b :: 0 <= a < R && 0 <= b < C ==> rows[a][b] == RowBits(w, R, C, a)[b]
    requires forall a :: 0 <= a < R ==> rows[a][C] == w[Area(R, C) + a]
    requires forall b :: 0 <= b < C ==> rows[R][b] == w[Area(R, C) + R + b]
    requires rows[R][C] == w[|w| - 1]
    ensures rows == Layout(w, R, C)
  {
    var grid := Layout(w, R, C);
    forall a, b | 0 <= a <= R && 0 <= b <= C
      ensures rows[a][b] == grid[a][b]
    {
      if a < R {
        LayoutRow(w, R, C, a);
      } else {
        LayoutLastRow(w, R, C);
      }
    }
    MatrixEqual(rows, grid, R + 1, C + 1);
  }

  /** The grid of a received word: data rows, then the row, column and total redundant bits. */
  method ConvertMessageToMatrix(messageWithRedundantBytes: seq<Bit>, numberOfRows: nat, numberOfColumns: nat) returns (matrix: seq<seq<Bit>>)
    requires Area(numberOfRows, numberOfColumns) + numberOfRows + numberOfColumns <= |messageWithRedundantBytes|
    requires 1 <= |messageWithRedundantBytes|
    ensures matrix == Layout(messageWithRedundantBytes, numberOfRows, numberOfColumns)
  {
    var w, R, C := messageWithRedundantBytes, numberOfRows, numberOfColumns;
    var m := new Bit[R + 1, C + 1]((_, _) => 0);
    ghost var done: seq<seq<Bit>> := [];
    for i := 0 to R
      invariant |done| == i
      invariant forall a :: 0 <= a < i ==> done[a] == RowBits(w, R, C, a)
      invariant forall a, b :: 0 <= a < i && 0 <= b < C ==> m[a, b] == done[a][b]
    {
      RowInside(i, R, C);
      ghost var row := RowBits(w, R, C, i);
      assert row == w[Area(i, C) .. Area(i, C) + C];
      CopyRow(w, Area(i, C), m, i, C);
      done := done + [row];
    }
    CopyRedundant(w, Area(R, C), m, R, C);
    matrix := ToRows(m);
    LayoutCells(matrix, w, R, C);
  }

  /**
   * Copies the redundant bits of a word, which start at n = R·C, into column C
   * of the data rows, row R and the corner; the data cells are unchanged.
   */
  method CopyRedundant(w: seq<Bit>, n: nat, m: array2<Bit>, R: nat, C: nat)
    requires n + R + C <= |w| && 1 <= |w| && m.Length0 == R + 1 && m.Length1 == C + 1
    modifies m
    ensures forall a, b :: 0 <= a < R && 0 <= b < C ==> m[a, b] == old(m[a, b])
    ensures forall a :: 0 <= a < R ==> m[a, C] == w[n + a]
    ensures forall b :: 0 <= b < C ==> m[R, b] == w[n + R + b]
    ensures m[R, C] == w[|w| - 1]
  {
    for i := 0 to R
      invariant forall a, b :: 0 <= a < R && 0 <= b < C ==> m[a, b] == old(m[a, b])
      invariant forall a :: 0 <= a < i ==> m[a, C] == w[n + a]
    {
      m[i, C] := w[n + i];
    }
    for j := 0 to C
      invariant forall a, b :: 0 <= a < R && 0 <= b < C ==> m[a, b] == old(m[a, b])
      invariant forall a :: 0 <= a < R ==> m[a, C] == w[n + a]
      invariant forall b :: 0 <= b < j ==> m[R, b] == w[n + R + b]
    {
      m[R, j] := w[n + R + j];
    }
    m[R, C] := w[|w| - 1];
  }

  /** The redundant cells of a grid: column C of the data rows, then row R, the corner last. */
  method GetRedundantBytesFromMatrix(matrix: seq<seq<Bit>>, numberOfRows: nat, numberOfColumns: nat) returns (redundantBytes: seq<Bit>)
    requires numberOfRows < |matrix| && forall i :: 0 <= i <= numberOfRows ==> numberOfColumns < |matrix[i]|
    ensures redundantBytes == RedundantOf(matrix, numberOfRows, numberOfColumns)
  {
    var R, C := numberOfRows, numberOfColumns;
    var red := new Bit[R + C + 1](_ => 0);
    for i := 0 to R
      invariant forall a :: 0 <= a < i ==> red[a] == matrix[a][C]
    {
      red[i] := matrix[i][C];
    }
    ArrayCopy(matrix[R], 0, red, R, C);
    red[R + C] := matrix[R][C];
    assert red[..] == seq(R, i requires 0 <= i < R => matrix[i][C]) + matrix[R][..C] + [matrix[R][C]];
    redundantBytes := red[..];
  }

  /** The R + C + 1 bits of a word that follow its R·C data bits. */
  method GetRedundantBytesFromMessage(messageWithRedundantBytes: seq<Bit>, numberOfRows: nat, numberOfColumns: nat) returns (redundantBytes: seq<Bit>)
    requires Area(numberOfRows, numberOfColumns) + numberOfRows + numberOfColumns + 1 <= |messageWithRedundantBytes|
    ensures var n := Area(numberOfRows, numberOfColumns);
      |redundantBytes| == numberOfRows + numberOfColumns + 1 &&
      messageWithRedundantBytes[..n] + redundantBytes == messageWithRedundantBytes[..n + |redundantBytes|]
  {
    var R, C := numberOfRows, numberOfColumns;
    var red := new Bit[R + C + 1](_ => 0);
    ArrayCopy(messageWithRedundantBytes, Area(R, C), red, 0, red.Length);
    redundantBytes := red[..];
  }

  /** The first R·C bits of a word, zero-padded when the word is shorter. */
  method GetMessageWithoutRedundantBytes(messageWithRedundantBytes: seq<Bit>, numberOfRows: nat, numberOfColumns: nat) returns (data: seq<Bit>)
    ensures |data| == Area(numberOfRows, numberOfColumns)
    ensures forall t :: 0 <= t < |data| ==> data[t] == if t < |messageWithRedundantBytes| then messageWithRedundantBytes[t] else 0
  {
    data := PaddedPrefix(messageWithRedundantBytes, Area(numberOfRows, numberOfColumns));
  }

  /** The redundant bits the encoder computes for the first R·C bits of `data`. */
  method CalculateRedundantBytes(data: seq<Bit>, numberOfRows: nat, numberOfColumns: nat) returns (redundantBytes: seq<Bit>)
    requires Area(numberOfRows, numberOfColumns) <= |data|
    ensures redundantBytes == Redundant(data, numberOfRows, numberOfColumns)
  {
    var R, C := numberOfRows, numberOfColumns;
    var matrix := BuildMatrix(data, R, C);
    redundantBytes := GetRedundantBytesFromMatrix(matrix, R, C);
    RedundantOfCodeWord(data, R, C);
  }

  /** The redundant cells of an encoded grid are the encoder's redundant bits. */
  lemma RedundantOfCodeWord(data: seq<Bit>, R: nat, C: nat)
    requires Area(R, C) <= |data|
    ensures RedundantOf(Layout(CodeWord(data, R, C), R, C), R, C) == Redundant(data, R, C)
  {
    var w, n, red := CodeWord(data, R, C), Area(R, C), Redundant(data, R, C);
    RedundantOfLayout(w, R, C);
    assert w[n .. n + R + C] == red[..R + C];
    assert w[|w| - 1] == red[R + C];
  }

  // ---------------------------------------------------------------------------
  // The decoder
  // ---------------------------------------------------------------------------

  /**
   * The syndrome of a received word: its received redundant bits XOR the
   * recomputed ones, except that the last bit compares the recomputed total
   * sum with the total sum of the received word's own grid.
   */
  method GetSyndrome(redundantBytes: seq<Bit>, calculatedRedundantBytes: seq<Bit>, message: seq<Bit>,
                     numberOfRows: nat, numberOfColumns: nat) returns (syndrome: seq<Bit>)
    requires 1 <= |redundantBytes| <= |calculatedRedundantBytes|
    requires Area(numberOfRows, numberOfColumns) + numberOfRows + numberOfColumns <= |message| && 1 <= |message|
    ensures |syndrome| == |redundantBytes|
    ensures forall k :: 0 <= k < |syndrome| - 1 ==> syndrome[k] == XorBit(redundantBytes[k], calculatedRedundantBytes[k])
    ensures syndrome[|syndrome| - 1] ==
      XorBit(TotalSum(Layout(message, numberOfRows, numberOfColumns)), calculatedRedundantBytes[|calculatedRedundantBytes| - 1])
  {
    var s := new Bit[|redundantBytes|](_ => 0);
    for i := 0 to s.Length
      invariant forall k :: 0 <= k < i ==> s[k] == XorBit(redundantBytes[k], calculatedRedundantBytes[k])
    {
      s[i] := XorBit(redundantBytes[i], calculatedRedundantBytes[i]);
    }
    var grid := ConvertMessageToMatrix(message, numberOfRows, numberOfColumns);
    var total := CalculateTotalSum(grid);
    s[s.Length - 1] := XorBit(total, calculatedRedundantBytes[|calculatedRedundantBytes| - 1]);
    syndrome := s[..];
  }

  /** The recovery bit of cell (i, j): set when both row i and column j of the syndrome are set. */
  function RecoveryBit(s: seq<Bit>, R: nat, i: nat, j: nat): Bit {
    if i < |s| && s[i] == 1 && R + j < |s| && s[R + j] == 1 then 1 else 0
  }

  /** The R × C grid of recovery bits. */
  function RecoveryGrid(s: seq<Bit>, R: nat, C: nat): (g: seq<seq<Bit>>)
    ensures IsMatrix(g, R, C)
    ensures forall i, j :: 0 <= i < R && 0 <= j < C ==> g[i][j] == RecoveryBit(s, R, i, j)
  {
    seq(R, i requires 0 <= i < R => seq(C, j requires 0 <= j < C => RecoveryBit(s, R, i, j)))
  }

  /** The recovery bits of every data cell, row by row. */
  function Recovery(s: seq<Bit>, R: nat, C: nat): (rec: seq<Bit>)
    ensures |rec| == Area(R, C)
  {
    DataOf(RecoveryGrid(s, R, C), R, C)
  }

  /** The recovery bit of data cell (i, j) sits at position i·C + j. */
  lemma RecoveryAt(s: seq<Bit>, R: nat, C: nat, i: nat, j: nat)
    requires i < R && j < C
    ensures Recovery(s, R, C)[Area(i, C) + j] == RecoveryBit(s, R, i, j)
  {
    DataOfAt(RecoveryGrid(s, R, C), R, C, i, j);
  }

  /**
   * The recovery bits for a syndrome: none, and a request to resend, when the
   * last syndrome bit is set; otherwise a 1 exactly at the data cells whose
   * row and column syndrome bits are both set.
   */
  method GetRecoveryBytes(syndrome: seq<Bit>, numberOfRows: nat, numberOfColumns: nat) returns (recoveryBytes: seq<Bit>)
    requires 1 <= |syndrome|
    requires syndrome[|syndrome| - 1] == 0 && 0 < numberOfColumns ==>
      numberOfRows <= |syndrome| &&
      forall i :: 0 <= i < numberOfRows && syndrome[i] == 1 ==> numberOfRows + numberOfColumns <= |syndrome|
    ensures recoveryBytes == if syndrome[|syndrome| - 1] == 1 then [] else Recovery(syndrome, numberOfRows, numberOfColumns)
  {
    var R, C := numberOfRows, numberOfColumns;
    if syndrome[|syndrome| - 1] == 1 {
      return [];
    }
    ghost var rec := Recovery(syndrome, R, C);
    var out := new Bit[Area(R, C)](_ => 0);
    for i := 0 to R
      invariant Area(i, C) <= Area(R, C)
      invariant forall t :: 0 <= t < out.Length ==> out[t] == if t < Area(i, C) then rec[t] else 0
    {
      RowInside(i, R, C);
      var a := Area(i, C);
      for j := 0 to C
        invariant forall t :: 0 <= t < out.Length ==> out[t] == if t < a + j then rec[t] else 0
      {
        RecoveryAt(syndrome, R, C, i, j);
        if syndrome[i] == 1 && syndrome[R + j] == 1 {
          out[a + j] := 1;
        }
      }
      AreaStep(i, C);
    }
    recoveryBytes := out[..];
  }

  /**
   * The received bits XOR the recovery bits, as many as there are recovery
   * bits; positions past the end of the received word stay 0.
   */
  function Restore(message: seq<Bit>, recoveryBytes: seq<Bit>): (r: seq<Bit>)
    ensures |r| == |recoveryBytes|
    ensures |recoveryBytes| <= |message| ==> r == Xor(message[..|recoveryBytes|], recoveryBytes)
  {
    seq(|recoveryBytes|, i requires 0 <= i < |recoveryBytes| =>
      if i < |message| then XorBit(message[i], recoveryBytes[i]) else 0)
  }

  /** Applies the recovery bits to the received word. */
  method RecoverMessage(message: seq<Bit>, recoveryBytes: seq<Bit>) returns (recovered: seq<Bit>)
    ensures recovered == Restore(message, recoveryBytes)
  {
    var out := new Bit[|recoveryBytes|](_ => 0);
    var i := 0;
    while i < |recoveryBytes| && i < |message|
      invariant i <= |recoveryBytes| && i <= |message|
      invariant forall t :: 0 <= t < out.Length ==> out[t] == if t < i then XorBit(message[t], recoveryBytes[t]) else 0
    {
      out[i] := XorBit(message[i], recoveryBytes[i]);
      i := i + 1;
    }
    recovered := out[..];
  }
}
