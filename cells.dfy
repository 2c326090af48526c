/** _create_cells: tiling a patch into square cells, row-major. */
module Cells {
  import opened Grids

  lemma MulNonNeg(a: int, b: int)
    requires a >= 0 && b >= 0
    ensures a * b >= 0
  {
  }

  lemma MulMonotone(a: int, b: int, c: int)
    requires a <= b && c >= 0
    ensures a * c <= b * c
  {
    MulNonNeg(b - a, c);
    assert (b - a) * c == b * c - a * c;
  }

  /** Euclidean division recovers the block and the offset. */
  lemma DivModOfBlock(bi: int, bj: int, m: int)
    requires m > 0 && 0 <= bj < m
    ensures (bi * m + bj) / m == bi && (bi * m + bj) % m == bj
  {
    var n := bi * m + bj;
    var d, r := n / m, n % m;
    assert n == d * m + r && 0 <= r < m;
    assert (bi - d) * m == r - bj;
    if bi - d >= 1 {
      MulMonotone(1, bi - d, m);
      assert false;
    }
    if bi - d <= -1 {
      MulMonotone(bi - d, -1, m);
      assert false;
    }
  }

  lemma BlockFits(b: int, q: int, c: int)
    requires b < q && c >= 0
    ensures b * c + c <= q * c
  {
    MulMonotone(b + 1, q, c);
  }

  /** The block of side c that contains v is block v div c. */
  lemma SameBlock(v: int, b: int, c: int)
    requires c > 0 && b * c <= v < b * c + c
    ensures b == v / c
  {
    DivModOfBlock(b, v - b * c, c);
  }

  /** Cell k of a rows x cols grid tiled by c x c cells lies inside the grid. */
  lemma CellBounds(rows: nat, cols: nat, c: nat, k: nat)
    requires c > 0 && rows % c == 0 && cols % c == 0 && k < (rows / c) * (cols / c)
    ensures 0 <= k / (cols / c) < rows / c && 0 <= k % (cols / c) < cols / c
    ensures (k / (cols / c)) * c + c <= rows && (k % (cols / c)) * c + c <= cols
  {
    var q, m := rows / c, cols / c;
    assert rows == q * c && cols == m * c;
    if m == 0 {
      assert false;
    }
    var b := k / m;
    assert k == b * m + k % m;
    if b >= q {
      MulMonotone(q, b, m);
      assert false;
    }
    BlockFits(b, q, c);
    BlockFits(k % m, m, c);
  }

  /** Cell k when the grid's cells are numbered row by row: rows
      (k div (cols/c)) * c .. + c and columns (k mod (cols/c)) * c .. + c. */
  function Cell(g: Grid, rows: nat, cols: nat, c: nat, k: nat): (cell: Grid)
    requires IsGrid(g, rows, cols)
    requires c > 0 && rows % c == 0 && cols % c == 0 && k < (rows / c) * (cols / c)
    ensures IsGrid(cell, c, c)
  {
    CellBounds(rows, cols, c, k);
    SubGrid(g, (k / (cols / c)) * c, (k % (cols / c)) * c, c, c)
  }

  lemma CellNonNegative(g: Grid, rows: nat, cols: nat, c: nat, k: nat)
    requires IsGrid(g, rows, cols) && NonNegative(g)
    requires c > 0 && rows % c == 0 && cols % c == 0 && k < (rows / c) * (cols / c)
    ensures NonNegative(Cell(g, rows, cols, c, k))
  {
    CellBounds(rows, cols, c, k);
    SubGridNonNegative(g, (k / (cols / c)) * c, (k % (cols / c)) * c, c, c);
  }

  /** _create_cells on a magnitude and a direction grid of the same shape.
      Row block i and column block j of the tiling are visited row-major, so
      the result lists (rows/c) * (cols/c) cells, cell k covering rows
      (k div (cols/c)) * c .. + c and columns (k mod (cols/c)) * c .. + c of
      either grid. */
  method CreateCells(mag: Grid, dir: Grid, rows: nat, cols: nat, c: nat)
    returns (cellsMag: seq<Grid>, cellsDir: seq<Grid>)
    requires IsGrid(mag, rows, cols) && IsGrid(dir, rows, cols)
    requires c > 0 && rows % c == 0 && cols % c == 0
    ensures |cellsMag| == |cellsDir| == (rows / c) * (cols / c)
    ensures forall k :: 0 <= k < |cellsMag| ==>
      cellsMag[k] == Cell(mag, rows, cols, c, k) && cellsDir[k] == Cell(dir, rows, cols, c, k)
  {
    var q, m := rows / c, cols / c;
    cellsMag, cellsDir := [], [];
    var bi := 0;
    while bi < q
      invariant 0 <= bi <= q
      invariant |cellsMag| == |cellsDir| == bi * m
      invariant CellPrefix(cellsMag, mag, rows, cols, c) && CellPrefix(cellsDir, dir, rows, cols, c)
    {
      var i := bi * c;
      var bj := 0;
      while bj < m
        invariant 0 <= bj <= m
        invariant |cellsMag| == |cellsDir| == bi * m + bj
        invariant CellPrefix(cellsMag, mag, rows, cols, c) && CellPrefix(cellsDir, dir, rows, cols, c)
      {
        var j := bj * c;
        ExtendCellPrefix(cellsMag, mag, rows, cols, c, bi, bj);
        ExtendCellPrefix(cellsDir, dir, rows, cols, c, bi, bj);
        cellsMag := cellsMag + [SubGrid(mag, i, j, c, c)];
        cellsDir := cellsDir + [SubGrid(dir, i, j, c, c)];
        bj := bj + 1;
      }
      assert bi * m + m == (bi + 1) * m;
      bi := bi + 1;
    }
    assert |cellsMag| == q * m;
  }

  /** cells lists the first |cells| cells of g, in row-major order. */
  predicate CellPrefix(cells: seq<Grid>, g: Grid, rows: nat, cols: nat, c: nat)
    requires IsGrid(g, rows, cols)
    requires c > 0 && rows % c == 0 && cols % c == 0
  {
    |cells| <= (rows / c) * (cols / c) &&
    forall k :: 0 <= k < |cells| ==> cells[k] == Cell(g, rows, cols, c, k)
  }

  /** Appending the cell of row block bi and column block bj to the first
      bi * (cols/c) + bj cells gives the next prefix. */
  lemma ExtendCellPrefix(cells: seq<Grid>, g: Grid, rows: nat, cols: nat, c: nat, bi: nat, bj: nat)
    requires IsGrid(g, rows, cols)
    requires c > 0 && rows % c == 0 && cols % c == 0
    requires bi < rows / c && bj < cols / c
    requires CellPrefix(cells, g, rows, cols, c) && |cells| == bi * (cols / c) + bj
    ensures bi * c + c <= rows && bj * c + c <= cols
    ensures CellPrefix(cells + [SubGrid(g, bi * c, bj * c, c, c)], g, rows, cols, c)
  {
    NextCell(g, rows, cols, c, bi, bj);
  }

  /** Block (bi, bj) of the tiling lies inside the grid and is numbered
      bi * (cols/c) + bj, from which division recovers bi and bj. */
  lemma BlockIndex(rows: nat, cols: nat, c: nat, bi: nat, bj: nat)
    requires c > 0 && rows % c == 0 && cols % c == 0
    requires bi < rows / c && bj < cols / c
    ensures bi * c + c <= rows && bj * c + c <= cols
    ensures bi * (cols / c) + bj < (rows / c) * (cols / c)
    ensures (bi * (cols / c) + bj) / (cols / c) == bi && (bi * (cols / c) + bj) % (cols / c) == bj
  {
    var q, m := rows / c, cols / c;
    assert rows == q * c && cols == m * c;
    BlockFits(bi, q, c);
    BlockFits(bj, m, c);
    BlockFits(bi, q, m);
    DivModOfBlock(bi, bj, m);
  }

  /** The cell in row block bi and column block bj is cell bi * (cols/c) + bj. */
  lemma NextCell(g: Grid, rows: nat, cols: nat, c: nat, bi: nat, bj: nat)
    requires IsGrid(g, rows, cols)
    requires c > 0 && rows % c == 0 && cols % c == 0
    requires bi < rows / c && bj < cols / c
    ensures bi * c + c <= rows && bj * c + c <= cols
    ensures bi * (cols / c) + bj < (rows / c) * (cols / c)
    ensures SubGrid(g, bi * c, bj * c, c, c) == Cell(g, rows, cols, c, bi * (cols / c) + bj)
  {
    var m := cols / c;
    var k := bi * m + bj;
    BlockIndex(rows, cols, c, bi, bj);
    assert Cell(g, rows, cols, c, k) == SubGrid(g, (k / m) * c, (k % m) * c, c, c);
  }

  /** A feature_width x feature_width patch cut into cells of side
      feature_width / 4 has 16 cells. */
  lemma SixteenCells(featureWidth: nat)
    requires featureWidth >= 4 && featureWidth % 4 == 0
    ensures featureWidth % (featureWidth / 4) == 0
    ensures (featureWidth / (featureWidth / 4)) * (featureWidth / (featureWidth / 4)) == 16
  {
    var c := featureWidth / 4;
    assert featureWidth == 4 * c;
    DivModOfBlock(4, 0, c);
  }

  /** Number of the cell holding pixel (i, j): (i div c) * (cols/c) + (j div c). */
  function CellIndexOf(cols: nat, c: nat, i: nat, j: nat): nat
    requires c > 0
  {
    MulNonNeg(i / c, cols / c);
    (i / c) * (cols / c) + j / c
  }

  /** The cells cover the grid: pixel (i, j) is entry (i mod c, j mod c) of
      cell (i div c) * (cols/c) + (j div c). */
  lemma CellOfPixel(g: Grid, rows: nat, cols: nat, c: nat, i: nat, j: nat)
    requires IsGrid(g, rows, cols)
    requires c > 0 && rows % c == 0 && cols % c == 0
    requires i < rows && j < cols
    ensures CellIndexOf(cols, c, i, j) < (rows / c) * (cols / c)
      && Cell(g, rows, cols, c, CellIndexOf(cols, c, i, j))[i % c][j % c] == g[i][j]
  {
    BlockOf(i, rows, c);
    BlockOf(j, cols, c);
    BlockIndex(rows, cols, c, i / c, j / c);
    CellEntry(g, rows, cols, c, i / c, j / c, i % c, j % c);
  }

  lemma CellEntry(g: Grid, rows: nat, cols: nat, c: nat, bi: nat, bj: nat, oi: nat, oj: nat)
    requires IsGrid(g, rows, cols)
    requires c > 0 && rows % c == 0 && cols % c == 0
    requires bi < rows / c && bj < cols / c && oi < c && oj < c
    requires bi * (cols / c) + bj < (rows / c) * (cols / c)
    requires bi * c + c <= rows && bj * c + c <= cols
    ensures Cell(g, rows, cols, c, bi * (cols / c) + bj)[oi][oj] == g[bi * c + oi][bj * c + oj]
  {
    NextCell(g, rows, cols, c, bi, bj);
    SubGridEntry(g, bi * c, bj * c, c, oi, oj);
  }

  lemma SubGridEntry(g: Grid, r0: nat, c0: nat, c: nat, oi: nat, oj: nat)
    requires r0 + c <= |g| && forall i :: r0 <= i < r0 + c ==> c0 + c <= |g[i]|
    requires oi < c && oj < c
    ensures SubGrid(g, r0, c0, c, c)[oi][oj] == g[r0 + oi][c0 + oj]
  {
  }

  /** The cells do not overlap: a cell whose rows and columns contain pixel
      (i, j) is cell (i div c) * (cols/c) + (j div c). */
  lemma NoOtherCell(rows: nat, cols: nat, c: nat, i: nat, j: nat)
    requires c > 0 && cols / c > 0
    ensures forall k ::
      (0 <= k < (rows / c) * (cols / c) &&
       (k / (cols / c)) * c <= i < (k / (cols / c)) * c + c &&
       (k % (cols / c)) * c <= j < (k % (cols / c)) * c + c) ==>
      k == CellIndexOf(cols, c, i, j)
  {
    forall k | 0 <= k < (rows / c) * (cols / c) &&
      (k / (cols / c)) * c <= i < (k / (cols / c)) * c + c &&
      (k % (cols / c)) * c <= j < (k % (cols / c)) * c + c
      ensures k == CellIndexOf(cols, c, i, j)
    {
      OnlyCell(cols, c, i, j, k);
    }
  }

  /** Index v < n lies in block v div c, one of the n / c blocks. */
  lemma BlockOf(v: nat, n: nat, c: nat)
    requires c > 0 && n % c == 0 && v < n
    ensures v / c < n / c && v == (v / c) * c + v % c
  {
    var q := n / c;
    assert n == q * c;
    if v / c >= q {
      MulMonotone(q, v / c, c);
      assert false;
    }
  }

  lemma OnlyCell(cols: nat, c: nat, i: nat, j: nat, k: nat)
    requires c > 0 && cols / c > 0
    requires (k / (cols / c)) * c <= i < (k / (cols / c)) * c + c
    requires (k % (cols / c)) * c <= j < (k % (cols / c)) * c + c
    ensures k == (i / c) * (cols / c) + j / c
  {
    var m := cols / c;
    SameBlock(i, k / m, c);
    SameBlock(j, k % m, c);
    assert k == (k / m) * m + k % m;
  }
}
