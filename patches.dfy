/** _get_patch: the square window around an interest point, shifted inward
    (never padded) where it would cross the image border. */
module Patches {
  import opened Grids

  /** Half-open row range [rowStart, rowEnd) and column range
      [colStart, colEnd) of a patch. */
  datatype Window = Window(rowStart: int, rowEnd: int, colStart: int, colEnd: int)

  /** Independent reference: v limited to [lo, hi]. */
  function Clamp(v: int, lo: int, hi: int): int
  {
    if v < lo then lo else if v > hi then hi else v
  }

  /** The window of _get_patch for the point (x, y) in an image of shape
      (rows, cols). The point sits at offset window - 1 of a 2*window range;
      a range starting before 0 is moved down, one ending past the border is
      moved up. When the image is at least 2*window wide in a dimension the
      range keeps its size, stays inside the image, contains the point if the
      point is inside the image, and is the unshifted range clamped into the
      image; when no shift is needed it starts at y - window + 1 (rows) and
      x - window + 1 (columns). */
  function PatchWindow(rows: int, cols: int, x: int, y: int, window: int): (w: Window)
    ensures 0 <= window && 2 * window <= rows ==>
      0 <= w.rowStart && w.rowEnd <= rows && w.rowEnd - w.rowStart == 2 * window
      && w.rowStart == Clamp(y - window + 1, 0, rows - 2 * window)
    ensures 0 <= window && 2 * window <= cols ==>
      0 <= w.colStart && w.colEnd <= cols && w.colEnd - w.colStart == 2 * window
      && w.colStart == Clamp(x - window + 1, 0, cols - 2 * window)
    ensures 0 <= y - window + 1 && y + window + 1 <= rows ==>
      w.rowStart == y - window + 1 && w.rowEnd == y + window + 1
    ensures 0 <= x - window + 1 && x + window + 1 <= cols ==>
      w.colStart == x - window + 1 && w.colEnd == x + window + 1
    ensures 1 <= window && 2 * window <= rows && 0 <= y < rows ==> w.rowStart <= y < w.rowEnd
    ensures 1 <= window && 2 * window <= cols && 0 <= x < cols ==> w.colStart <= x < w.colEnd
  {
    // featureLoc[1] (y) selects rows, featureLoc[0] (x) columns
    var rowStart, rowEnd := y - window + 1, y + window + 1;
    var colStart, colEnd := x - window + 1, x + window + 1;
    var (rowStart, rowEnd) := if rowStart < 0 then (0, rowEnd - rowStart) else (rowStart, rowEnd);
    var (colStart, colEnd) := if colStart < 0 then (0, colEnd - colStart) else (colStart, colEnd);
    var (rowStart, rowEnd) := if rowEnd > rows then (rowStart + rows - rowEnd, rows) else (rowStart, rowEnd);
    var (colStart, colEnd) := if colEnd > cols then (colStart + cols - colEnd, cols) else (colStart, colEnd);
    Window(rowStart, rowEnd, colStart, colEnd)
  }

  /** img[rowStart : rowEnd, colStart : colEnd] for the window above: a
      2*window square whose entry (i, j) is the image pixel at the clamped
      offsets. */
  function GetPatch(img: Grid, rows: nat, cols: nat, x: int, y: int, window: nat): (p: Grid)
    requires IsGrid(img, rows, cols)
    requires 2 * window <= rows && 2 * window <= cols
    ensures IsGrid(p, 2 * window, 2 * window)
    ensures forall i, j :: 0 <= i < 2 * window && 0 <= j < 2 * window ==>
      p[i][j] == img[Clamp(y - window + 1, 0, rows - 2 * window) + i][Clamp(x - window + 1, 0, cols - 2 * window) + j]
  {
    var w := PatchWindow(rows, cols, x, y, window);
    SubGrid(img, w.rowStart, w.colStart, w.rowEnd - w.rowStart, w.colEnd - w.colStart)
  }
}
