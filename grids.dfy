/** Dense real matrices as the pipeline's numpy arrays are used: row-major
    sequences of rows, sliced, flattened and summed. */
module Grids {

  /** A 2-D array of reals, indexed g[row][column]. */
  type Grid = seq<seq<real>>

  /** g has shape (rows, cols). */
  predicate IsGrid(g: Grid, rows: int, cols: int)
  {
    |g| == rows && forall i :: 0 <= i < |g| ==> |g[i]| == cols
  }

  /** Every entry of g is non-negative. */
  predicate NonNegative(g: Grid)
  {
    forall i, j :: 0 <= i < |g| && 0 <= j < |g[i]| ==> g[i][j] >= 0.0
  }

  /** The slice g[r0 : r0 + h, c0 : c0 + w]. */
  function SubGrid(g: Grid, r0: int, c0: int, h: nat, w: nat): (s: Grid)
    requires 0 <= r0 && r0 + h <= |g|
    requires 0 <= c0 && forall i :: r0 <= i < r0 + h ==> c0 + w <= |g[i]|
    ensures IsGrid(s, h, w)
    ensures forall i, j :: 0 <= i < h && 0 <= j < w ==> s[i][j] == g[r0 + i][c0 + j]
  {
    seq(h, i requires 0 <= i < h => g[r0 + i][c0 .. c0 + w])
  }

  /** Row-major flattening, numpy's reshape(-1). */
  function Flatten(g: Grid): (f: seq<real>)
  {
    if |g| == 0 then [] else Flatten(g[.. |g| - 1]) + g[|g| - 1]
  }

  /** Sum of the elements of a sequence. */
  function Sum(s: seq<real>): real
  {
    if |s| == 0 then 0.0 else Sum(s[.. |s| - 1]) + s[|s| - 1]
  }

  lemma {:induction false} FlattenNonNegative(g: Grid)
    requires NonNegative(g)
    ensures forall k :: 0 <= k < |Flatten(g)| ==> Flatten(g)[k] >= 0.0
  {
    if |g| > 0 {
      var front := g[.. |g| - 1];
      assert NonNegative(front) by {
        forall i, j | 0 <= i < |front| && 0 <= j < |front[i]| ensures front[i][j] >= 0.0 {
          assert front[i] == g[i];
        }
      }
      FlattenNonNegative(front);
    }
  }

  lemma {:induction false} SumNonNegative(s: seq<real>)
    requires forall k :: 0 <= k < |s| ==> s[k] >= 0.0
    ensures Sum(s) >= 0.0
  {
    if |s| > 0 {
      SumNonNegative(s[.. |s| - 1]);
    }
  }

  /** Sums of two sequences add up pointwise. */
  lemma {:induction false} SumPointwise(a: seq<real>, b: seq<real>, c: seq<real>)
    requires |a| == |b| == |c|
    requires forall k :: 0 <= k < |a| ==> a[k] == b[k] + c[k]
    ensures Sum(a) == Sum(b) + Sum(c)
  {
    if |a| > 0 {
      var n := |a| - 1;
      SumPointwise(a[.. n], b[.. n], c[.. n]);
    }
  }

  /** A sequence that is zero except at position k sums to its value at k. */
  lemma {:induction false} SumSingleton(c: seq<real>, k: int, v: real)
    requires forall j :: 0 <= j < |c| ==> c[j] == (if j == k then v else 0.0)
    ensures Sum(c) == if 0 <= k < |c| then v else 0.0
  {
    if |c| > 0 {
      SumSingleton(c[.. |c| - 1], k, v);
    }
  }

  /** Grids of the same shape flatten to sequences of the same length. */
  lemma {:induction false} FlattenSameLength(a: Grid, b: Grid)
    requires |a| == |b| && forall i :: 0 <= i < |a| ==> |a[i]| == |b[i]|
    ensures |Flatten(a)| == |Flatten(b)|
  {
    if |a| > 0 {
      FlattenSameLength(a[.. |a| - 1], b[.. |b| - 1]);
    }
  }

  /** A grid with at least one row, and no empty row. */
  predicate NonEmptyGrid(g: Grid)
  {
    |g| > 0 && forall i :: 0 <= i < |g| ==> |g[i]| > 0
  }

  /** Largest element of a non-empty sequence. */
  function Max(s: seq<real>): (r: real)
    requires |s| > 0
    ensures forall k :: 0 <= k < |s| ==> s[k] <= r
    ensures exists k :: 0 <= k < |s| && s[k] == r
  {
    if |s| == 1 then s[0]
    else
      var m := Max(s[.. |s| - 1]);
      assert forall k :: 0 <= k < |s| - 1 ==> s[.. |s| - 1][k] == s[k];
      if s[|s| - 1] > m then s[|s| - 1] else m
  }

  /** Largest entry of a grid, numpy's max() over the whole array. */
  function MaxEntry(g: Grid): (r: real)
    requires NonEmptyGrid(g)
    ensures forall i, j :: 0 <= i < |g| && 0 <= j < |g[i]| ==> g[i][j] <= r
    ensures exists i, j :: 0 <= i < |g| && 0 <= j < |g[i]| && g[i][j] == r
  {
    if |g| == 1 then Max(g[0])
    else
      var m := MaxEntry(g[.. |g| - 1]);
      var last := Max(g[|g| - 1]);
      assert forall i :: 0 <= i < |g| - 1 ==> g[.. |g| - 1][i] == g[i];
      if last > m then last else m
  }

  /** A bound that every entry respects and some entry attains is the maximum. */
  lemma MaxEntryIsUnique(g: Grid, v: real, i0: int, j0: int)
    requires NonEmptyGrid(g)
    requires forall i, j :: 0 <= i < |g| && 0 <= j < |g[i]| ==> g[i][j] <= v
    requires 0 <= i0 < |g| && 0 <= j0 < |g[i0]| && g[i0][j0] == v
    ensures MaxEntry(g) == v
  {
  }

  /** A slice of a non-negative grid is non-negative. */
  lemma SubGridNonNegative(g: Grid, r0: int, c0: int, h: nat, w: nat)
    requires 0 <= r0 && r0 + h <= |g|
    requires 0 <= c0 && forall i :: r0 <= i < r0 + h ==> c0 + w <= |g[i]|
    requires NonNegative(g)
    ensures NonNegative(SubGrid(g, r0, c0, h, w))
  {
    var s := SubGrid(g, r0, c0, h, w);
    forall i, j | 0 <= i < |s| && 0 <= j < |s[i]| ensures s[i][j] >= 0.0 {
      assert s[i][j] == g[r0 + i][c0 + j];
    }
  }
}
