/** get_features: one 128-entry SIFT-like descriptor per interest point (16
    cell histograms of 8 bins), then normalisation of the whole matrix by its
    global maximum, clipping at 0.2 and renormalisation. */
module Descriptors {
  import opened Grids
  import opened Patches
  import opened Cells
  import opened Histograms

  const CellCount: nat := 16
  const DescriptorLength: nat := 128
  const ClipLevel: real := 0.2

  /** What the source assumes of its arguments: a feature width that is a
      positive multiple of 4 and an image at least that large. */
  predicate ValidGeometry(rows: nat, cols: nat, featureWidth: nat)
  {
    featureWidth >= 4 && featureWidth % 4 == 0 && featureWidth <= rows && featureWidth <= cols
  }

  /** Histogram of cell k of a feature_width x feature_width patch pair. */
  function CellHistogram(pm: Grid, pd: Grid, featureWidth: nat, k: nat): (h: seq<real>)
    requires featureWidth >= 4 && featureWidth % 4 == 0
    requires IsGrid(pm, featureWidth, featureWidth) && IsGrid(pd, featureWidth, featureWidth)
    requires k < CellCount
    ensures |h| == Bins
  {
    SixteenCells(featureWidth);
    var c := featureWidth / 4;
    var cm, cd := Cell(pm, featureWidth, featureWidth, c, k), Cell(pd, featureWidth, featureWidth, c, k);
    FlattenSameLength(cm, cd);
    MakeHistogram(Flatten(cm), Flatten(cd))
  }

  /** The histograms of the first n cells, concatenated. */
  function HistogramsUpTo(pm: Grid, pd: Grid, featureWidth: nat, n: nat): (v: seq<real>)
    requires featureWidth >= 4 && featureWidth % 4 == 0
    requires IsGrid(pm, featureWidth, featureWidth) && IsGrid(pd, featureWidth, featureWidth)
    requires n <= CellCount
    ensures |v| == Bins * n
  {
    if n == 0 then [] else HistogramsUpTo(pm, pd, featureWidth, n - 1) + CellHistogram(pm, pd, featureWidth, n - 1)
  }

  /** The descriptor of the point (x, y): the two feature_width patches of the
      gradient magnitude and direction grids, cut into 16 cells, one
      histogram per cell. */
  function Descriptor(mag: Grid, dir: Grid, rows: nat, cols: nat, featureWidth: nat, x: int, y: int): (d: seq<real>)
    requires IsGrid(mag, rows, cols) && IsGrid(dir, rows, cols) && ValidGeometry(rows, cols, featureWidth)
    ensures |d| == DescriptorLength
  {
    var w := featureWidth / 2;
    HistogramsUpTo(GetPatch(mag, rows, cols, x, y, w), GetPatch(dir, rows, cols, x, y, w), featureWidth, CellCount)
  }

  /** Layout of a descriptor: entry 8k + b is bin b of cell k, cells in
      row-major order. */
  lemma {:induction false} DescriptorLayout(pm: Grid, pd: Grid, featureWidth: nat, n: nat, k: nat, b: nat)
    requires featureWidth >= 4 && featureWidth % 4 == 0
    requires IsGrid(pm, featureWidth, featureWidth) && IsGrid(pd, featureWidth, featureWidth)
    requires n <= CellCount && k < n && b < Bins
    ensures HistogramsUpTo(pm, pd, featureWidth, n)[Bins * k + b] == CellHistogram(pm, pd, featureWidth, k)[b]
  {
    if k < n - 1 {
      DescriptorLayout(pm, pd, featureWidth, n - 1, k, b);
    }
  }

  /** Non-negative magnitudes give a non-negative descriptor. */
  lemma {:induction false} HistogramsNonNegative(pm: Grid, pd: Grid, featureWidth: nat, n: nat)
    requires featureWidth >= 4 && featureWidth % 4 == 0
    requires IsGrid(pm, featureWidth, featureWidth) && IsGrid(pd, featureWidth, featureWidth)
    requires NonNegative(pm)
    requires n <= CellCount
    ensures forall i :: 0 <= i < |HistogramsUpTo(pm, pd, featureWidth, n)| ==> HistogramsUpTo(pm, pd, featureWidth, n)[i] >= 0.0
  {
    if n > 0 {
      HistogramsNonNegative(pm, pd, featureWidth, n - 1);
      CellHistogramNonNegative(pm, pd, featureWidth, n - 1);
    }
  }

  lemma CellHistogramNonNegative(pm: Grid, pd: Grid, featureWidth: nat, k: nat)
    requires featureWidth >= 4 && featureWidth % 4 == 0
    requires IsGrid(pm, featureWidth, featureWidth) && IsGrid(pd, featureWidth, featureWidth)
    requires NonNegative(pm)
    requires k < CellCount
    ensures forall b :: 0 <= b < Bins ==> CellHistogram(pm, pd, featureWidth, k)[b] >= 0.0
  {
    SixteenCells(featureWidth);
    var c := featureWidth / 4;
    var cm, cd := Cell(pm, featureWidth, featureWidth, c, k), Cell(pd, featureWidth, featureWidth, c, k);
    CellNonNegative(pm, featureWidth, featureWidth, c, k);
    FlattenNonNegative(cm);
    FlattenSameLength(cm, cd);
    forall b | 0 <= b < Bins {
      BinWeightNonNegative(Flatten(cm), Flatten(cd), b);
    }
  }

  lemma DescriptorNonNegative(mag: Grid, dir: Grid, rows: nat, cols: nat, featureWidth: nat, x: int, y: int)
    requires IsGrid(mag, rows, cols) && IsGrid(dir, rows, cols) && ValidGeometry(rows, cols, featureWidth)
    requires NonNegative(mag)
    ensures forall i :: 0 <= i < DescriptorLength ==> Descriptor(mag, dir, rows, cols, featureWidth, x, y)[i] >= 0.0
  {
    var w := featureWidth / 2;
    var pm := GetPatch(mag, rows, cols, x, y, w);
    assert NonNegative(pm);
    HistogramsNonNegative(pm, GetPatch(dir, rows, cols, x, y, w), featureWidth, CellCount);
  }

  /** The body of the per-point loop of get_features: patches, cells, and the
      cell histograms appended one after another. */
  method PointDescriptor(mag: Grid, dir: Grid, rows: nat, cols: nat, featureWidth: nat, x: int, y: int)
    returns (featureVector: seq<real>)
    requires IsGrid(mag, rows, cols) && IsGrid(dir, rows, cols) && ValidGeometry(rows, cols, featureWidth)
    ensures featureVector == Descriptor(mag, dir, rows, cols, featureWidth, x, y)
  {
    var w := featureWidth / 2;
    var pm := GetPatch(mag, rows, cols, x, y, w);
    var pd := GetPatch(dir, rows, cols, x, y, w);
    var cellsMg, cellsDir := CutIntoCells(pm, pd, featureWidth);
    featureVector := [];
    var k := 0;
    while k < |cellsMg|
      invariant 0 <= k <= CellCount
      invariant featureVector == HistogramsUpTo(pm, pd, featureWidth, k)
    {
      HistogramsNext(pm, pd, featureWidth, k, cellsMg[k], cellsDir[k]);
      featureVector := featureVector + MakeHistogram(Flatten(cellsMg[k]), Flatten(cellsDir[k]));
      k := k + 1;
    }
  }

  /** _create_cells with cell side feature_width / 4 on a feature_width patch. */
  method CutIntoCells(pm: Grid, pd: Grid, featureWidth: nat) returns (cellsMg: seq<Grid>, cellsDir: seq<Grid>)
    requires featureWidth >= 4 && featureWidth % 4 == 0
    requires IsGrid(pm, featureWidth, featureWidth) && IsGrid(pd, featureWidth, featureWidth)
    ensures |cellsMg| == |cellsDir| == CellCount
    ensures forall k :: 0 <= k < CellCount ==>
      cellsMg[k] == Cell(pm, featureWidth, featureWidth, featureWidth / 4, k) &&
      cellsDir[k] == Cell(pd, featureWidth, featureWidth, featureWidth / 4, k)
  {
    SixteenCells(featureWidth);
    cellsMg, cellsDir := CreateCells(pm, pd, featureWidth, featureWidth, featureWidth / 4);
  }

  lemma HistogramsNext(pm: Grid, pd: Grid, featureWidth: nat, k: nat, cm: Grid, cd: Grid)
    requires featureWidth >= 4 && featureWidth % 4 == 0
    requires IsGrid(pm, featureWidth, featureWidth) && IsGrid(pd, featureWidth, featureWidth)
    requires k < CellCount
    requires cm == Cell(pm, featureWidth, featureWidth, featureWidth / 4, k)
    requires cd == Cell(pd, featureWidth, featureWidth, featureWidth / 4, k)
    ensures |Flatten(cm)| == |Flatten(cd)|
    ensures HistogramsUpTo(pm, pd, featureWidth, k + 1)
      == HistogramsUpTo(pm, pd, featureWidth, k) + MakeHistogram(Flatten(cm), Flatten(cd))
  {
    FlattenSameLength(cm, cd);
  }

  /** Number of points: zip(x, y) stops at the shorter sequence. */
  function PointCount(xs: seq<int>, ys: seq<int>): nat
  {
    if |xs| <= |ys| then |xs| else |ys|
  }

  /** The descriptor matrix before normalisation: row k for point k. */
  function RawFeatures(mag: Grid, dir: Grid, rows: nat, cols: nat, featureWidth: nat, xs: seq<int>, ys: seq<int>): (m: Grid)
    requires IsGrid(mag, rows, cols) && IsGrid(dir, rows, cols) && ValidGeometry(rows, cols, featureWidth)
    ensures IsGrid(m, PointCount(xs, ys), DescriptorLength)
    ensures forall k :: 0 <= k < PointCount(xs, ys) ==> m[k] == Descriptor(mag, dir, rows, cols, featureWidth, xs[k], ys[k])
  {
    seq(PointCount(xs, ys), k requires 0 <= k < PointCount(xs, ys) => Descriptor(mag, dir, rows, cols, featureWidth, xs[k], ys[k]))
  }

  /** m / s, entrywise. */
  function Scale(m: Grid, s: real): (r: Grid)
    requires s != 0.0
    ensures |r| == |m| && forall i :: 0 <= i < |m| ==> |r[i]| == |m[i]|
    ensures forall i, j :: 0 <= i < |m| && 0 <= j < |m[i]| ==> r[i][j] == m[i][j] / s
  {
    seq(|m|, i requires 0 <= i < |m| => seq(|m[i]|, j requires 0 <= j < |m[i]| => m[i][j] / s))
  }

  /** m with every entry above cap replaced by cap. */
  function Clip(m: Grid, cap: real): (r: Grid)
    ensures |r| == |m| && forall i :: 0 <= i < |m| ==> |r[i]| == |m[i]|
    ensures forall i, j :: 0 <= i < |m| && 0 <= j < |m[i]| ==> r[i][j] == if m[i][j] > cap then cap else m[i][j]
  {
    seq(|m|, i requires 0 <= i < |m| => seq(|m[i]|, j requires 0 <= j < |m[i]| => if m[i][j] > cap then cap else m[i][j]))
  }

  /** features / max, clipped at 0.2, divided by the new max. */
  function Normalize(m: Grid): (r: Grid)
    requires NonEmptyGrid(m) && NonNegative(m) && MaxEntry(m) > 0.0
  {
    var once := Scale(m, MaxEntry(m));
    var clipped := Clip(once, ClipLevel);
    ClippedMaximum(m);
    Scale(clipped, MaxEntry(clipped))
  }

  /** After the first division the largest entry is 1, so clipping at 0.2
      leaves a maximum of exactly 0.2. */
  lemma ClippedMaximum(m: Grid)
    requires NonEmptyGrid(m) && NonNegative(m) && MaxEntry(m) > 0.0
    ensures NonEmptyGrid(Clip(Scale(m, MaxEntry(m)), ClipLevel))
    ensures MaxEntry(Clip(Scale(m, MaxEntry(m)), ClipLevel)) == ClipLevel
  {
    var mx := MaxEntry(m);
    var once := Scale(m, mx);
    var clipped := Clip(once, ClipLevel);
    var i0, j0 :| 0 <= i0 < |m| && 0 <= j0 < |m[i0]| && m[i0][j0] == mx;
    RatioBounds(m[i0][j0], mx);
    assert once[i0][j0] == 1.0;
    assert clipped[i0][j0] == ClipLevel;
    MaxEntryIsUnique(clipped, ClipLevel, i0, j0);
  }

  lemma RatioBounds(v: real, mx: real)
    requires 0.0 <= v <= mx && mx > 0.0
    ensures 0.0 <= v / mx <= 1.0
    ensures v == mx ==> v / mx == 1.0
  {
    var t := v / mx;
    assert t * mx == v;
    assert (t - 1.0) * mx == v - mx;
    FactorSign(t, mx);
    FactorSign(t - 1.0, mx);
  }

  /** With b positive, a * b has the sign of a. */
  lemma FactorSign(a: real, b: real)
    requires b > 0.0
    ensures a * b >= 0.0 ==> a >= 0.0
    ensures a * b <= 0.0 ==> a <= 0.0
  {
    if a > 0.0 {
      PositiveProduct(a, b);
    } else if a < 0.0 {
      PositiveProduct(-a, b);
    }
  }

  lemma PositiveProduct(a: real, b: real)
    requires a > 0.0 && b > 0.0
    ensures a * b > 0.0
  {
  }

  /** Closed form of the normalisation: with t = v / max for the global
      maximum of the raw matrix, each entry becomes 1 if t > 0.2 and t / 0.2
      otherwise, so a single point's magnitude rescales every descriptor. */
  lemma NormalizeClosedForm(m: Grid, i: int, j: int)
    requires NonEmptyGrid(m) && NonNegative(m) && MaxEntry(m) > 0.0
    requires 0 <= i < |m| && 0 <= j < |m[i]|
    ensures |Normalize(m)| == |m| && |Normalize(m)[i]| == |m[i]|
    ensures var t := m[i][j] / MaxEntry(m);
      Normalize(m)[i][j] == if t > ClipLevel then 1.0 else t / ClipLevel
  {
    ClippedMaximum(m);
  }

  /** Every normalised entry lies in [0, 1] and the largest is 1. */
  lemma NormalizeRange(m: Grid)
    requires NonEmptyGrid(m) && NonNegative(m) && MaxEntry(m) > 0.0
    ensures |Normalize(m)| == |m| && forall i :: 0 <= i < |m| ==> |Normalize(m)[i]| == |m[i]|
    ensures forall i, j :: 0 <= i < |m| && 0 <= j < |m[i]| ==> 0.0 <= Normalize(m)[i][j] <= 1.0
    ensures MaxEntry(Normalize(m)) == 1.0
  {
    var mx := MaxEntry(m);
    var n := Normalize(m);
    ClippedMaximum(m);
    forall i, j | 0 <= i < |m| && 0 <= j < |m[i]| ensures 0.0 <= n[i][j] <= 1.0 {
      NormalizeClosedForm(m, i, j);
      RatioBounds(m[i][j], mx);
    }
    var i0, j0 :| 0 <= i0 < |m| && 0 <= j0 < |m[i0]| && m[i0][j0] == mx;
    NormalizeClosedForm(m, i0, j0);
    RatioBounds(m[i0][j0], mx);
    MaxEntryIsUnique(n, 1.0, i0, j0);
  }

  /** Every descriptor of the raw matrix is non-negative. */
  lemma RawFeaturesNonNegative(mag: Grid, dir: Grid, rows: nat, cols: nat, featureWidth: nat, xs: seq<int>, ys: seq<int>)
    requires IsGrid(mag, rows, cols) && IsGrid(dir, rows, cols) && ValidGeometry(rows, cols, featureWidth)
    requires NonNegative(mag)
    ensures NonNegative(RawFeatures(mag, dir, rows, cols, featureWidth, xs, ys))
  {
    var m := RawFeatures(mag, dir, rows, cols, featureWidth, xs, ys);
    forall k | 0 <= k < |m| ensures forall i :: 0 <= i < |m[k]| ==> m[k][i] >= 0.0 {
      DescriptorNonNegative(mag, dir, rows, cols, featureWidth, xs[k], ys[k]);
    }
  }

  /** How get_features ends: with the normalised matrix, with numpy's
      ValueError for max() of an empty array (no points), or with a matrix
      of NaNs when every descriptor entry is 0 (0 / 0). */
  datatype Outcome = Normalised | ZeroSizeArray | NaNEntries

  /** get_features on the gradient magnitude and direction grids: one
      descriptor row per point of zip(xs, ys), then division by the global
      maximum, clipping at 0.2 and division by the new maximum. The
      gradient step, the blur and the final power of 0.8 are not part of
      this method. */
  method GetFeatures(mag: Grid, dir: Grid, rows: nat, cols: nat, featureWidth: nat, xs: seq<int>, ys: seq<int>)
    returns (features: array2<real>, outcome: Outcome)
    requires IsGrid(mag, rows, cols) && IsGrid(dir, rows, cols) && ValidGeometry(rows, cols, featureWidth)
    requires NonNegative(mag)
    ensures fresh(features)
    ensures features.Length0 == PointCount(xs, ys) && features.Length1 == DescriptorLength
    ensures outcome == ZeroSizeArray <==> PointCount(xs, ys) == 0
    ensures outcome == NaNEntries <==>
      PointCount(xs, ys) > 0 && MaxEntry(RawFeatures(mag, dir, rows, cols, featureWidth, xs, ys)) == 0.0
    ensures outcome == Normalised ==>
      var raw := RawFeatures(mag, dir, rows, cols, featureWidth, xs, ys);
      NonEmptyGrid(raw) && NonNegative(raw) && MaxEntry(raw) > 0.0 &&
      forall i, j :: 0 <= i < features.Length0 && 0 <= j < features.Length1 ==>
        features[i, j] == Normalize(raw)[i][j]
  {
    ghost var raw := RawFeatures(mag, dir, rows, cols, featureWidth, xs, ys);
    var n := PointCount(xs, ys);
    var list := DescriptorRows(mag, dir, rows, cols, featureWidth, xs, ys);
    features := ToArray(list, n, DescriptorLength);
    if n == 0 {
      outcome := ZeroSizeArray;
      return;
    }
    RawFeaturesNonNegative(mag, dir, rows, cols, featureWidth, xs, ys);
    var scaler := MaxOf(features);
    MaxMatches(features, raw, scaler);
    if scaler == 0.0 {
      outcome := NaNEntries;
      return;
    }
    NormalizeInPlace(features, raw, scaler);
    outcome := Normalised;
  }

  /** The per-point loop of get_features: the list of descriptors, one per
      point of zip(xs, ys). */
  method DescriptorRows(mag: Grid, dir: Grid, rows: nat, cols: nat, featureWidth: nat, xs: seq<int>, ys: seq<int>)
    returns (list: Grid)
    requires IsGrid(mag, rows, cols) && IsGrid(dir, rows, cols) && ValidGeometry(rows, cols, featureWidth)
    ensures list == RawFeatures(mag, dir, rows, cols, featureWidth, xs, ys)
  {
    ghost var raw := RawFeatures(mag, dir, rows, cols, featureWidth, xs, ys);
    var n := PointCount(xs, ys);
    list := [];
    var k := 0;
    while k < n
      invariant 0 <= k <= n
      invariant list == raw[.. k]
    {
      var featureVector := PointDescriptor(mag, dir, rows, cols, featureWidth, xs[k], ys[k]);
      list := list + [featureVector];
      k := k + 1;
    }
  }

  /** The three normalisation statements of get_features on a matrix whose
      maximum is the positive scaler: afterwards it holds Normalize(raw). */
  method NormalizeInPlace(features: array2<real>, ghost raw: Grid, scaler: real)
    requires features.Length0 > 0 && features.Length1 > 0 && IsGrid(raw, features.Length0, features.Length1)
    requires forall i, j :: 0 <= i < features.Length0 && 0 <= j < features.Length1 ==> features[i, j] == raw[i][j]
    requires NonNegative(raw) && MaxEntry(raw) == scaler && scaler > 0.0
    modifies features
    ensures forall i, j :: 0 <= i < features.Length0 && 0 <= j < features.Length1 ==>
      features[i, j] == Normalize(raw)[i][j]
  {
    DivideAll(features, scaler);
    ghost var once := Scale(raw, scaler);
    ClipAll(features, ClipLevel);
    ghost var clipped := Clip(once, ClipLevel);
    assert forall i, j :: 0 <= i < features.Length0 && 0 <= j < features.Length1 ==> features[i, j] == clipped[i][j];
    var newScaler := MaxOf(features);
    MaxMatches(features, clipped, newScaler);
    ClippedMaximum(raw);
    DivideAll(features, newScaler);
  }

  /** np.array of a list of equal-length rows. */
  method ToArray(g: Grid, rows: nat, cols: nat) returns (a: array2<real>)
    requires IsGrid(g, rows, cols)
    ensures fresh(a) && a.Length0 == rows && a.Length1 == cols
    ensures forall i, j :: 0 <= i < rows && 0 <= j < cols ==> a[i, j] == g[i][j]
  {
    a := new real[rows, cols];
    var i := 0;
    while i < rows
      invariant 0 <= i <= rows
      invariant forall r, c :: 0 <= r < i && 0 <= c < cols ==> a[r, c] == g[r][c]
    {
      var j := 0;
      while j < cols
        invariant 0 <= j <= cols
        invariant forall r, c :: 0 <= r < i && 0 <= c < cols ==> a[r, c] == g[r][c]
        invariant forall c :: 0 <= c < j ==> a[i, c] == g[i][c]
      {
        a[i, j] := g[i][j];
        j := j + 1;
      }
      i := i + 1;
    }
  }

  /** numpy's max() over a non-empty 2-D array: an upper bound of every
      entry that some entry attains. */
  method MaxOf(a: array2<real>) returns (mx: real)
    requires a.Length0 > 0 && a.Length1 > 0
    ensures forall i, j :: 0 <= i < a.Length0 && 0 <= j < a.Length1 ==> a[i, j] <= mx
    ensures exists i, j :: 0 <= i < a.Length0 && 0 <= j < a.Length1 && a[i, j] == mx
  {
    mx := a[0, 0];
    ghost var bi, bj := 0, 0;
    var i := 0;
    while i < a.Length0
      invariant 0 <= i <= a.Length0
      invariant 0 <= bi < a.Length0 && 0 <= bj < a.Length1 && a[bi, bj] == mx
      invariant forall r, c :: 0 <= r < i && 0 <= c < a.Length1 ==> a[r, c] <= mx
    {
      var j := 0;
      while j < a.Length1
        invariant 0 <= j <= a.Length1
        invariant 0 <= bi < a.Length0 && 0 <= bj < a.Length1 && a[bi, bj] == mx
        invariant forall r, c :: 0 <= r < i && 0 <= c < a.Length1 ==> a[r, c] <= mx
        invariant forall c :: 0 <= c < j ==> a[i, c] <= mx
      {
        if a[i, j] > mx {
          mx := a[i, j];
          bi, bj := i, j;
        }
        j := j + 1;
      }
      i := i + 1;
    }
  }

  /** The maximum of an array holding a grid is the grid's MaxEntry. */
  lemma MaxMatches(a: array2<real>, g: Grid, mx: real)
    requires a.Length0 > 0 && a.Length1 > 0 && IsGrid(g, a.Length0, a.Length1)
    requires forall i, j :: 0 <= i < a.Length0 && 0 <= j < a.Length1 ==> a[i, j] == g[i][j]
    requires forall i, j :: 0 <= i < a.Length0 && 0 <= j < a.Length1 ==> a[i, j] <= mx
    requires exists i, j :: 0 <= i < a.Length0 && 0 <= j < a.Length1 && a[i, j] == mx
    ensures NonEmptyGrid(g) && MaxEntry(g) == mx
  {
    var i0, j0 :| 0 <= i0 < a.Length0 && 0 <= j0 < a.Length1 && a[i0, j0] == mx;
    MaxEntryIsUnique(g, mx, i0, j0);
  }

  /** features = features / scaler. */
  method DivideAll(a: array2<real>, s: real)
    requires s != 0.0
    modifies a
    ensures forall i, j :: 0 <= i < a.Length0 && 0 <= j < a.Length1 ==> a[i, j] == old(a[i, j]) / s
  {
    var i := 0;
    while i < a.Length0
      invariant 0 <= i <= a.Length0
      invariant forall r, c :: 0 <= r < i && 0 <= c < a.Length1 ==> a[r, c] == old(a[r, c]) / s
      invariant forall r, c :: i <= r < a.Length0 && 0 <= c < a.Length1 ==> a[r, c] == old(a[r, c])
    {
      var j := 0;
      while j < a.Length1
        invariant 0 <= j <= a.Length1
        invariant forall r, c :: 0 <= r < i && 0 <= c < a.Length1 ==> a[r, c] == old(a[r, c]) / s
        invariant forall c :: 0 <= c < j ==> a[i, c] == old(a[i, c]) / s
        invariant forall r, c :: i <= r < a.Length0 && 0 <= c < a.Length1 && (r > i || c >= j) ==> a[r, c] == old(a[r, c])
      {
        a[i, j] := a[i, j] / s;
        j := j + 1;
      }
      i := i + 1;
    }
  }

  /** features[features > cap] = cap. */
  method ClipAll(a: array2<real>, cap: real)
    modifies a
    ensures forall i, j :: 0 <= i < a.Length0 && 0 <= j < a.Length1 ==>
      a[i, j] == if old(a[i, j]) > cap then cap else old(a[i, j])
  {
    var i := 0;
    while i < a.Length0
      invariant 0 <= i <= a.Length0
      invariant forall r, c :: 0 <= r < i && 0 <= c < a.Length1 ==>
        a[r, c] == if old(a[r, c]) > cap then cap else old(a[r, c])
      invariant forall r, c :: i <= r < a.Length0 && 0 <= c < a.Length1 ==> a[r, c] == old(a[r, c])
    {
      var j := 0;
      while j < a.Length1
        invariant 0 <= j <= a.Length1
        invariant forall r, c :: 0 <= r < i && 0 <= c < a.Length1 ==>
          a[r, c] == if old(a[r, c]) > cap then cap else old(a[r, c])
        invariant forall c :: 0 <= c < j ==> a[i, c] == if old(a[i, c]) > cap then cap else old(a[i, c])
        invariant forall r, c :: i <= r < a.Length0 && 0 <= c < a.Length1 && (r > i || c >= j) ==> a[r, c] == old(a[r, c])
      {
        if a[i, j] > cap {
          a[i, j] := cap;
        }
        j := j + 1;
      }
      i := i + 1;
    }
  }
}
