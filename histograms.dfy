/** The per-cell orientation histogram: numpy's histogram of the gradient
    directions of one cell over [-pi, pi] in eight equal bins, each pixel
    weighted by its gradient magnitude. */
module Histograms {
  import opened Grids

  /** numpy's pi, taken as an exact real. */
  const Pi: real := 3.141592653589793
  const Bins: nat := 8
  const BinWidth: real := 2.0 * Pi / 8.0

  /** The histogram's range is closed at both ends. */
  predicate InRange(d: real)
  {
    -Pi <= d <= Pi
  }

  /** Lower edge of bin k. */
  function Edge(k: int): real
  {
    -Pi + (k as real) * BinWidth
  }

  /** The bin a direction falls into: bins are half-open [Edge(k), Edge(k+1))
      except the last, which also takes pi itself. */
  function BinOf(d: real): (k: int)
    requires InRange(d)
    ensures 0 <= k < Bins
    ensures Edge(k) <= d
    ensures d < Edge(k + 1) || (k == Bins - 1 && d == Pi)
  {
    if d == Pi then Bins - 1 else ((d + Pi) / BinWidth).Floor
  }

  /** Total magnitude of the pixels whose direction falls into bin k;
      pixels with a direction outside the range are ignored. */
  function BinWeight(mag: seq<real>, dir: seq<real>, k: int): real
    requires |mag| == |dir|
  {
    if |mag| == 0 then 0.0
    else
      var n := |mag| - 1;
      BinWeight(mag[.. n], dir[.. n], k) + (if InRange(dir[n]) && BinOf(dir[n]) == k then mag[n] else 0.0)
  }

  /** Total magnitude of the pixels whose direction is in range. */
  function InRangeWeight(mag: seq<real>, dir: seq<real>): real
    requires |mag| == |dir|
  {
    if |mag| == 0 then 0.0
    else
      var n := |mag| - 1;
      InRangeWeight(mag[.. n], dir[.. n]) + (if InRange(dir[n]) then mag[n] else 0.0)
  }

  /** d lies in the interval of bin k: [Edge(k), Edge(k+1)), with the last
      interval also closed at pi. */
  predicate InBin(d: real, k: int)
  {
    InRange(d) && Edge(k) <= d && (d < Edge(k + 1) || (k == Bins - 1 && d == Pi))
  }

  /** The magnitudes of the pixels whose direction lies in bin k's interval,
      with 0 for every other pixel. */
  function BinMagnitudes(mag: seq<real>, dir: seq<real>, k: int): (m: seq<real>)
    requires |mag| == |dir|
    ensures |m| == |mag|
    ensures forall p :: 0 <= p < |mag| ==> m[p] == if InBin(dir[p], k) then mag[p] else 0.0
  {
    seq(|mag|, p requires 0 <= p < |mag| => if InBin(dir[p], k) then mag[p] else 0.0)
  }

  /** _make_histogram on a flattened cell: bin k holds the total magnitude
      of the pixels whose direction lies in bin k's interval. */
  function MakeHistogram(mag: seq<real>, dir: seq<real>): (h: seq<real>)
    requires |mag| == |dir|
    ensures |h| == Bins
    ensures forall k :: 0 <= k < Bins ==> h[k] == Sum(BinMagnitudes(mag, dir, k))
  {
    BinWeightIsIntervalSum(mag, dir);
    seq(Bins, k => BinWeight(mag, dir, k))
  }

  /** BinWeight, which bins through BinOf, sums exactly the magnitudes whose
      direction lies in the bin's interval. */
  lemma {:induction false} BinWeightIsIntervalSum(mag: seq<real>, dir: seq<real>)
    requires |mag| == |dir|
    ensures forall k :: 0 <= k < Bins ==> BinWeight(mag, dir, k) == Sum(BinMagnitudes(mag, dir, k))
  {
    if |mag| > 0 {
      var n := |mag| - 1;
      BinWeightIsIntervalSum(mag[.. n], dir[.. n]);
      forall k | 0 <= k < Bins
        ensures BinWeight(mag, dir, k) == Sum(BinMagnitudes(mag, dir, k))
      {
        var m := BinMagnitudes(mag, dir, k);
        assert m[.. n] == BinMagnitudes(mag[.. n], dir[.. n], k);
        if InRange(dir[n]) && Edge(k) <= dir[n] && (dir[n] < Edge(k + 1) || (k == Bins - 1 && dir[n] == Pi)) {
          BinOfIsTheContainingBin(dir[n], k);
        }
      }
    }
  }

  /** Each in-range pixel lands in exactly one bin, so the bins hold the whole
      in-range magnitude. */
  lemma {:induction false} HistogramConservesWeight(mag: seq<real>, dir: seq<real>)
    requires |mag| == |dir|
    ensures Sum(MakeHistogram(mag, dir)) == InRangeWeight(mag, dir)
  {
    if |mag| == 0 {
      SumSingleton(MakeHistogram(mag, dir), -1, 0.0);
    } else {
      var n := |mag| - 1;
      HistogramConservesWeight(mag[.. n], dir[.. n]);
      var inRange := InRange(dir[n]);
      var bin := if inRange then BinOf(dir[n]) else -1;
      var step := seq(Bins, k => if k == bin then mag[n] else 0.0);
      SumPointwise(MakeHistogram(mag, dir), MakeHistogram(mag[.. n], dir[.. n]), step);
      SumSingleton(step, bin, mag[n]);
    }
  }

  /** When every direction is in [-pi, pi] (as arctan2 guarantees) the bins sum
      to the cell's total magnitude. */
  lemma {:induction false} HistogramSumsMagnitudes(mag: seq<real>, dir: seq<real>)
    requires |mag| == |dir|
    requires forall i :: 0 <= i < |dir| ==> InRange(dir[i])
    ensures Sum(MakeHistogram(mag, dir)) == Sum(mag)
  {
    HistogramConservesWeight(mag, dir);
    InRangeIsAll(mag, dir);
  }

  lemma {:induction false} InRangeIsAll(mag: seq<real>, dir: seq<real>)
    requires |mag| == |dir|
    requires forall i :: 0 <= i < |dir| ==> InRange(dir[i])
    ensures InRangeWeight(mag, dir) == Sum(mag)
  {
    if |mag| > 0 {
      InRangeIsAll(mag[.. |mag| - 1], dir[.. |dir| - 1]);
    }
  }

  /** Non-negative magnitudes give non-negative bins. */
  lemma {:induction false} BinWeightNonNegative(mag: seq<real>, dir: seq<real>, k: int)
    requires |mag| == |dir|
    requires forall i :: 0 <= i < |mag| ==> mag[i] >= 0.0
    ensures BinWeight(mag, dir, k) >= 0.0
  {
    if |mag| > 0 {
      BinWeightNonNegative(mag[.. |mag| - 1], dir[.. |dir| - 1], k);
    }
  }

  /** The bin rule singles out one bin: a direction lying in the interval of
      bin k (the last interval closed at pi) is put into bin k. */
  lemma BinOfIsTheContainingBin(d: real, k: int)
    requires InRange(d) && 0 <= k < Bins
    requires Edge(k) <= d
    requires d < Edge(k + 1) || (k == Bins - 1 && d == Pi)
    ensures BinOf(d) == k
  {
  }
}
