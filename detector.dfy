/** get_interest_points: a Harris corner scan over the gradient products on a
    stride-2 grid that keeps feature_width away from every border, threshold
    acceptance, and a cap of 3500 points chosen by np.argsort. */
module Detector {
  import opened Grids
  import opened Ranking

  const Threshold: real := 0.05
  const HarrisK: real := 0.06
  const MaxPoints: nat := 3500

  /** The gradient products Ixx = Ix^2, Iyy = Iy^2 and Ixy = Ix * Iy of a
      rows x cols image, taken as given. */
  datatype Tensor = Tensor(rows: nat, cols: nat, ixx: Grid, iyy: Grid, ixy: Grid)
  {
    predicate Valid()
    {
      IsGrid(ixx, rows, cols) && IsGrid(iyy, rows, cols) && IsGrid(ixy, rows, cols)
    }
  }

  /** A recorded corner: its column x, its row y and its response r. */
  datatype Candidate = Candidate(x: int, y: int, r: real)

  /** np.sum(g[y-1 : y+1, x-1 : x+1]): the 2x2 window whose lower right pixel
      is (x, y). */
  function WindowSum(g: Grid, x: int, y: int): (s: real)
    requires 1 <= y < |g| && 1 <= x && x < |g[y - 1]| && x < |g[y]|
    ensures s == g[y - 1][x - 1] + g[y - 1][x] + g[y][x - 1] + g[y][x]
  {
    var w := SubGrid(g, y - 1, x - 1, 2, 2);
    assert w[.. 1] == [w[0]] && w[.. 1][.. 0] == [];
    assert Flatten(w[.. 1]) == w[0];
    assert Flatten(w) == w[0] + w[1];
    assert Flatten(w) == [w[0][0], w[0][1], w[1][0], w[1][1]];
    SumOfFour(w[0][0], w[0][1], w[1][0], w[1][1]);
    Sum(Flatten(w))
  }

  lemma SumOfFour(a: real, b: real, c: real, d: real)
    ensures Sum([a, b, c, d]) == a + b + c + d
  {
    assert [a, b, c, d][.. 3] == [a, b, c];
    assert [a, b, c][.. 2] == [a, b];
    assert [a, b][.. 1] == [a];
    assert [a][.. 0] == [];
    assert Sum([a]) == a;
    assert Sum([a, b]) == a + b;
    assert Sum([a, b, c]) == a + b + c;
  }

  /** Harris response det(H) - 0.06 trace(H)^2 of the window sums at (x, y). */
  function Response(t: Tensor, x: int, y: int): real
    requires t.Valid() && 1 <= y < t.rows && 1 <= x < t.cols
  {
    var sxx := WindowSum(t.ixx, x, y);
    var syy := WindowSum(t.iyy, x, y);
    var sxy := WindowSum(t.ixy, x, y);
    var detH := sxx * syy - sxy * sxy;
    var traceH := sxx + syy;
    detH - HarrisK * (traceH * traceH)
  }

  /** (x, y) is visited by the scan: range(fw, rows - fw, 2) for y and
      range(fw, cols - fw, 2) for x. */
  predicate OnScanGrid(t: Tensor, featureWidth: nat, x: int, y: int)
  {
    featureWidth <= y < t.rows - featureWidth && (y - featureWidth) % 2 == 0 &&
    featureWidth <= x < t.cols - featureWidth && (x - featureWidth) % 2 == 0
  }

  /** (x, y) is accepted: it is on the scan grid and its response exceeds
      the threshold. */
  predicate IsCorner(t: Tensor, featureWidth: nat, x: int, y: int)
    requires t.Valid() && featureWidth >= 1
  {
    OnScanGrid(t, featureWidth, x, y) && Response(t, x, y) > Threshold
  }

  /** Accepted candidates of row y from column x on, stepping by 2. */
  function RowCandidates(t: Tensor, featureWidth: nat, y: int, x: int): seq<Candidate>
    requires t.Valid() && featureWidth >= 1 && 1 <= y < t.rows && x >= 1
    decreases t.cols - x
  {
    if x >= t.cols - featureWidth then []
    else
      var r := Response(t, x, y);
      (if r > Threshold then [Candidate(x, y, r)] else []) + RowCandidates(t, featureWidth, y, x + 2)
  }

  /** Accepted candidates of the rows from y on, stepping by 2. */
  function ScanFrom(t: Tensor, featureWidth: nat, y: int): seq<Candidate>
    requires t.Valid() && featureWidth >= 1 && y >= 1
    decreases t.rows - y
  {
    if y >= t.rows - featureWidth then []
    else RowCandidates(t, featureWidth, y, featureWidth) + ScanFrom(t, featureWidth, y + 2)
  }

  /** The lists xs, ys, rs after the scan, as one sequence of candidates. */
  function Candidates(t: Tensor, featureWidth: nat): seq<Candidate>
    requires t.Valid() && featureWidth >= 1
  {
    ScanFrom(t, featureWidth, featureWidth)
  }

  function Xs(cs: seq<Candidate>): (v: seq<int>)
    ensures |v| == |cs| && forall k :: 0 <= k < |cs| ==> v[k] == cs[k].x
  {
    seq(|cs|, k requires 0 <= k < |cs| => cs[k].x)
  }

  function Ys(cs: seq<Candidate>): (v: seq<int>)
    ensures |v| == |cs| && forall k :: 0 <= k < |cs| ==> v[k] == cs[k].y
  {
    seq(|cs|, k requires 0 <= k < |cs| => cs[k].y)
  }

  function Rs(cs: seq<Candidate>): (v: seq<real>)
    ensures |v| == |cs| && forall k :: 0 <= k < |cs| ==> v[k] == cs[k].r
  {
    seq(|cs|, k requires 0 <= k < |cs| => cs[k].r)
  }

  /** The nested loops of get_interest_points: every visited (x, y) whose
      response exceeds the threshold is appended to xs, ys and rs. */
  method ScanCandidates(t: Tensor, featureWidth: nat) returns (xs: seq<int>, ys: seq<int>, rs: seq<real>)
    requires t.Valid() && featureWidth >= 1
    ensures xs == Xs(Candidates(t, featureWidth))
    ensures ys == Ys(Candidates(t, featureWidth))
    ensures rs == Rs(Candidates(t, featureWidth))
  {
    ghost var total := Candidates(t, featureWidth);
    ghost var done: seq<Candidate> := [];
    xs, ys, rs := [], [], [];
    var y := featureWidth;
    while y < t.rows - featureWidth
      invariant y >= featureWidth
      invariant done + ScanFrom(t, featureWidth, y) == total
      invariant xs == Xs(done) && ys == Ys(done) && rs == Rs(done)
      decreases t.rows - y
    {
      ghost var row := RowCandidates(t, featureWidth, y, featureWidth);
      AppendAssoc(done, row, ScanFrom(t, featureWidth, y + 2));
      xs, ys, rs := ScanRow(t, featureWidth, y, done, xs, ys, rs);
      done := done + row;
      y := y + 2;
    }
    assert done + [] == done;
  }

  /** The inner loop of get_interest_points over the columns of row y,
      appending to the lists built so far. */
  method ScanRow(t: Tensor, featureWidth: nat, y: int, ghost done: seq<Candidate>,
                 xs0: seq<int>, ys0: seq<int>, rs0: seq<real>) returns (xs: seq<int>, ys: seq<int>, rs: seq<real>)
    requires t.Valid() && featureWidth >= 1 && featureWidth <= y < t.rows - featureWidth
    requires xs0 == Xs(done) && ys0 == Ys(done) && rs0 == Rs(done)
    ensures xs == Xs(done + RowCandidates(t, featureWidth, y, featureWidth))
    ensures ys == Ys(done + RowCandidates(t, featureWidth, y, featureWidth))
    ensures rs == Rs(done + RowCandidates(t, featureWidth, y, featureWidth))
  {
    ghost var total := done + RowCandidates(t, featureWidth, y, featureWidth);
    ghost var acc := done;
    xs, ys, rs := xs0, ys0, rs0;
    var x := featureWidth;
    while x < t.cols - featureWidth
      invariant x >= featureWidth
      invariant acc + RowCandidates(t, featureWidth, y, x) == total
      invariant xs == Xs(acc) && ys == Ys(acc) && rs == Rs(acc)
      decreases t.cols - x
    {
      var r := Response(t, x, y);
      ghost var here := if r > Threshold then [Candidate(x, y, r)] else [];
      RowAdvance(t, featureWidth, y, x, r, acc, total);
      if r > Threshold {
        ProjectionsAppend(acc, Candidate(x, y, r));
        xs, ys, rs := xs + [x], ys + [y], rs + [r];
      }
      acc := acc + here;
      x := x + 2;
    }
    assert acc + [] == acc;
  }

  lemma AppendAssoc<T>(a: seq<T>, b: seq<T>, c: seq<T>)
    ensures a + (b + c) == (a + b) + c
  {
  }

  /** One step of a row: the candidate at (x, y), if any, then the rest. */
  lemma RowStep(t: Tensor, featureWidth: nat, y: int, x: int, r: real)
    requires t.Valid() && featureWidth >= 1 && 1 <= y < t.rows && x >= 1
    requires x < t.cols - featureWidth && r == Response(t, x, y)
    ensures RowCandidates(t, featureWidth, y, x)
      == (if r > Threshold then [Candidate(x, y, r)] else []) + RowCandidates(t, featureWidth, y, x + 2)
  {
  }

  /** The inner loop's invariant survives one step of x. */
  lemma RowAdvance(t: Tensor, featureWidth: nat, y: int, x: int, r: real, acc: seq<Candidate>, total: seq<Candidate>)
    requires t.Valid() && featureWidth >= 1 && 1 <= y < t.rows && x >= 1
    requires x < t.cols - featureWidth && r == Response(t, x, y)
    requires acc + RowCandidates(t, featureWidth, y, x) == total
    ensures (acc + (if r > Threshold then [Candidate(x, y, r)] else [])) + RowCandidates(t, featureWidth, y, x + 2) == total
  {
    var here := if r > Threshold then [Candidate(x, y, r)] else [];
    RowStep(t, featureWidth, y, x, r);
    AppendAssoc(acc, here, RowCandidates(t, featureWidth, y, x + 2));
  }

  lemma ProjectionsAppend(cs: seq<Candidate>, c: Candidate)
    ensures Xs(cs + [c]) == Xs(cs) + [c.x] && Ys(cs + [c]) == Ys(cs) + [c.y] && Rs(cs + [c]) == Rs(cs) + [c.r]
  {
  }

  /** v is reached from start by steps of 2. */
  predicate OnStride(v: int, start: int)
  {
    start <= v && (v - start) % 2 == 0
  }

  lemma StrideStep(v: int, start: int)
    ensures OnStride(v, start) <==> v == start || OnStride(v, start + 2)
  {
  }

  /** Membership in one row's candidates. */
  lemma {:induction false} RowMembers(t: Tensor, featureWidth: nat, y: int, x: int, c: Candidate)
    requires t.Valid() && featureWidth >= 1 && 1 <= y < t.rows && x >= 1
    ensures c in RowCandidates(t, featureWidth, y, x) <==>
      c.y == y && OnStride(c.x, x) && c.x < t.cols - featureWidth &&
      Response(t, c.x, y) > Threshold && c.r == Response(t, c.x, y)
    decreases t.cols - x
  {
    if x < t.cols - featureWidth {
      var r := Response(t, x, y);
      var here := if r > Threshold then [Candidate(x, y, r)] else [];
      var rest := RowCandidates(t, featureWidth, y, x + 2);
      assert RowCandidates(t, featureWidth, y, x) == here + rest;
      assert c in here + rest <==> c in here || c in rest;
      RowMembers(t, featureWidth, y, x + 2, c);
      StrideStep(c.x, x);
    }
  }

  /** Membership in the candidates of the rows from y on. */
  lemma {:induction false} ScanMembers(t: Tensor, featureWidth: nat, y: int, c: Candidate)
    requires t.Valid() && featureWidth >= 1 && y >= 1
    ensures c in ScanFrom(t, featureWidth, y) <==>
      OnStride(c.y, y) && c.y < t.rows - featureWidth &&
      OnStride(c.x, featureWidth) && c.x < t.cols - featureWidth &&
      Response(t, c.x, c.y) > Threshold && c.r == Response(t, c.x, c.y)
    decreases t.rows - y
  {
    if y < t.rows - featureWidth {
      var row, rest := RowCandidates(t, featureWidth, y, featureWidth), ScanFrom(t, featureWidth, y + 2);
      assert ScanFrom(t, featureWidth, y) == row + rest;
      assert c in row + rest <==> c in row || c in rest;
      RowMembers(t, featureWidth, y, featureWidth, c);
      ScanMembers(t, featureWidth, y + 2, c);
      StrideStep(c.y, y);
    }
  }

  /** The scan records exactly the corners: a candidate is recorded iff it is
      on the scan grid, its response exceeds 0.05, and it carries that
      response. */
  lemma CandidatesAreCorners(t: Tensor, featureWidth: nat, c: Candidate)
    requires t.Valid() && featureWidth >= 1
    ensures c in Candidates(t, featureWidth) <==>
      IsCorner(t, featureWidth, c.x, c.y) && c.r == Response(t, c.x, c.y)
  {
    ScanMembers(t, featureWidth, featureWidth, c);
  }

  /** Row-major scan order: a before b. */
  predicate Before(a: Candidate, b: Candidate)
  {
    a.y < b.y || (a.y == b.y && a.x < b.x)
  }

  predicate RowMajor(cs: seq<Candidate>)
  {
    forall k, l :: 0 <= k < l < |cs| ==> Before(cs[k], cs[l])
  }

  lemma {:induction false} RowCandidatesOrdered(t: Tensor, featureWidth: nat, y: int, x: int)
    requires t.Valid() && featureWidth >= 1 && 1 <= y < t.rows && x >= 1
    ensures RowMajor(RowCandidates(t, featureWidth, y, x))
    ensures forall k :: 0 <= k < |RowCandidates(t, featureWidth, y, x)| ==>
      RowCandidates(t, featureWidth, y, x)[k].y == y && RowCandidates(t, featureWidth, y, x)[k].x >= x
    decreases t.cols - x
  {
    if x < t.cols - featureWidth {
      RowCandidatesOrdered(t, featureWidth, y, x + 2);
    }
  }

  lemma {:induction false} ScanOrdered(t: Tensor, featureWidth: nat, y: int)
    requires t.Valid() && featureWidth >= 1 && y >= 1
    ensures RowMajor(ScanFrom(t, featureWidth, y))
    ensures forall k :: 0 <= k < |ScanFrom(t, featureWidth, y)| ==> ScanFrom(t, featureWidth, y)[k].y >= y
    decreases t.rows - y
  {
    if y < t.rows - featureWidth {
      RowCandidatesOrdered(t, featureWidth, y, featureWidth);
      ScanOrdered(t, featureWidth, y + 2);
    }
  }

  /** The candidates come in row-major order, so no point is recorded twice. */
  lemma CandidatesRowMajor(t: Tensor, featureWidth: nat)
    requires t.Valid() && featureWidth >= 1
    ensures RowMajor(Candidates(t, featureWidth))
  {
    ScanOrdered(t, featureWidth, featureWidth);
  }

  /** xs[indices]: numpy fancy indexing. */
  function Gather<T>(v: seq<T>, indices: seq<int>): (r: seq<T>)
    requires forall k :: 0 <= k < |indices| ==> 0 <= indices[k] < |v|
    ensures |r| == |indices| && forall k :: 0 <= k < |indices| ==> r[k] == v[indices[k]]
  {
    seq(|indices|, k requires 0 <= k < |indices| => v[indices[k]])
  }

  /** indices[-3501:-1] of an argsort order of more than 3500 entries:
      positions n - 3501 .. n - 2, the last (strongest) position left out. */
  function CapAsWritten(order: seq<int>): (kept: seq<int>)
    requires |order| > MaxPoints
    ensures |kept| == MaxPoints
    ensures forall k :: 0 <= k < MaxPoints ==> kept[k] == order[|order| - MaxPoints - 1 + k]
  {
    order[|order| - MaxPoints - 1 .. |order| - 1]
  }

  /** indices[-3500:]: the 3500 strongest positions. */
  function CapTopK(order: seq<int>): (kept: seq<int>)
    requires |order| > MaxPoints
    ensures |kept| == MaxPoints
    ensures forall k :: 0 <= k < MaxPoints ==> kept[k] == order[|order| - MaxPoints + k]
  {
    order[|order| - MaxPoints ..]
  }

  /** A contiguous slice order[lo .. hi] of an argsort order lists distinct
      candidates in ascending response. */
  lemma SliceDistinctAscending(rs: seq<real>, order: seq<int>, lo: int, hi: int)
    requires IsArgSort(order, rs) && 0 <= lo <= hi <= |rs|
    ensures forall k, l :: 0 <= k < l < hi - lo ==>
      order[lo .. hi][k] != order[lo .. hi][l] && rs[order[lo .. hi][k]] <= rs[order[lo .. hi][l]]
  {
    PermutationFacts(order, |rs|);
    forall k, l | 0 <= k < l < hi - lo
      ensures order[lo .. hi][k] != order[lo .. hi][l] && rs[order[lo .. hi][k]] <= rs[order[lo .. hi][l]]
    {
      assert order[lo .. hi][k] == order[lo + k] && order[lo .. hi][l] == order[lo + l];
    }
  }

  /** A candidate that is neither in order[lo .. hi] nor after it in the
      order is no stronger than any candidate of the slice. */
  lemma DroppedBelowKept(rs: seq<real>, order: seq<int>, lo: int, hi: int, i: int, k: int)
    requires IsArgSort(order, rs) && 0 <= lo <= hi <= |rs|
    requires 0 <= i < |rs| && i !in order[lo .. hi] && 0 <= k < hi - lo
    requires forall q :: hi <= q < |rs| ==> order[q] != i
    ensures rs[i] <= rs[order[lo + k]]
  {
    forall q | lo <= q < hi ensures order[q] != i {
      assert order[lo .. hi][q - lo] == order[q];
    }
    var p := PositionOf(order, |rs|, i);
  }

  /** The candidate in the last argsort position is a strongest one. */
  lemma LastIsStrongest(rs: seq<real>, order: seq<int>)
    requires IsArgSort(order, rs) && |rs| > 0
    ensures 0 <= order[|rs| - 1] < |rs|
    ensures forall i :: 0 <= i < |rs| ==> rs[i] <= rs[order[|rs| - 1]]
  {
    forall i | 0 <= i < |rs| ensures rs[i] <= rs[order[|rs| - 1]] {
      var p := PositionOf(order, |rs|, i);
    }
  }

  /** What the slice [-3501:-1] keeps: 3500 distinct candidates in ascending
      response, each at least as strong as every candidate left out except
      the one in the last argsort position, which is a strongest candidate
      and is left out. */
  lemma CapAsWrittenDropsStrongest(rs: seq<real>, order: seq<int>)
    requires |rs| > MaxPoints && IsArgSort(order, rs)
    ensures var kept := CapAsWritten(order);
      var top := order[|rs| - 1];
      0 <= top < |rs| && (forall i :: 0 <= i < |rs| ==> rs[i] <= rs[top]) && top !in kept &&
      (forall k, l :: 0 <= k < l < |kept| ==> kept[k] != kept[l] && rs[kept[k]] <= rs[kept[l]]) &&
      (forall i, k :: 0 <= i < |rs| && i !in kept && i != top && 0 <= k < |kept| ==> rs[i] <= rs[kept[k]])
  {
    var n := |rs|;
    var lo, hi := n - MaxPoints - 1, n - 1;
    var kept := CapAsWritten(order);
    assert kept == order[lo .. hi];
    var top := order[n - 1];
    PermutationFacts(order, n);
    LastIsStrongest(rs, order);
    SliceDistinctAscending(rs, order, lo, hi);
    assert top !in kept by {
      forall k | 0 <= k < |kept| ensures kept[k] != top {
        assert kept[k] == order[lo + k];
      }
    }
    forall i, k | 0 <= i < n && i !in kept && i != top && 0 <= k < |kept| ensures rs[i] <= rs[kept[k]] {
      DroppedBelowKept(rs, order, lo, hi, i, k);
    }
  }

  /** When one candidate is strictly stronger than all others, the slice
      [-3501:-1] leaves it out. */
  lemma CapAsWrittenLosesUniqueMaximum(rs: seq<real>, order: seq<int>, best: int)
    requires |rs| > MaxPoints && IsArgSort(order, rs)
    requires 0 <= best < |rs| && forall i :: 0 <= i < |rs| && i != best ==> rs[i] < rs[best]
    ensures best !in CapAsWritten(order)
  {
    CapAsWrittenDropsStrongest(rs, order);
  }

  /** The intended cap keeps 3500 distinct candidates in ascending response,
      each at least as strong as every candidate left out; a strongest
      candidate is among them. */
  lemma CapTopKKeepsStrongest(rs: seq<real>, order: seq<int>)
    requires |rs| > MaxPoints && IsArgSort(order, rs)
    ensures var kept := CapTopK(order);
      (forall k, l :: 0 <= k < l < |kept| ==> kept[k] != kept[l] && rs[kept[k]] <= rs[kept[l]]) &&
      (forall i, k :: 0 <= i < |rs| && i !in kept && 0 <= k < |kept| ==> rs[i] <= rs[kept[k]]) &&
      (exists k :: 0 <= k < |kept| && forall i :: 0 <= i < |rs| ==> rs[i] <= rs[kept[k]])
  {
    var n := |rs|;
    var lo := n - MaxPoints;
    var kept := CapTopK(order);
    assert kept == order[lo .. n];
    LastIsStrongest(rs, order);
    SliceDistinctAscending(rs, order, lo, n);
    assert kept[MaxPoints - 1] == order[n - 1];
    forall i, k | 0 <= i < n && i !in kept && 0 <= k < |kept| ensures rs[i] <= rs[kept[k]] {
      DroppedBelowKept(rs, order, lo, n, i, k);
    }
  }

  /** Every listed point is a corner. */
  predicate AllCorners(t: Tensor, featureWidth: nat, xs: seq<int>, ys: seq<int>)
    requires t.Valid() && featureWidth >= 1 && |xs| == |ys|
  {
    forall k :: 0 <= k < |xs| ==> IsCorner(t, featureWidth, xs[k], ys[k])
  }

  /** The points are corners listed by ascending response. */
  predicate ResponsesAscend(t: Tensor, featureWidth: nat, xs: seq<int>, ys: seq<int>)
    requires t.Valid() && featureWidth >= 1 && |xs| == |ys| && AllCorners(t, featureWidth, xs, ys)
  {
    forall k, l :: 0 <= k < l < |xs| ==> Response(t, xs[k], ys[k]) <= Response(t, xs[l], ys[l])
  }

  /** Each candidate of cs is a corner carrying its own response. */
  predicate CornersWithResponses(t: Tensor, featureWidth: nat, cs: seq<Candidate>)
    requires t.Valid() && featureWidth >= 1
  {
    forall k :: 0 <= k < |cs| ==> IsCorner(t, featureWidth, cs[k].x, cs[k].y) && cs[k].r == Response(t, cs[k].x, cs[k].y)
  }

  lemma CandidatesFacts(t: Tensor, featureWidth: nat)
    requires t.Valid() && featureWidth >= 1
    ensures CornersWithResponses(t, featureWidth, Candidates(t, featureWidth))
  {
    var cs := Candidates(t, featureWidth);
    forall k | 0 <= k < |cs| ensures IsCorner(t, featureWidth, cs[k].x, cs[k].y) && cs[k].r == Response(t, cs[k].x, cs[k].y) {
      CandidatesAreCorners(t, featureWidth, cs[k]);
    }
  }

  /** Reindexing corners keeps corners; an order ascending in response
      lists them by ascending response. */
  lemma GatherCorners(t: Tensor, featureWidth: nat, cs: seq<Candidate>, order: seq<int>)
    requires t.Valid() && featureWidth >= 1 && CornersWithResponses(t, featureWidth, cs)
    requires SortedBy(order, Rs(cs))
    ensures AllCorners(t, featureWidth, Gather(Xs(cs), order), Gather(Ys(cs), order))
    ensures ResponsesAscend(t, featureWidth, Gather(Xs(cs), order), Gather(Ys(cs), order))
  {
    var xs, ys := Gather(Xs(cs), order), Gather(Ys(cs), order);
    assert forall k :: 0 <= k < |order| ==> xs[k] == cs[order[k]].x && ys[k] == cs[order[k]].y;
    assert AllCorners(t, featureWidth, xs, ys);
    forall k, l | 0 <= k < l < |xs| ensures Response(t, xs[k], ys[k]) <= Response(t, xs[l], ys[l]) {
      assert Rs(cs)[order[k]] <= Rs(cs)[order[l]];
    }
  }

  /** A contiguous slice of an ascending order is ascending. */
  lemma SliceSorted(order: seq<int>, keys: seq<real>, lo: int, hi: int)
    requires SortedBy(order, keys) && 0 <= lo <= hi <= |order|
    ensures SortedBy(order[lo .. hi], keys)
  {
    assert forall k :: 0 <= k < hi - lo ==> order[lo .. hi][k] == order[lo + k];
  }

  /** get_interest_points on given gradient products: the scan, then, when
      more than 3500 points were accepted, the arrays reindexed by
      argsort(rs)[-3501:-1]. */
  method GetInterestPoints(t: Tensor, featureWidth: nat) returns (xs: seq<int>, ys: seq<int>)
    requires t.Valid() && featureWidth >= 1
    ensures |xs| == |ys| && AllCorners(t, featureWidth, xs, ys)
    ensures |Candidates(t, featureWidth)| <= MaxPoints ==>
      xs == Xs(Candidates(t, featureWidth)) && ys == Ys(Candidates(t, featureWidth))
    ensures |Candidates(t, featureWidth)| > MaxPoints ==>
      |xs| == MaxPoints && ResponsesAscend(t, featureWidth, xs, ys) &&
      exists order :: IsArgSort(order, Rs(Candidates(t, featureWidth))) &&
        xs == Gather(Xs(Candidates(t, featureWidth)), CapAsWritten(order)) &&
        ys == Gather(Ys(Candidates(t, featureWidth)), CapAsWritten(order))
  {
    var rs;
    xs, ys, rs := ScanCandidates(t, featureWidth);
    CandidatesFacts(t, featureWidth);
    if |rs| > MaxPoints {
      var indices := ArgSort(rs);
      ghost var order := indices;
      SliceSorted(order, rs, |rs| - MaxPoints - 1, |rs| - 1);
      GatherCorners(t, featureWidth, Candidates(t, featureWidth), CapAsWritten(order));
      indices := CapAsWritten(indices);
      xs := Gather(xs, indices);
      ys := Gather(ys, indices);
      assert IsArgSort(order, Rs(Candidates(t, featureWidth)));
    }
  }
}
