/** match_features: the nearest-neighbour distance ratio test. For every
    descriptor of the first image the two nearest descriptors of the second
    image are found through np.argsort; the nearest is accepted as a match
    when its distance is below 0.8 times the second-nearest distance, and the
    raw nearest distance is kept as the match's confidence. */
module Matcher {
  import opened Grids
  import opened Ranking

  const Ratio: real := 0.8

  /** A row of the first descriptor matrix and the row of the second that it
      matches. */
  datatype Match = Match(i: int, j: int)

  /** The array sub = (x_features - y_features) ** 2, entry by entry. */
  function SquaredDifferences(a: seq<real>, b: seq<real>): (sub: seq<real>)
    requires |a| == |b|
    ensures |sub| == |a| && forall k :: 0 <= k < |a| ==> sub[k] == (a[k] - b[k]) * (a[k] - b[k])
  {
    seq(|a|, k requires 0 <= k < |a| => (a[k] - b[k]) * (a[k] - b[k]))
  }

  /** Sum of squared differences of two descriptors, the value np.sqrt is
      applied to. */
  function SquaredDistance(a: seq<real>, b: seq<real>): real
    requires |a| == |b|
  {
    if |a| == 0 then 0.0
    else
      var n := |a| - 1;
      SquaredDistance(a[.. n], b[.. n]) + (a[n] - b[n]) * (a[n] - b[n])
  }

  /** The squared distance is sub.sum() of the array of squared differences. */
  lemma {:induction false} SquaredDistanceIsSum(a: seq<real>, b: seq<real>)
    requires |a| == |b|
    ensures SquaredDistance(a, b) == Sum(SquaredDifferences(a, b))
  {
    if |a| > 0 {
      var n := |a| - 1;
      SquaredDistanceIsSum(a[.. n], b[.. n]);
      SquaredDifferencesPrefix(a, b, n);
    }
  }

  lemma SquaredDifferencesPrefix(a: seq<real>, b: seq<real>, n: nat)
    requires |a| == |b| && n <= |a|
    ensures SquaredDifferences(a, b)[.. n] == SquaredDifferences(a[.. n], b[.. n])
  {
    var sub, front := SquaredDifferences(a, b), SquaredDifferences(a[.. n], b[.. n]);
    assert forall k :: 0 <= k < n ==> sub[.. n][k] == front[k];
  }

  lemma {:induction false} SquaredDistanceNonNegative(a: seq<real>, b: seq<real>)
    requires |a| == |b|
    ensures SquaredDistance(a, b) >= 0.0
  {
    if |a| > 0 {
      SquaredDistanceNonNegative(a[.. |a| - 1], b[.. |b| - 1]);
    }
  }

  /** dist holds the Euclidean distances between the rows of f1 and f2: each
      entry is the non-negative square root of the squared distance. */
  predicate IsEuclidean(f1: Grid, f2: Grid, dist: Grid)
  {
    |dist| == |f1| &&
    forall i :: 0 <= i < |f1| ==>
      |dist[i]| == |f2| &&
      forall y :: 0 <= y < |f2| ==>
        |f1[i]| == |f2[y]| && dist[i][y] >= 0.0 && dist[i][y] * dist[i][y] == SquaredDistance(f1[i], f2[y])
  }

  /** j1 and j2 are the first two positions of some ascending ordering of
      row: j1 attains the minimum, and j2 is the minimum of the others. */
  predicate IsNearestPair(row: seq<real>, j1: int, j2: int)
  {
    0 <= j1 < |row| && 0 <= j2 < |row| && j1 != j2 &&
    (forall j :: 0 <= j < |row| ==> row[j1] <= row[j]) &&
    (forall j :: 0 <= j < |row| && j != j1 ==> row[j2] <= row[j])
  }

  /** d1 / d2 < 0.8 on floats. A zero d2 makes the quotient NaN or infinite,
      and neither is below 0.8. */
  predicate PassesRatioTest(d1: real, d2: real)
  {
    d2 != 0.0 && d1 / d2 < Ratio
  }

  /** The row's nearest and second-nearest distances pass the ratio test. */
  ghost predicate RowAccepts(row: seq<real>)
  {
    exists j1, j2 :: IsNearestPair(row, j1, j2) && PassesRatioTest(row[j1], row[j2])
  }

  /** Ties do not matter: every nearest pair has the same two distances. */
  lemma NearestPairValues(row: seq<real>, a1: int, a2: int, b1: int, b2: int)
    requires IsNearestPair(row, a1, a2) && IsNearestPair(row, b1, b2)
    ensures row[a1] == row[b1] && row[a2] == row[b2]
  {
    if a1 != b1 {
      assert row[a2] <= row[b1] && row[b2] <= row[a1];
    }
  }

  /** So whether a row is accepted can be read off any of its nearest
      pairs. */
  lemma RatioTestIgnoresTies(row: seq<real>, j1: int, j2: int)
    requires IsNearestPair(row, j1, j2)
    ensures RowAccepts(row) <==> PassesRatioTest(row[j1], row[j2])
  {
    if RowAccepts(row) {
      var b1, b2 :| IsNearestPair(row, b1, b2) && PassesRatioTest(row[b1], row[b2]);
      NearestPairValues(row, j1, j2, b1, b2);
    }
  }

  /** The first two entries of an argsort order are a nearest pair. */
  lemma ArgSortNearestPair(row: seq<real>, order: seq<int>)
    requires |row| >= 2 && IsArgSort(order, row)
    ensures IsNearestPair(row, order[0], order[1])
  {
    PermutationFacts(order, |row|);
    forall j | 0 <= j < |row| ensures row[order[0]] <= row[j] && (j != order[0] ==> row[order[1]] <= row[j]) {
      assert j in order;
      var p :| 0 <= p < |order| && order[p] == j;
    }
  }

  /** The rows of dist that are accepted, in ascending order. */
  ghost function AcceptedRows(dist: Grid): (rows: seq<int>)
  {
    if |dist| == 0 then []
    else
      var n := |dist| - 1;
      AcceptedRows(dist[.. n]) + (if RowAccepts(dist[n]) then [n] else [])
  }

  /** The accepted rows ascend strictly and are exactly the rows whose ratio
      test passes. */
  lemma {:induction false} AcceptedRowsMeaning(dist: Grid)
    ensures forall k, l :: 0 <= k < l < |AcceptedRows(dist)| ==> AcceptedRows(dist)[k] < AcceptedRows(dist)[l]
    ensures forall k :: 0 <= k < |AcceptedRows(dist)| ==> 0 <= AcceptedRows(dist)[k] < |dist|
    ensures forall i :: 0 <= i < |dist| ==> (i in AcceptedRows(dist) <==> RowAccepts(dist[i]))
  {
    if |dist| > 0 {
      var n := |dist| - 1;
      AcceptedRowsMeaning(dist[.. n]);
      var prev, rows := AcceptedRows(dist[.. n]), AcceptedRows(dist);
      assert rows == prev + (if RowAccepts(dist[n]) then [n] else []);
      forall i | 0 <= i < n ensures i in rows <==> RowAccepts(dist[i]) {
        assert dist[.. n][i] == dist[i];
      }
    }
  }

  /** The first-image indices of a list of matches. */
  function RowsOf(matches: seq<Match>): (rows: seq<int>)
    ensures |rows| == |matches| && forall k :: 0 <= k < |matches| ==> rows[k] == matches[k].i
  {
    seq(|matches|, k requires 0 <= k < |matches| => matches[k].i)
  }

  /** Row i of a 2-D array as a sequence. */
  function Row(a: array2<real>, i: int): (row: seq<real>)
    requires 0 <= i < a.Length0
    reads a
    ensures |row| == a.Length1 && forall y :: 0 <= y < a.Length1 ==> row[y] == a[i, y]
  {
    seq(a.Length1, y requires 0 <= y < a.Length1 reads a => a[i, y])
  }

  /** m pairs row m.i with a column m.j of dist that is nearest to it, and
      conf is that non-negative distance. */
  predicate IsNearestMatch(dist: Grid, n2: nat, m: Match, conf: real)
    requires IsGrid(dist, |dist|, n2)
  {
    0 <= m.i < |dist| && 0 <= m.j < n2 &&
    (forall y :: 0 <= y < n2 ==> dist[m.i][m.j] <= dist[m.i][y]) &&
    conf == dist[m.i][m.j] && conf >= 0.0
  }

  /** match_features on the distances of the two descriptor sets: dist[i][y]
      is the Euclidean distance between row i of im1_features and row y of
      im2_features. The matrix is filled row by row; each row is ordered
      with np.argsort; row i is matched with its nearest column j when the
      ratio test passes, with confidence dist[i][j]. The second image needs
      two descriptors for a second-nearest neighbour to exist, unless the
      first image has none. */
  method MatchFeatures(dist: Grid, n1: nat, n2: nat) returns (matches: seq<Match>, confidences: seq<real>)
    requires IsGrid(dist, n1, n2) && (n1 == 0 || n2 >= 2) && NonNegative(dist)
    ensures |confidences| == |matches|
    ensures RowsOf(matches) == AcceptedRows(dist)
    ensures forall k :: 0 <= k < |matches| ==>
      0 <= matches[k].i < n1 && 0 <= matches[k].j < n2 &&
      (forall y :: 0 <= y < n2 ==> dist[matches[k].i][matches[k].j] <= dist[matches[k].i][y]) &&
      confidences[k] == dist[matches[k].i][matches[k].j] && confidences[k] >= 0.0
  {
    var d := new real[n1, n2];
    matches, confidences := [], [];
    var i := 0;
    while i < n1
      invariant 0 <= i <= n1
      invariant |confidences| == |matches|
      invariant RowsOf(matches) == AcceptedRows(dist[.. i])
      invariant forall k :: 0 <= k < |matches| ==> IsNearestMatch(dist, n2, matches[k], confidences[k])
      invariant forall r :: 0 <= r < i ==> Row(d, r) == dist[r]
    {
      FillRow(d, i, dist[i]);
      var accepted, j, conf := RatioTestRow(Row(d, i));
      AcceptedRowsStep(dist, i);
      if accepted {
        assert IsNearestMatch(dist, n2, Match(i, j), conf);
        matches := matches + [Match(i, j)];
        confidences := confidences + [conf];
      }
      i := i + 1;
    }
    assert dist[.. n1] == dist;
  }

  /** The body of match_features' loop for one row: np.argsort orders the
      row, its first two entries give the nearest and second-nearest
      distances, and the nearest column is returned with its distance when
      the ratio test passes. */
  method RatioTestRow(row: seq<real>) returns (accepted: bool, j: int, conf: real)
    requires |row| >= 2
    ensures accepted <==> RowAccepts(row)
    ensures accepted ==> 0 <= j < |row| && (forall y :: 0 <= y < |row| ==> row[j] <= row[y]) && conf == row[j]
  {
    var sortedIndex := ArgSort(row);
    ArgSortNearestPair(row, sortedIndex);
    RatioTestIgnoresTies(row, sortedIndex[0], sortedIndex[1]);
    var d1, d2 := row[sortedIndex[0]], row[sortedIndex[1]];
    accepted, j, conf := d2 != 0.0 && d1 / d2 < Ratio, sortedIndex[0], d1;
  }

  /** The inner loop of match_features: dist[i, y] for every column y. */
  method FillRow(d: array2<real>, i: nat, row: seq<real>)
    requires i < d.Length0 && |row| == d.Length1
    modifies d
    ensures Row(d, i) == row
    ensures forall r, c :: 0 <= r < d.Length0 && r != i && 0 <= c < d.Length1 ==> d[r, c] == old(d[r, c])
  {
    var y := 0;
    while y < d.Length1
      invariant 0 <= y <= d.Length1
      invariant forall c :: 0 <= c < y ==> d[i, c] == row[c]
      invariant forall r, c :: 0 <= r < d.Length0 && r != i && 0 <= c < d.Length1 ==> d[r, c] == old(d[r, c])
    {
      d[i, y] := row[y];
      y := y + 1;
    }
  }

  /** Extending the rows considered by one row i adds i exactly when row i is
      accepted. */
  lemma AcceptedRowsStep(dist: Grid, i: int)
    requires 0 <= i < |dist|
    ensures AcceptedRows(dist[.. i + 1]) == AcceptedRows(dist[.. i]) + (if RowAccepts(dist[i]) then [i] else [])
  {
    assert dist[.. i + 1][.. i] == dist[.. i];
  }

  /** On non-negative distances d1 and d2 with squares s1 and s2, the ratio
      test on the distances is the test s1 < 0.64 * s2 on the squares. */
  lemma RatioTestOnSquares(d1: real, d2: real, s1: real, s2: real)
    requires 0.0 <= d1 && 0.0 <= d2 && d1 * d1 == s1 && d2 * d2 == s2
    ensures PassesRatioTest(d1, d2) <==> s1 < (Ratio * Ratio) * s2
  {
    if d2 != 0.0 {
      var q := d1 / d2;
      assert d1 == q * d2;
      assert (Ratio * Ratio) * s2 == (Ratio * d2) * (Ratio * d2);
      if q < Ratio {
        SquareMonotone(q * d2, Ratio * d2);
      } else {
        SquareMonotone(Ratio * d2, q * d2);
      }
    }
  }

  /** With Euclidean distances, a row of the first image is accepted exactly
      when its nearest squared distance is below 0.64 times its second
      nearest one. */
  lemma EuclideanRatioTest(f1: Grid, f2: Grid, dist: Grid, i: int, j1: int, j2: int)
    requires IsEuclidean(f1, f2, dist) && 0 <= i < |f1|
    requires IsNearestPair(dist[i], j1, j2)
    ensures RowAccepts(dist[i]) <==>
      SquaredDistance(f1[i], f2[j1]) < (Ratio * Ratio) * SquaredDistance(f1[i], f2[j2])
  {
    EuclideanEntry(f1, f2, dist, i, j1);
    EuclideanEntry(f1, f2, dist, i, j2);
    AcceptsOnSquares(dist[i], j1, j2, SquaredDistance(f1[i], f2[j1]), SquaredDistance(f1[i], f2[j2]));
  }

  /** A row is accepted exactly when the squares s1, s2 of its nearest and
      second-nearest distances satisfy s1 < 0.64 * s2. */
  lemma AcceptsOnSquares(row: seq<real>, j1: int, j2: int, s1: real, s2: real)
    requires IsNearestPair(row, j1, j2) && 0.0 <= row[j1] && 0.0 <= row[j2]
    requires row[j1] * row[j1] == s1 && row[j2] * row[j2] == s2
    ensures RowAccepts(row) <==> s1 < (Ratio * Ratio) * s2
  {
    RatioTestIgnoresTies(row, j1, j2);
    RatioTestOnSquares(row[j1], row[j2], s1, s2);
  }

  lemma EuclideanEntry(f1: Grid, f2: Grid, dist: Grid, i: int, y: int)
    requires IsEuclidean(f1, f2, dist) && 0 <= i < |f1| && 0 <= y < |f2|
    ensures |dist[i]| == |f2| && |f1[i]| == |f2[y]|
    ensures dist[i][y] >= 0.0 && dist[i][y] * dist[i][y] == SquaredDistance(f1[i], f2[y])
  {
  }

  /** Squaring is monotone on non-negative reals. */
  lemma SquareMonotone(a: real, b: real)
    requires 0.0 <= a <= b
    ensures a * a <= b * b
    ensures a < b ==> a * a < b * b
  {
    assert b * b - a * a == (b - a) * (b + a);
    if a < b {
      var e, f := b - a, b + a;
      assert e > 0.0 && f > 0.0;
      assert e * f > 0.0;
    }
  }

  /** On one-entry descriptors the squared distance is the square of the
      difference. */
  lemma SquaredDistanceOfOne(a: seq<real>, b: seq<real>)
    requires |a| == |b| == 1
    ensures SquaredDistance(a, b) == (a[0] - b[0]) * (a[0] - b[0])
  {
    assert |a[.. 0]| == 0;
  }

  /** The distances of the one-entry descriptors [0], [10] and [1], [2], in
      both argument orders. */
  lemma WitnessDistances(f1: Grid, f2: Grid, d12: Grid, d21: Grid)
    requires f1 == [[0.0], [10.0]] && f2 == [[1.0], [2.0]]
    requires d12 == [[1.0, 2.0], [9.0, 8.0]] && d21 == [[1.0, 9.0], [2.0, 8.0]]
    ensures IsEuclidean(f1, f2, d12) && IsEuclidean(f2, f1, d21)
  {
    forall i, y | 0 <= i < 2 && 0 <= y < 2
      ensures d12[i][y] >= 0.0 && d12[i][y] * d12[i][y] == SquaredDistance(f1[i], f2[y])
      ensures d21[y][i] >= 0.0 && d21[y][i] * d21[y][i] == SquaredDistance(f2[y], f1[i])
    {
      SquaredDistanceOfOne(f1[i], f2[y]);
      SquaredDistanceOfOne(f2[y], f1[i]);
    }
  }

  /** Matching is not symmetric: for the one-entry descriptors [0], [10] of
      one image and [1], [2] of the other, the distances are
        [1 2]
        [9 8]
      and one row of the first image is matched, while with the arguments
      swapped the distances are the transpose and two rows are. */
  lemma Asymmetric()
    ensures var f1: Grid, f2: Grid := [[0.0], [10.0]], [[1.0], [2.0]];
      var d12: Grid, d21: Grid := [[1.0, 2.0], [9.0, 8.0]], [[1.0, 9.0], [2.0, 8.0]];
      IsEuclidean(f1, f2, d12) && IsEuclidean(f2, f1, d21) &&
      |AcceptedRows(d12)| == 1 && |AcceptedRows(d21)| == 2
  {
    WitnessDistances([[0.0], [10.0]], [[1.0], [2.0]], [[1.0, 2.0], [9.0, 8.0]], [[1.0, 9.0], [2.0, 8.0]]);
    OneRowAccepted([[1.0, 2.0], [9.0, 8.0]]);
    TwoRowsAccepted([[1.0, 9.0], [2.0, 8.0]]);
  }

  lemma OneRowAccepted(d: Grid)
    requires d == [[1.0, 2.0], [9.0, 8.0]]
    ensures |AcceptedRows(d)| == 1
  {
    var a0, a1 := d[0], d[1];
    assert IsNearestPair(a0, 0, 1) && PassesRatioTest(a0[0], a0[1]);
    assert IsNearestPair(a1, 1, 0);
    RatioTestIgnoresTies(a1, 1, 0);
    assert d[.. 1] == [a0] && |d[.. 1][.. 0]| == 0;
    assert AcceptedRows(d[.. 1]) == [0];
    assert AcceptedRows(d) == AcceptedRows(d[.. 1]);
  }

  lemma TwoRowsAccepted(d: Grid)
    requires d == [[1.0, 9.0], [2.0, 8.0]]
    ensures |AcceptedRows(d)| == 2
  {
    var b0, b1 := d[0], d[1];
    assert IsNearestPair(b0, 0, 1) && PassesRatioTest(b0[0], b0[1]);
    assert IsNearestPair(b1, 0, 1) && PassesRatioTest(b1[0], b1[1]);
    assert d[.. 1] == [b0] && |d[.. 1][.. 0]| == 0;
    assert AcceptedRows(d[.. 1]) == [0];
    assert AcceptedRows(d) == [0, 1];
  }
}
