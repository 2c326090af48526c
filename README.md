# Local feature matching: a verified model of the Harris / SIFT-like pipeline

This project models the discrete core of `code/student.py`. That file holds a
three-stage local-feature pipeline: a Harris corner detector, a SIFT-like
128-entry descriptor, and a nearest-neighbour distance ratio (NNDR) matcher.
The numeric kernels are taken as given real matrices. These are the Gaussian
blur, the Sobel gradients, the gradient magnitude and direction, and the
Euclidean distances. What remains is modelled over Dafny `int` and `real`:
the scan, the selection, the window arithmetic, the cell tiling, the
histogram, the normalisation and the matching.

Modules, one per part of the pipeline:

- `Grids`: row-major real matrices, with slicing, flattening, sums and the global maximum.
- `Ranking`: `np.argsort`. `IsArgSort` says what any argsort result is. `ArgSort` is one such order.
- `Detector`: `get_interest_points`.
- `Patches`: `_get_patch`.
- `Cells`: `_create_cells`.
- `Histograms`: `_make_histogram`.
- `Descriptors`: `get_features`.
- `Matcher`: `match_features`.

Loops in the source are methods with loop invariants. Each is proved against
a specification function, and lemmas state the properties of that function.
The descriptor matrix is an `array2`. `features[features > 0.2] = 0.2`
updates it in place. `features = features / scaler` builds a new array and
rebinds the name; it is rendered as an in-place division, since nothing else
refers to the old array. The distance matrix is an `array2` filled in place.

Behaviour of the code worth knowing:

- The top-K cap keeps argsort positions `len-3501 .. len-2`, so it drops the strongest candidate (see Findings).
- The 3500 points that survive the cap come out in ascending response order.
- With no points, `features.max()` is taken of an empty array and numpy raises an error. `GetFeatures` reports this as the `ZeroSizeArray` outcome.
- After the clip and the renormalisation, and before the power of 0.8, every entry lies in [0, 1] and the largest entry is 1.

## Model

| member | source | states |
|---|---|---|
| `Detector.WindowSum` | code/student.py:66-68 | The sum over the slice `[y-1:y+1, x-1:x+1]` is the sum of the four pixels whose lower right corner is (x, y). |
| `Detector.ScanCandidates` | code/student.py:64-80 | The nested stride-2 loops append exactly the scan's accepted candidates to xs, ys and rs, in scan order. |
| `Detector.ScanRow` | code/student.py:65-80 | The inner loop over the columns of one row appends exactly that row's accepted candidates, left to right, to the lists built so far. |
| `Detector.CandidatesAreCorners` | code/student.py:64-80 | A candidate is recorded iff it lies on the stride-2 grid starting at feature_width, at least feature_width from every border, its Harris response det - 0.06 trace^2 of the 2x2 window sums exceeds 0.05, and it carries that response. |
| `Detector.CandidatesRowMajor` | code/student.py:64-65 | Recorded candidates come in row-major scan order, so no point is recorded twice. |
| `Detector.GetInterestPoints` | code/student.py:44-92 | xs and ys have equal length and every point is an accepted corner. With at most 3500 candidates, all of them are returned in scan order. With more, exactly 3500 are returned, ascending by response, and they are the candidates at positions len-3501 .. len-2 of some argsort order of the responses. |
| `Detector.CapAsWritten` | code/student.py:84-86 | `indices[-3501:-1]` keeps 3500 positions, from len-3501 up to and excluding the last. |
| `Detector.CapAsWrittenDropsStrongest` | code/student.py:84-90 | The kept candidates are distinct and ascend by response. Each outranks every dropped candidate except the one in the last argsort position, and that one is a strongest candidate and is dropped. |
| `Detector.LastIsStrongest` | code/student.py:85 | The last position of an argsort order holds a candidate whose response is at least every other response. |
| `Detector.CapAsWrittenLosesUniqueMaximum` | code/student.py:84-90 | When one candidate's response is strictly largest, the cap drops it. |
| `Detector.CapTopK` | code/student.py:84-86 | The intended slice `[-3500:]` keeps the last 3500 argsort positions. |
| `Detector.CapTopKKeepsStrongest` | code/student.py:84-90 | The intended cap keeps 3500 distinct candidates ascending by response, each at least as strong as every dropped one, and a strongest candidate among them. |
| `Detector.Gather` | code/student.py:89-90 | `xs[indices]` has one entry per index, and entry k is the entry of xs at indices[k]. |
| `Detector.GatherCorners` | code/student.py:87-90 | Reindexing the accepted corners by an order that ascends in response yields corners that ascend in response. |
| `Ranking.ArgSort` | code/student.py:85 | The result is an argsort of the keys: a permutation of the indices listing the keys in ascending order. |
| `Ranking.PermutationFacts` | code/student.py:85-90 | An argsort order holds each index below n exactly once, so reindexing by it neither loses nor duplicates points. |
| `Patches.PatchWindow` | code/student.py:138-158 | When the image is at least 2*window in a dimension, the range spans exactly 2*window indices and lies inside the image. It equals the unshifted range clamped into the image, contains the point, and starts at loc - window + 1 when no shift is needed. Rows follow featureLoc[1] and columns featureLoc[0]. |
| `Patches.GetPatch` | code/student.py:124-160 | The patch is a 2*window square whose entry (i, j) is the image pixel at the clamped row and column offsets. |
| `Cells.CreateCells` | code/student.py:163-180 | The cells come out in row-major order, (rows/c)*(cols/c) of them. Cell k of the magnitude and of the direction grid covers rows (k div (cols/c))*c .. +c and columns (k mod (cols/c))*c .. +c. |
| `Cells.CellOfPixel` | code/student.py:176-180 | Every pixel (i, j) is entry (i mod c, j mod c) of cell (i div c)*(cols/c) + j div c. |
| `Cells.NoOtherCell` | code/student.py:176-180 | No other cell covers that pixel, so the cells partition the patch. |
| `Cells.SixteenCells` | code/student.py:269 | With cell side feature_width/4, a feature_width patch has 16 cells. |
| `Histograms.MakeHistogram` | code/student.py:192-199 | The histogram has 8 bins. Bin k holds the total magnitude of the pixels whose direction d satisfies Edge(k) <= d < Edge(k+1), where Edge(k) = -pi + k * 2pi/8; the last bin also takes d == pi. Directions outside [-pi, pi] are counted in no bin. |
| `Histograms.BinWeightIsIntervalSum` | code/student.py:196-197 | Binning each pixel through the floor formula puts into bin k exactly the magnitudes whose direction lies in bin k's interval. |
| `Histograms.BinOf` | code/student.py:196-197 | A direction in [-pi, pi] falls in one of 8 bins of width 2pi/8. Each bin is half-open, and the last bin also takes pi. |
| `Histograms.HistogramConservesWeight` | code/student.py:192-199 | Each in-range pixel adds its magnitude to exactly one bin, so the 8 bins sum to the in-range magnitude. |
| `Histograms.HistogramSumsMagnitudes` | code/student.py:192-199 | When every direction is in [-pi, pi], as arctan2 guarantees, the bins sum to the cell's total magnitude. |
| `Histograms.BinWeightNonNegative` | code/student.py:196-197 | Non-negative magnitudes give non-negative bins. |
| `Descriptors.CutIntoCells` | code/student.py:269 | `_create_cells(mag, dir, feature_width//4)` on a feature_width patch yields 16 magnitude and 16 direction cells, and cell k of each is the row-major block k of side feature_width/4. |
| `Descriptors.PointDescriptor` | code/student.py:264-276 | The per-point loop extends the feature vector with the 16 cell histograms, giving the point's descriptor. |
| `Descriptors.DescriptorLayout` | code/student.py:269-272 | Entry 8k + b of a descriptor is bin b of cell k, with cells in row-major order. |
| `Descriptors.DescriptorNonNegative` | code/student.py:264-272 | With non-negative gradient magnitudes every descriptor entry is non-negative. |
| `Descriptors.DescriptorRows` | code/student.py:262-276 | The loop yields one 128-entry descriptor per point of zip(x, y), in input order. |
| `Descriptors.ClippedMaximum` | code/student.py:282-288 | After division by the global maximum and clipping at 0.2, the new global maximum is exactly 0.2. |
| `Descriptors.NormalizeClosedForm` | code/student.py:282-289 | With t = v / global max of the raw matrix, each entry becomes 1 when t > 0.2 and t / 0.2 otherwise. The scale is global, so a single point's magnitude rescales every descriptor. |
| `Descriptors.NormalizeRange` | code/student.py:282-289 | After normalise, clip and renormalise, every entry lies in [0, 1] and the maximum is 1. |
| `Descriptors.MaxOf` | code/student.py:282 | `features.max()` bounds every entry and is attained by some entry. |
| `Descriptors.ToArray` | code/student.py:278 | `np.array(features)` is a new rows x cols array whose entry (i, j) is entry j of row i of the list. |
| `Descriptors.DivideAll` | code/student.py:283 | Every entry's new value is its old value divided by the scaler. `features / scaler` builds a new array; dividing in place is equivalent, since nothing else refers to the old one. |
| `Descriptors.ClipAll` | code/student.py:286 | `features[features > 0.2] = 0.2` lowers exactly the entries above 0.2 to 0.2 and leaves the rest. |
| `Descriptors.NormalizeInPlace` | code/student.py:282-289 | The two divisions and the clip leave the normalised matrix in the array. |
| `Descriptors.GetFeatures` | code/student.py:255-289 | The matrix has one row per point and 128 columns. It raises a zero-size-array error iff there are no points and ends in NaNs iff every raw entry is 0. Otherwise it holds the normalised raw descriptors. |
| `Matcher.MatchFeatures` | code/student.py:318-343 | Matches and confidences have equal length. The matched rows are exactly the accepted rows, in increasing order and at most one match per row. Each match (i, j) has 0 <= i < n1 and 0 <= j < n2, j attains the minimum of row i, and the confidence is dist[i][j] >= 0. |
| `Matcher.RatioTestRow` | code/student.py:336-341 | The argsort of one row yields a match exactly when the row passes the ratio test. The matched column attains the row's minimum, and the confidence is its distance. |
| `Matcher.FillRow` | code/student.py:326-334 | The inner loop sets dist[i, y] for every column y of row i and leaves every other row unchanged, so the outer loop fills the whole distance matrix. |
| `Matcher.ArgSortNearestPair` | code/student.py:336-337 | The first two argsort positions of a row are its nearest and second-nearest columns. |
| `Matcher.NearestPairValues` | code/student.py:336-337 | All nearest pairs of a row carry the same two distances, so argsort's tie-breaking does not change d1 or d2. |
| `Matcher.RatioTestIgnoresTies` | code/student.py:337-339 | Whether a row is accepted can be read off any of its nearest pairs. |
| `Matcher.AcceptedRowsMeaning` | code/student.py:325-341 | The accepted rows ascend strictly, lie in range, and are exactly the rows whose ratio test passes. |
| `Matcher.RatioTestOnSquares` | code/student.py:333-339 | For non-negative distances, d1 / d2 < 0.8 holds iff d1^2 < 0.64 * d2^2. A zero d2 fails both tests. |
| `Matcher.EuclideanRatioTest` | code/student.py:328-339 | With Euclidean distances, a row is accepted iff its nearest squared distance is below 0.64 times its second-nearest one. |
| `Matcher.SquaredDistanceIsSum` | code/student.py:331-332 | The squared distance is `sub.sum()` of the array of squared entry differences `(x_features - y_features) ** 2`. |
| `Matcher.SquaredDistanceNonNegative` | code/student.py:331-332 | The sum of squared differences is non-negative, so np.sqrt is defined on it. |
| `Matcher.Asymmetric` | code/student.py:305-306 | Matching is not symmetric. For the 1-D descriptor sets [0], [10] and [1], [2], whose Euclidean distance matrices are stated in both argument orders, one row is accepted with the arguments in order and two rows with the arguments swapped. |

## Left out

- `cv2.GaussianBlur`, `cv2.Sobel` and `_image_gradient` (code/student.py:52-61, 95-121) are left out. They are library convolutions and float `sqrt`/`arctan2`. The detector takes Ixx, Iyy and Ixy as a given `Tensor`. The descriptor takes the gradient magnitude and direction as given grids.
- `features**0.8` (code/student.py:291) is left out as a float power. `GetFeatures` stops before it. On [0, 1] the power is monotone and keeps the range [0, 1].
- Float arithmetic, NaN and infinity are left out. Reals are exact, and numpy's pi is taken as the real 3.141592653589793.
- `Descriptors.GetFeatures`: on the `ZeroSizeArray` and `NaNEntries` outcomes the matrix contents are not stated. numpy raises an error on the first and fills NaN on the second, and NaN has no real value.
- `Matcher.MatchFeatures` takes the Euclidean distance matrix as input rather than the two descriptor matrices, because `np.sqrt` is left out. `IsEuclidean` and `EuclideanRatioTest` relate the distances to the squared distances of the descriptors.
- `Matcher.MatchFeatures` requires the second image to have at least two descriptors whenever the first image has any, because the source indexes `sorted_index[1]` without a check. With no descriptors in the first image the loop never runs and nothing is required.
- The tie-breaking of `np.argsort` is left out; numpy's default sort is not stable. `GetInterestPoints` states its result for some argsort order of the responses. The matcher is proved independent of ties for everything except which minimal column j is reported.
- Rounding of float coordinates in `_get_patch` (code/student.py:135) is left out. Coordinates are integers.
- `Patches.GetPatch` requires an image at least 2*window in each dimension. Smaller images would shift the start below 0, where numpy's negative-index slicing applies.
- `Detector.GetInterestPoints` requires feature_width >= 1. With 0 the window slice `y-1` becomes -1, where numpy's negative-index slicing applies.
- `Descriptors.GetFeatures` requires a feature width that is a positive multiple of 4, as the source's docstring assumes, and at most each image dimension, which is the image-size requirement of `Patches.GetPatch` above. It also requires non-negative magnitudes, which is what sqrt yields.
- Colour and multichannel images and the unused imports (code/student.py:1-11) are left out.
- Returning numpy arrays is modelled as returning sequences or a 2-D Dafny array.

## Findings

| source | as written | input that shows it | evidently intended | confidence | as-written member | corrected member |
|---|---|---|---|---|---|---|
| code/student.py:84-90 | `indices[-3501:-1]` keeps argsort positions len-3501 .. len-2 | 3501 candidates whose last response is strictly the largest: that candidate is dropped | keep the 3500 strongest candidates, `indices[-3500:]` | not executed | `Detector.CapAsWrittenLosesUniqueMaximum` | `Detector.CapTopKKeepsStrongest` |

`GetInterestPoints` keeps the as-written slice, because that is what the
detector does. `CapTopK` with `CapTopKKeepsStrongest` is the corrected cap.
