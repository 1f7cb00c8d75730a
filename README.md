# Feature extraction core of Visio-Toolkit, in Dafny

This project models the corner-detection, description and matching core of
`feature_extraction.py` and proves properties about it:

- **Lambda-minus corner selection** (`LambdaMinus`). The threshold is a
  fraction of the map's maximum. A windowed non-maximum suppression then
  scans the band at least `window_size` away from the borders. It keeps
  every pixel above the threshold that equals the maximum of its
  (2w+1)×(2w+1) window, as an `(x, y)` pair.
- **Harris selection** (`Harris`). The response is
  `(Sx2·Sy2 − Sxy²) − k·(Sx2 + Sy2)²`, computed cell by cell. The selected
  cells are those above a fraction of the largest response, listed as
  `np.argwhere` lists them: `(row, column)` pairs in row-major order.
- **Descriptor extraction** (`Descriptors`). Each corner's
  `patch_size × patch_size` crop, clamped to the image, is flattened row by
  row. A corner whose clamped crop is not exactly that size is skipped.
- **Exhaustive matching** (`Matching`). Every descriptor of the first set
  is paired with the index of its best partner in the second set. The
  partner is the lowest sum of squared differences (SSD), or the highest
  normalised cross-correlation above −1. On ties the first index wins.
- **Shared grid definitions** (`Grids`): rectangular grids, `np.max` over
  a block, scaling, and scan order.

Where the source code works by mutation in a loop, the model is a `method`
with the same loop. Each such method is proved equal to a recursive
specification function, and the properties are proved about that function
as lemmas.

Files: `Grids.dfy`, `LambdaMinus.dfy`, `Harris.dfy`, `Descriptors.dfy`,
`Matching.dfy`.

## Model

| member | source | states |
|---|---|---|
| Grids.GridMax | feature_extraction.py:39 | `np.max` of a non-empty map is an upper bound of every cell and is attained at some cell |
| Grids.GridMaxScale | feature_extraction.py:39 | scaling a map by c ≥ 0 scales its maximum by c |
| Grids.GridMaxZero | feature_extraction.py:39 | an all-zero map has maximum 0 |
| Grids.RegionMax | feature_extraction.py:49-52 | the maximum of a non-empty window bounds every cell of the window and is attained in it |
| LambdaMinus.NonMaxSuppression | feature_extraction.py:38-55 | the double scan returns exactly `Peaks(m, w, thPct·max m)`, the corners of the specification, in scan order |
| LambdaMinus.ScanRow | feature_extraction.py:46-53 | one row's inner scan appends exactly that row's corners, left to right |
| LambdaMinus.PeakStep | feature_extraction.py:47-53 | inside the band, "above the threshold and equal to the window maximum" is "above the threshold and at least every cell of the window" |
| LambdaMinus.PeaksExact | feature_extraction.py:45-53 | (x, y) is reported iff it lies in the band, exceeds the threshold and is at least every value of its window (plateaus included) |
| LambdaMinus.PeaksInBand | feature_extraction.py:45-46 | every corner satisfies w ≤ x < W−w and w ≤ y < H−w; the output is empty when H ≤ 2w or W ≤ 2w |
| LambdaMinus.PeaksInScanOrder | feature_extraction.py:45-53 | corners are strictly ascending in row-major order (y, then x), so none is repeated |
| LambdaMinus.PeaksOfZeroMap | feature_extraction.py:39-53 | an all-zero map has threshold 0 and yields no corners, whatever the fraction |
| LambdaMinus.PlateauBothKept | feature_extraction.py:52-53 | two equal neighbouring maxima are both reported: suppression is by "≥", not "strictly greater" |
| Harris.ResponseMap | feature_extraction.py:71 | the response map has the shape of the window sums |
| Harris.HarrisCornersExact | feature_extraction.py:71-75 | a cell is selected iff it lies in the map and its response exceeds thPct times the largest response; cells come as (row, column) in row-major order, border cells included |
| Harris.CellsAboveExact | feature_extraction.py:75 | `argwhere(g > th)` lists a cell iff it lies in the grid and its value exceeds th |
| Harris.CellsAboveInOrder | feature_extraction.py:75 | `argwhere` lists cells in strictly ascending row-major order |
| Harris.ResponseScale | feature_extraction.py:71 | multiplying the three sums by c multiplies the response by c² |
| Harris.ResponseMapScale | feature_extraction.py:71 | the same, cell by cell, for whole maps |
| Harris.ThresholdScale | feature_extraction.py:74 | scaling a map by cc > 0 scales its threshold by cc |
| Harris.HarrisCornersScaleInvariant | feature_extraction.py:71-75 | scaling the three sums by any c ≠ 0 leaves the selected cells unchanged |
| Harris.HarrisCornersOfZeroSums | feature_extraction.py:71-75 | all-zero sums give a zero response, a zero threshold and no cells |
| Descriptors.Crop | feature_extraction.py:103 | the 2-D slice has the clamped height and width, and cell (r, c) is image cell (y0+r, x0+c) |
| Descriptors.Patch | feature_extraction.py:103-108 | a kept corner's descriptor has length p² |
| Descriptors.ExtractDescriptors | feature_extraction.py:80-109 | the loop with `continue` returns exactly `DescriptorsOf(img, corners, p)`, the flattened p×p crops of the kept corners in corner order |
| Descriptors.PatchContents | feature_extraction.py:96-108 | for p > 0, the block lies inside the image; for every r < p, the descriptor's r-th run of p values, starting at RowStart(r, p), is image row y−p/2+r, columns x−p/2 … x+p/2−1 |
| Descriptors.PatchRow | feature_extraction.py:96-108 | row r of a kept corner's block, image row y−p/2+r and columns x−p/2 … x+p/2−1, is descriptor slice [r·p, r·p+p) |
| Descriptors.FlattenRow | feature_extraction.py:108 | row r of a flattened block of rows of length n occupies the n positions starting at RowStart(r, n) (= r·n by RowStartIsProduct) |
| Descriptors.SurvivesIff | feature_extraction.py:98-106 | for even p and non-negative coordinates, a corner is kept iff p = 0 or p/2 ≤ x, x+p/2 ≤ W, p/2 ≤ y and y+p/2 ≤ H |
| Descriptors.OddPatchNeverSurvives | feature_extraction.py:98-106 | for odd p the crop is at most p−1 wide, so no corner is kept |
| Descriptors.OddPatchNoDescriptors | feature_extraction.py:95-109 | for odd p the extraction returns nothing |
| Descriptors.DescriptorsFromKept | feature_extraction.py:95-109 | the descriptors are the patches of the kept corners, in increasing corner order; a corner's index is kept iff it survives; there are at most as many descriptors as corners |
| Matching.Square | feature_extraction.py:131 | a square is non-negative, and zero iff its root is zero |
| Matching.Scores | feature_extraction.py:129-139 | one score per descriptor of the second set |
| Matching.MatchFeatures | feature_extraction.py:113-144 | one pair per descriptor of the first set, `matches[i] = (i, Partner(A[i], B))`, with the best index kept as the loop does |
| Matching.FirstMinSpec | feature_extraction.py:128-134 | the strict "<" scan from +∞ finds nothing only on empty input; otherwise it keeps a minimal score, and no earlier index has that score |
| Matching.FirstMaxAboveSpec | feature_extraction.py:128-142 | the strict ">" scan from −1 finds nothing iff no score exceeds −1; otherwise it keeps a maximal score above −1, and no earlier index has that score |
| Matching.PartnerSsd | feature_extraction.py:127-134 | SSD partner is None iff the second set is empty, else the first index of least SSD |
| Matching.PartnerNcc | feature_extraction.py:127-142 | correlation partner is None iff no score exceeds −1, else the first index of the largest score |
| Matching.SsdZeroIff | feature_extraction.py:131 | the exact SSD is non-negative and zero iff the descriptors are equal |
| Matching.SelfMatch | feature_extraction.py:129-134 | matching distinct descriptors against themselves by exact SSD pairs each with itself |
| Matching.WrappedSsdSelfMatchFails | feature_extraction.py:131 | with 8-bit wrap-around, [0] and [16] score 0, and the self-match of [[16], [0]] pairs [0] with index 0 (the exact SSD picks 1) |

## Left out

- Image I/O, `cv2.cvtColor`, `cv2.Sobel` and `cv2.boxFilter` call into OpenCV. The lambda-minus map, the window sums Sx2/Sy2/Sxy and the gray image are therefore inputs to the model.
- The structure tensor and `np.linalg.eig` (lines 24-36) are floating-point linear algebra. The lambda-minus map is an input.
- `draw_matches` (lines 147-156) only draws with OpenCV.
- Floating point: every map and score is an exact `real`, with no rounding, no infinities and no NaN.
- Matching.Partner: the correlation score (lines 136-139) is a function supplied from outside. The norms, the square root, and the division by zero (or NaN) for an all-zero descriptor are not modelled. The 8-bit wrap of the element-wise product `descriptor1 * descriptor2` is not modelled either.
- Matching.MatchFeatures: the exact SSD is used; the 8-bit wrap of numpy's uint8 arithmetic is modelled separately (see Findings). The "+∞" initial SSD score is modelled as "no best index yet".
- Matching.MatchFeatures: the method string is the `Metric` datatype; any string other than `'SSD'` selects correlation.
- Matching.MatchFeatures: SSD requires all descriptors to have the same length. numpy broadcasting on unequal lengths raises or broadcasts, and that is not modelled.
- Descriptors.ExtractDescriptors: the `NonNegative` precondition excludes corners with a negative coordinate. The source clamps each slice start with `max(0, …)` (lines 98 and 100), but the slice stop `min(W, x + p//2)` (lines 99 and 101) can be negative, and numpy then counts it from the end of the axis. Such a corner can survive, with a patch taken from the top or left edge. For example, W = 20, x = −12 and p = 16 give the column slice `[0:-4]`: columns 0 to 15, width 16. Both detectors only produce non-negative corners.
- Descriptors.ExtractDescriptors: `patch_size` is a natural number; negative sizes are not modelled.
- Descriptors.ExtractDescriptors: gray levels are 8-bit (`Pixel` is 0..255). The source also accepts uint16 and float32 images, whose gray image keeps that type. For those, the SSD at line 131 wraps modulo 65536 or does not wrap at all, so the Finding below is specific to 8-bit images.
- Descriptors.ExtractDescriptors: the result is a sequence of descriptors, not a 2-D `np.array`; the dtype of an empty result is not modelled.
- LambdaMinus.NonMaxSuppression: the map must be non-empty, because `np.max` of an empty array raises.
- Harris.HarrisCorners: the window sums must be non-empty, because `np.max` of an empty response raises (line 74).
- LambdaMinus.NonMaxSuppression: `window_size` is a natural number. The source always raises on a negative window. `np.max` of an empty window slice raises ValueError at line 52, or else the inner `range(w, W - w)` at line 46 reaches x = W and line 47 raises IndexError. The model cannot express that input.
- Harris.HarrisCornersScaleInvariant: the scale factor must be non-zero, because scaling by 0 makes every response 0 and changes the selection.
- Corner axes: lambda-minus corners are `(x, y)` and Harris cells are `(row, column)` = `(y, x)`, as in the code. Descriptor extraction reads corners as `(x, y)`.

## Findings

| source | as written | input that shows it | evidently intended | confidence | as-written member | corrected member |
|---|---|---|---|---|---|---|
| feature_extraction.py:131 | `(descriptor1 - descriptor2) ** 2` on uint8 descriptors wraps both the difference and its square modulo 256 | descriptors [0] and [16]: difference 240, square 57600 ≡ 0, SSD 0; matching [[16], [0]] against itself pairs [0] with index 0 | the SSD of the exact integer differences, so that identical descriptors (and only they) score 0 and distinct descriptors match themselves | not executed | Matching.WrappedSsdSelfMatchFails | Matching.SelfMatch |
