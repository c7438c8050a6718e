# Local thresholding filter — a Dafny model

This project models `LocalThresholding<T>`, a spatially adaptive binarisation
filter. It gives every block of a grey-level image its own threshold. The
filter has four stages:

1. **Kernel precomputation.** When the filter is built it fills a flat
   256 x 256 table of Gaussian intensity similarities. Entry (j, i) is stored
   at offset `j * 256 + i` and depends only on `|i - j|`. The filter also
   records the sum of every row.
2. **Smoothed local histogram.** For every interior cell (r, c) of a
   downsampled image, the kernel rows selected by the nine intensities of
   the cell's 3 x 3 neighbourhood are added into a 256-entry accumulator.
   The accumulator is then divided by its own total.
3. **Bisection threshold search.** The search runs over histogram values in
   `[0, max(hist)]`, starting at the midpoint. It looks for a cap `t` whose
   capped mass `sum_k clamp(hist[k], 0, t)` is within `1e-3` of the target
   mass. The search has an iteration budget, and exhausting the budget
   without meeting the tolerance is an error.
4. **Mask write.** The scaling factor between the two images must be one
   exact integer on both axes. Each interior cell labels every pixel of its
   `sf x sf` footprint in a zero-initialised full-resolution mask. A pixel
   gets 0 when the smoothed-histogram value at its intensity exceeds the
   cell's threshold, and 1 otherwise.

### Modelling choices

- `T` is modelled as `real`.
- The Gaussian `exp(-0.5 (d / sigma)^2)` is abstracted as a weight profile
  `weight: seq<real>` over the distances 0..255 (`ValidWeights`). Each weight
  is positive and `weight[0] == 1`. The constructor receives this profile in
  place of `sigma`.
- Images are `array2<byte>`: `Length0` is rows, `Length1` is columns, and
  `at(r, c)` is `a[r, c]`.
- The three run-time assertions of the source become error results. The
  two scaling-factor assertions (lines 67 and 68) both become
  `Err(InvalidScalingFactor)`. The non-convergence assertion (line 148)
  becomes `Err(ThresholdSearchDidNotConverge)`; like the assertion, a
  failing block stops the whole run.
- State the source updates in place is modelled in place:
  - the kernel and row-sum tables are `array<real>` fields of the class;
  - the accumulator is normalised in place;
  - the bisection keeps `minThresh`, `maxThresh` and `localThresh` as
    mutable locals, with the `cappedSum` history array;
  - the mask is written pixel by pixel.
- Each method is proved against pure specification functions:
  - `KernelValue` and `IsKernelTable` for the kernel table;
  - `RawHistogram` and `Normalize` for the smoothed histogram;
  - `Step`, `Steps`, `Iterate` and `Search` for the search;
  - `Label`, `BlockOf` and `ExpectedPixel` for the mask.
- The specification functions read the downsampled image as a value
  (`Snapshot`).

### Files

| file | module | content |
|---|---|---|
| `common.dfy` | `Common` | bytes, results, `Sum`, `Max` |
| `kernel.dfy` | `GaussianKernel` | kernel layout, symmetry, row sums |
| `histogram.dfy` | `LocalHistogram` | accumulated histogram, normalisation |
| `search.dfy` | `ThresholdSearch` | capped mass, bisection state and loop |
| `block_mask.dfy` | `BlockMask` | scaling factor, footprints, block write |
| `local_thresholding.dfy` | `LocalThresholdingFilter` | the class and its stages |

## Model

| member | source | states |
|---|---|---|
| LocalThresholdingFilter.LocalThresholding.constructor | local_thresholding.cpp:10-21 | stores the configuration and leaves a valid kernel table and row-sum table (`Valid`) |
| LocalThresholdingFilter.LocalThresholding.PrecalculateGaussian | local_thresholding.cpp:29-52 | afterwards the table is a row-major layout of the kernel (entry (j, i) at `j*256+i` holds the weight of `abs(i-j)`) and `sums[j]` is the sum of row j |
| LocalThresholdingFilter.LocalThresholding.FillKernelRow | local_thresholding.cpp:38-48 | fills every entry of row j with the weight of its distance, leaves every other row untouched, and returns the sum of the row |
| LocalThresholdingFilter.LocalThresholding.RowSumsAtLeastOne | local_thresholding.cpp:38-50 | every recorded row sum is at least 1 (the diagonal weight) |
| GaussianKernel.Dist | local_thresholding.cpp:44 | the distance is non-negative and is `i-j` or `j-i` |
| GaussianKernel.CoefDecompose | local_thresholding.cpp:43 | offset `j*256+i` is inside the table, and row j and column i are recovered from it by division and remainder |
| GaussianKernel.KernelTableUnique | local_thresholding.cpp:35-46 | a row-major layout of the kernel exists, and any layout equals it, so rebuilding from the same weights gives the same table |
| GaussianKernel.KernelSymmetric | local_thresholding.cpp:43-46 | in any layout, entry (j, i) equals entry (i, j) and the diagonal is 1 |
| GaussianKernel.KernelRowIsWeightRow | local_thresholding.cpp:40-50 | row j of a layout is the row of weights of the distances to j, so the recorded row sums are the sums of those weights |
| GaussianKernel.RowSumAtLeastOne | local_thresholding.cpp:38-50 | the weights of a row sum to at least 1 |
| LocalThresholdingFilter.NeighbourhoodAt | local_thresholding.cpp:86-91 | the neighbourhood visited in x-outer, y-inner order holds at position `3(x+1)+(y+1)` the pixel at offset (y, x) |
| LocalThresholdingFilter.LocalThresholding.AddKernelRow | local_thresholding.cpp:93-99 | adds kernel row `pixVal` to the accumulator entry by entry, i.e. entry t grows by the weight of `abs(t-pixVal)` |
| LocalThresholdingFilter.LocalThresholding.AccumulateNeighbourhood | local_thresholding.cpp:81-101 | the accumulator, started at zero, ends equal to the sum of the kernel rows of the nine neighbourhood intensities |
| LocalHistogram.ColumnSumStep | local_thresholding.cpp:93-98 | adding one more neighbourhood intensity adds its kernel entry to every histogram entry |
| LocalHistogram.RawHistogramPositive | local_thresholding.cpp:81-104 | the accumulated histogram of a non-empty neighbourhood is strictly positive everywhere, so its total is positive |
| LocalHistogram.NormalizeInPlace | local_thresholding.cpp:104-105 | dividing in place by the total yields `Normalize` of the old contents |
| LocalHistogram.NormalizeSumsToOne | local_thresholding.cpp:103-105 | a histogram with positive total sums to exactly 1 after normalisation, and positive entries stay positive |
| LocalThresholdingFilter.LocalThresholding.BlockHistogram | local_thresholding.cpp:81-105 | the smoothed histogram of an interior cell has 256 entries, all positive, summing to 1 |
| LocalThresholdingFilter.LocalThresholding.SmoothedHistogram | local_thresholding.cpp:81-105 | returns the block's smoothed histogram, positive and summing to 1 |
| LocalHistogram.UniformNeighbourhood | local_thresholding.cpp:86-99 | when all neighbourhood intensities equal p, entry t is their count times the weight of `abs(t-p)` |
| LocalThresholdingFilter.LocalThresholding.UniformImage | local_thresholding.cpp:81-149 | on a constant image of intensity p, every interior cell's raw histogram is `9 * weight(abs(t-p))`, and all interior cells get the same histogram and the same search outcome |
| Common.Max | local_thresholding.cpp:109 | the maximum is an element of the histogram and bounds every element |
| ThresholdSearch.CappedMassMonotone | local_thresholding.cpp:122-123 | the capped mass is non-decreasing in the cap |
| ThresholdSearch.CappedMassAtZero | local_thresholding.cpp:122-123 | the capped mass at cap 0 is 0 |
| ThresholdSearch.CappedMassAtTop | local_thresholding.cpp:122-123 | at a cap at or above every entry of a non-negative histogram, the capped mass is the whole mass |
| ThresholdSearch.Initial | local_thresholding.cpp:109-111 | the starting state `[0, max]`, with the candidate at the midpoint, is a well-formed bracket whose upper end bounds every histogram entry |
| ThresholdSearch.Step | local_thresholding.cpp:135-146 | a non-terminating update keeps `lo <= mid <= hi` with `mid` the midpoint, halves the width, stays inside the old interval, and lowers `hi` to `mid` exactly when the capped mass exceeds the target (otherwise raises `lo` to `mid`) |
| ThresholdSearch.StepsNarrow | local_thresholding.cpp:116-146 | after j updates the state is still a bracket inside the starting one, of width `(max-0)/2^j` |
| ThresholdSearch.TargetStaysBracketed | local_thresholding.cpp:130-146 | every update keeps the target between the capped masses at the two ends of the bracket |
| ThresholdSearch.InitialBracketsTarget | local_thresholding.cpp:109-123 | for a target between 0 and the total mass, the starting bracket holds the target |
| ThresholdSearch.IterateErrIff | local_thresholding.cpp:116-148 | the loop fails exactly when none of its k candidates is within tolerance (both directions) |
| ThresholdSearch.IterateOkSound | local_thresholding.cpp:130-134 | a successful loop returns a candidate within tolerance, inside the starting interval |
| ThresholdSearch.IterateFirstHit | local_thresholding.cpp:116-146 | a successful loop returns candidate i, which is within tolerance, and no earlier candidate is: the loop stops at the first candidate within tolerance |
| ThresholdSearch.SearchFirstHit | local_thresholding.cpp:107-149 | with a positive budget, a successful search returns the first of its candidates whose capped mass is within tolerance |
| ThresholdSearch.SearchSound | local_thresholding.cpp:107-149 | a found threshold lies in `[0, max(hist)]` and, with a positive budget, its capped mass is within `1e-3` of the target |
| ThresholdSearch.SearchErrIff | local_thresholding.cpp:107-149 | the search fails exactly when the budget is positive and none of the first n candidates is within tolerance |
| LocalThresholdingFilter.LocalThresholding.Bisect | local_thresholding.cpp:107-149 | the imperative bisection returns exactly `Search(hist, targetSum, numThresholds)`; a success lies in `[0, max]` and, with a positive budget, meets the tolerance |
| BlockMask.ScalingFactorIff | local_thresholding.cpp:66-68 | the check accepts a factor sf exactly when the downsampled image has columns and `maskCols == sf*miniCols` and `maskRows == sf*miniRows` |
| BlockMask.ScalingExamples | local_thresholding.cpp:66-68 | 100x100 over 25x25 gives factor 4; 100x100 over 30x30 is rejected |
| BlockMask.FootprintIsBlock | local_thresholding.cpp:156-159 | a pixel is in the footprint `[c*sf,(c+1)*sf) x [r*sf,(r+1)*sf)` exactly when its cell, by integer division by sf, is (r, c) |
| BlockMask.FootprintsDisjoint | local_thresholding.cpp:156-163 | the footprints of two different cells share no pixel |
| BlockMask.FootprintInside | local_thresholding.cpp:156-159 | the footprint bounds of a cell lie inside the full-resolution extent `sf*n` |
| BlockMask.WriteBlock | local_thresholding.cpp:161-168 | every pixel of the rectangle gets label 0 when the histogram value at its intensity exceeds the threshold and 1 otherwise; every other pixel keeps its value |
| LocalThresholdingFilter.LocalThresholding.ExpectedPixelOfCell | local_thresholding.cpp:156-166 | a pixel in an interior cell's footprint gets that cell's label |
| LocalThresholdingFilter.LocalThresholding.ProcessBlock | local_thresholding.cpp:79-168 | reports whether the cell's search converged; on success labels exactly the cell's footprint, and otherwise writes nothing |
| LocalThresholdingFilter.LocalThresholding.ProcessColumn | local_thresholding.cpp:77-169 | succeeds exactly when every interior cell of the column converges, and then labels exactly the footprints of those cells |
| LocalThresholdingFilter.LocalThresholding.Run | local_thresholding.cpp:60-170 | rejects a non-integer or axis-inconsistent scaling factor; fails with non-convergence only when some interior cell's search fails; on success returns a new mask of the full-resolution size in which every pixel holds its cell's label, every value is 0 or 1, and every pixel outside the interior footprints is 0 |

## Left out

- The Gaussian itself (`std::exp`, `std::pow`, line 45) is not modelled. It is abstracted as a positive weight profile over the distances 0..255, with weight 1 at distance 0. `sigma` is not a parameter of the model.
- LocalThresholdingFilter.LocalThresholding.constructor: requires a valid weight profile (weight 1 at distance 0, every weight positive), so it excludes what the code computes for `sigma == 0`: `0 / 0` is NaN on the diagonal and every other weight is `exp(-inf) == 0`. The model does not describe a filter built from that kernel.
- LocalHistogram.RawHistogramPositive: strict positivity holds over the reals only. In `float`, the weights underflow to exactly 0 beyond a distance of about 216 at `sigma == 15`, so entries far from every neighbourhood intensity can be 0. The diagonal weight 1 still keeps the total positive.
- Floating-point rounding is not modelled: values are exact reals. Convergence within a number of iterations that depends on the float width is not proved.
- LocalThresholdingFilter.LocalThresholding.Run: returns the mask before the morphological close (lines 172-177). The close is an OpenCV call, and the model does not state what the closed mask is.
- main.cpp (image reading and writing, hard-coded parameters) is not part of this model.
- OpenCV matrices and Armadillo columns are re-expressed as Dafny arrays and sequences: `clamp` is `Clamp`, `accu`/`sum` are `Sum`/`CappedMass`, and `max` is `Max`.
- A negative iteration budget is not modelled: `numThresholds` is a `nat`. With a budget of 0 the code never enters the loop and keeps the midpoint `max/2` as the threshold. The model does the same (`Search` with `n == 0`).
- A downsampled image with no columns makes the source divide by zero when computing the scaling factor. The model reports `InvalidScalingFactor` instead.
- The source does not validate its configuration (`sigma <= 0`, `targetSum` outside (0, 1), a non-positive `numThresholds`). A separate configuration error is therefore not modelled. For `targetSum` and `numThresholds` the model follows the code; for `sigma` the constructor instead requires a valid weight profile (see above).
- The recorded row sums are computed and proved correct, but, as in the code, the histogram is normalised by its own accumulated total and never uses them.
- The `cappedSum` history array is written by `Bisect`, as in the source, but it is never read, so no property is stated about it.
- The bound on the number of bisection iterations needed to converge is not proved. The model proves the bracket invariants, halving and failure conditions, not a convergence count.
