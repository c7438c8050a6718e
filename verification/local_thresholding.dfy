/** The local thresholding filter. Its configuration is fixed when it is
    built, together with the kernel table and the table of kernel row sums.
    `Run` takes a full-resolution image and a downsampled image of the same
    scene. For every interior cell of the downsampled image it builds the
    smoothed histogram of the cell's 3 x 3 neighbourhood, finds the cell's
    threshold by bisection, and labels every full-resolution pixel of the
    cell's footprint against that threshold. */
module LocalThresholdingFilter {
  import opened Common
  import opened GaussianKernel
  import opened LocalHistogram
  import opened ThresholdSearch
  import opened BlockMask

  /** An image as a value: a sequence of rows, all `cols` pixels wide. */
  predicate IsGrid(img: seq<seq<byte>>, cols: int)
  {
    forall i :: 0 <= i < |img| ==> |img[i]| == cols
  }

  /** The pixels of an image array, as a value. */
  ghost function Snapshot(a: array2<byte>): (img: seq<seq<byte>>)
    reads a
    ensures |img| == a.Length0 && IsGrid(img, a.Length1)
    ensures forall i, j :: 0 <= i < a.Length0 && 0 <= j < a.Length1 ==> img[i][j] == a[i, j]
  {
    seq(a.Length0, i requires 0 <= i < a.Length0 reads a =>
      seq(a.Length1, j requires 0 <= j < a.Length1 reads a => a[i, j]))
  }

  /** The intensities of the 3 x 3 neighbourhood of cell (r, c), in the
      order the filter visits them: column offset outer, row offset inner,
      each from -1 to 1. */
  function Neighbourhood(img: seq<seq<byte>>, cols: int, r: int, c: int): (pix: seq<byte>)
    requires IsGrid(img, cols) && IsInterior(r, c, |img|, cols)
    ensures |pix| == 9
  {
    [img[r - 1][c - 1], img[r][c - 1], img[r + 1][c - 1],
     img[r - 1][c], img[r][c], img[r + 1][c],
     img[r - 1][c + 1], img[r][c + 1], img[r + 1][c + 1]]
  }

  lemma NeighbourhoodAt(img: seq<seq<byte>>, cols: int, r: int, c: int, x: int, y: int)
    requires IsGrid(img, cols) && IsInterior(r, c, |img|, cols)
    requires -1 <= x <= 1 && -1 <= y <= 1
    ensures Neighbourhood(img, cols, r, c)[3 * (x + 1) + (y + 1)] == img[r + y][c + x]
  {
  }

  /** Cell (r, c) of a rows x cols downsampled image has been processed once
      the column loop is at column cNow and the row loop at row rNow. */
  predicate Processed(r: int, c: int, rows: int, cols: int, cNow: int, rNow: int)
  {
    IsInterior(r, c, rows, cols) && (c < cNow || (c == cNow && r < rNow))
  }

  class LocalThresholding {
    /** Iteration budget of the bisection search. */
    const numThresholds: nat
    /** Capped mass the bisection search aims for. */
    const targetSum: real
    /** The Gaussian weight of every intensity distance 0..255. */
    const weight: seq<real>
    /** The flat kernel table: row j occupies offsets j * 256 .. j * 256 + 255. */
    const kernel: array<real>
    /** The sum of every kernel row. */
    const sums: array<real>

    ghost predicate Valid()
      reads kernel, sums
    {
      ValidWeights(weight) && kernel.Length == TableSize && sums.Length == Levels &&
      IsKernelTable(kernel[..], weight) &&
      forall j :: 0 <= j < Levels ==> sums[j] == Sum(KernelRow(kernel[..], j))
    }

    /** Stores the configuration and precomputes the kernel tables. */
    constructor (numThresholds: nat, targetSum: real, weight: seq<real>)
      requires ValidWeights(weight)
      ensures this.numThresholds == numThresholds && this.targetSum == targetSum
      ensures this.weight == weight
      ensures fresh(kernel) && fresh(sums) && Valid()
    {
      this.numThresholds := numThresholds;
      this.targetSum := targetSum;
      this.weight := weight;
      kernel := new real[TableSize];
      sums := new real[Levels];
      new;
      PrecalculateGaussian();
    }

    /** Fills the kernel table row by row and records the sum of each row. */
    method PrecalculateGaussian()
      requires ValidWeights(weight) && kernel.Length == TableSize && sums.Length == Levels
      modifies kernel, sums
      ensures Valid()
    {
      var j := 0;
      while j < 256
        invariant 0 <= j <= 256
        invariant forall jj, i :: 0 <= jj < j && 0 <= i < Levels ==> kernel[Coef(jj, i)] == KernelValue(weight, jj, i)
        invariant forall jj :: 0 <= jj < j ==> sums[jj] == Sum(WeightRow(weight, jj))
      {
        var sum := FillKernelRow(j);
        sums[j] := sum;
        j := j + 1;
      }
      TableFilled();
      forall jj | 0 <= jj < Levels
        ensures sums[jj] == Sum(KernelRow(kernel[..], jj))
      {
        KernelRowIsWeightRow(kernel[..], weight, jj);
      }
    }

    /** Once every entry (j, i) is in place, the array is a layout of the
        kernel. */
    lemma TableFilled()
      requires ValidWeights(weight) && kernel.Length == TableSize
      requires forall j, i :: 0 <= j < Levels && 0 <= i < Levels ==> kernel[Coef(j, i)] == KernelValue(weight, j, i)
      ensures IsKernelTable(kernel[..], weight)
    {
      forall j, i | 0 <= j < Levels && 0 <= i < Levels
        ensures kernel[..][Coef(j, i)] == KernelValue(weight, j, i)
      {
        CoefDecompose(j, i);
      }
    }

    /** Every recorded row sum is the sum of a row holding the diagonal
        weight 1 and positive weights elsewhere, so it is at least 1. */
    lemma RowSumsAtLeastOne()
      requires Valid()
      ensures forall j :: 0 <= j < Levels ==> sums[j] >= 1.0
    {
      forall j | 0 <= j < Levels
        ensures sums[j] >= 1.0
      {
        KernelRowIsWeightRow(kernel[..], weight, j);
        RowSumAtLeastOne(weight, j);
      }
    }

    /** Fills row j of the kernel table, entry (j, i) at offset j * 256 + i
        with the weight of |i - j|, and returns the sum of the row. No other
        row changes. */
    method FillKernelRow(j: int) returns (sum: real)
      requires ValidWeights(weight) && kernel.Length == TableSize && 0 <= j < Levels
      modifies kernel
      ensures forall i :: 0 <= i < Levels ==> kernel[Coef(j, i)] == KernelValue(weight, j, i)
      ensures forall n :: 0 <= n < Coef(j, 0) ==> kernel[n] == old(kernel[n])
      ensures forall n :: Coef(j, 0) + Levels <= n < TableSize ==> kernel[n] == old(kernel[n])
      ensures sum == Sum(WeightRow(weight, j))
    {
      ghost var row: seq<real> := [];
      sum := 0.0;
      var i := 0;
      while i < 256
        invariant 0 <= i <= 256 && |row| == i
        invariant sum == Sum(row)
        invariant forall i' :: 0 <= i' < i ==> row[i'] == KernelValue(weight, j, i')
        invariant forall i' :: 0 <= i' < i ==> kernel[Coef(j, i')] == KernelValue(weight, j, i')
        invariant forall n :: 0 <= n < Coef(j, 0) ==> kernel[n] == old(kernel[n])
        invariant forall n :: Coef(j, 0) + Levels <= n < TableSize ==> kernel[n] == old(kernel[n])
      {
        var coef := Coef(j, i);
        var distFromMean := Dist(i, j);
        var res := weight[distFromMean];
        kernel[coef] := res;
        assert (row + [res])[..i] == row;
        row := row + [res];
        sum := sum + res;
        i := i + 1;
      }
      assert row == WeightRow(weight, j);
    }


    /** The normalised smoothed histogram of interior cell (r, c). */
    ghost function BlockHistogram(img: seq<seq<byte>>, cols: int, r: int, c: int): (h: seq<real>)
      requires ValidWeights(weight) && IsGrid(img, cols) && IsInterior(r, c, |img|, cols)
      ensures |h| == Levels && Sum(h) == 1.0
      ensures forall t :: 0 <= t < Levels ==> h[t] > 0.0
    {
      var pix := Neighbourhood(img, cols, r, c);
      RawHistogramPositive(weight, pix);
      NormalizeSumsToOne(RawHistogram(weight, pix));
      Normalize(RawHistogram(weight, pix))
    }

    /** The outcome of the threshold search of interior cell (r, c). */
    ghost function BlockSearch(img: seq<seq<byte>>, cols: int, r: int, c: int): Result<real>
      requires ValidWeights(weight) && IsGrid(img, cols) && IsInterior(r, c, |img|, cols)
    {
      Search(BlockHistogram(img, cols, r, c), targetSum, numThresholds)
    }

    /** The label the filter gives full-resolution pixel (rr, cc) of
        intensity v: the label from the threshold of the cell whose footprint
        holds it when that cell is interior, and 0 on the border. */
    ghost function ExpectedPixel(img: seq<seq<byte>>, cols: int, sf: nat, rr: int, cc: int, v: byte): byte
      requires ValidWeights(weight) && IsGrid(img, cols)
    {
      var r, c := BlockOf(rr, sf), BlockOf(cc, sf);
      if IsInterior(r, c, |img|, cols) then
        match BlockSearch(img, cols, r, c)
        case Ok(t) => Label(BlockHistogram(img, cols, r, c), t, v)
        case Err(_) => 0
      else 0
    }

    /** On an image whose every pixel has intensity p, each entry t of the
        histogram of any interior cell before normalisation is 9 times the
        weight of the distance between t and p, a single peak centred on p;
        so every interior cell gets the same histogram and the same search
        outcome. */
    lemma UniformImage(img: seq<seq<byte>>, cols: int, p: byte, r1: int, c1: int, r2: int, c2: int)
      requires ValidWeights(weight) && IsGrid(img, cols)
      requires forall i, j :: 0 <= i < |img| && 0 <= j < cols ==> img[i][j] == p
      requires IsInterior(r1, c1, |img|, cols) && IsInterior(r2, c2, |img|, cols)
      ensures forall t :: 0 <= t < Levels ==>
                RawHistogram(weight, Neighbourhood(img, cols, r1, c1))[t] == 9.0 * weight[Dist(t, p as int)]
      ensures BlockHistogram(img, cols, r1, c1) == BlockHistogram(img, cols, r2, c2)
      ensures BlockSearch(img, cols, r1, c1) == BlockSearch(img, cols, r2, c2)
    {
      var pix := Neighbourhood(img, cols, r1, c1);
      assert pix == Neighbourhood(img, cols, r2, c2);
      forall t | 0 <= t < Levels
        ensures RawHistogram(weight, pix)[t] == 9.0 * weight[Dist(t, p as int)]
      {
        UniformNeighbourhood(weight, pix, p, t);
      }
    }

    /** Adds the kernel rows of the nine neighbourhood intensities of cell
        (r, c) into a zeroed accumulator, then divides it by its own total. */
    method SmoothedHistogram(mini: array2<byte>, r: int, c: int) returns (hist: seq<real>)
      requires Valid()
      requires IsInterior(r, c, mini.Length0, mini.Length1)
      ensures hist == BlockHistogram(Snapshot(mini), mini.Length1, r, c)
      ensures |hist| == Levels && Sum(hist) == 1.0
      ensures forall t :: 0 <= t < Levels ==> hist[t] > 0.0
    {
      var acc := AccumulateNeighbourhood(mini, r, c);
      RawHistogramPositive(weight, Neighbourhood(Snapshot(mini), mini.Length1, r, c));
      NormalizeInPlace(acc);
      hist := acc[..];
    }

    /** The histogram of cell (r, c) before normalisation: the kernel rows of
        the nine neighbourhood intensities added into a new zeroed array. */
    method AccumulateNeighbourhood(mini: array2<byte>, r: int, c: int) returns (acc: array<real>)
      requires Valid()
      requires IsInterior(r, c, mini.Length0, mini.Length1)
      ensures fresh(acc)
      ensures acc[..] == RawHistogram(weight, Neighbourhood(Snapshot(mini), mini.Length1, r, c))
    {
      ghost var img := Snapshot(mini);
      ghost var pix := Neighbourhood(img, mini.Length1, r, c);
      acc := new real[256](_ => 0.0);
      ghost var n := 0;
      var x := -1;
      while x <= 1
        invariant -1 <= x <= 2 && n == 3 * (x + 1)
        invariant forall t :: 0 <= t < 256 ==> acc[t] == ColumnSum(weight, pix[..n], t)
      {
        var y := -1;
        while y <= 1
          invariant -1 <= y <= 2 && n == 3 * (x + 1) + (y + 1)
          invariant forall t :: 0 <= t < 256 ==> acc[t] == ColumnSum(weight, pix[..n], t)
        {
          var pixVal := mini[r + y, c + x];
          NeighbourhoodAt(img, mini.Length1, r, c, x, y);
          AddKernelRow(acc, pixVal);
          forall t | 0 <= t < Levels
            ensures acc[t] == ColumnSum(weight, pix[..n + 1], t)
          {
            ColumnSumStep(weight, pix, n, t);
          }
          n := n + 1;
          y := y + 1;
        }
        x := x + 1;
      }
      assert pix[..9] == pix;
      assert forall t :: 0 <= t < 256 ==> acc[t] == RawHistogram(weight, pix)[t];
    }


    /** Adds kernel row pixVal into the accumulator, entry by entry. */
    method AddKernelRow(acc: array<real>, pixVal: byte)
      requires Valid() && acc.Length == Levels && acc != kernel
      modifies acc
      ensures forall t :: 0 <= t < Levels ==> acc[t] == old(acc[t]) + KernelValue(weight, pixVal as int, t)
    {
      var i := 0;
      while i < 256
        invariant 0 <= i <= 256
        invariant forall t :: 0 <= t < i ==> acc[t] == old(acc[t]) + KernelValue(weight, pixVal as int, t)
        invariant forall t :: i <= t < 256 ==> acc[t] == old(acc[t])
      {
        var coef := Coef(pixVal as int, i);
        acc[i] := acc[i] + kernel[coef];
        i := i + 1;
      }
    }

    /** Bisection over [0, max(hist)], starting from the midpoint: stops as
        soon as the capped mass is within tolerance of the target, lowers the
        upper end when the capped mass is above the target and raises the
        lower end otherwise, and fails when the last allowed iteration misses
        the tolerance. */
    method Bisect(hist: seq<real>) returns (res: Result<real>)
      requires |hist| == Levels
      ensures res == Search(hist, targetSum, numThresholds)
      ensures res.Ok? && Nonnegative(hist) ==> 0.0 <= res.value <= Max(hist)
      ensures res.Ok? && numThresholds > 0 ==> Within(CappedMass(hist, res.value), targetSum)
    {
      var cappedSum := new real[numThresholds];
      var maxThresh := Max(hist);
      var minThresh := 0.0;
      var localThresh := (maxThresh - minThresh) / 2.0;
      ghost var start := Initial(hist);
      var iter := 0;
      while iter < numThresholds
        invariant iter < numThresholds || iter == 0 == numThresholds
        invariant Bracket(minThresh, maxThresh, localThresh) == Steps(hist, targetSum, start, iter)
        invariant numThresholds > 0 ==>
                    Search(hist, targetSum, numThresholds) ==
                    Iterate(hist, targetSum, Steps(hist, targetSum, start, iter), numThresholds - iter)
      {
        var aggregate := CappedMass(hist, localThresh);
        cappedSum[iter] := aggregate;
        if Within(aggregate, targetSum) {
          res := Ok(localThresh);
          if Nonnegative(hist) {
            SearchSound(hist, targetSum, numThresholds);
          }
          return;
        } else if aggregate > targetSum {
          maxThresh := localThresh;
          localThresh := (minThresh + localThresh) / 2.0;
        } else {
          minThresh := localThresh;
          localThresh := (maxThresh + localThresh) / 2.0;
        }
        if iter >= numThresholds - 1 {
          return Err(ThresholdSearchDidNotConverge);
        }
        iter := iter + 1;
      }
      res := Ok(localThresh);
      if Nonnegative(hist) {
        SearchSound(hist, targetSum, numThresholds);
      }
    }

    /** Processes interior cell (r, c): smoothed histogram, threshold search,
        and, when the search succeeds, the labels of the cell's footprint.
        On failure nothing is written. */
    method ProcessBlock(out: array2<byte>, mask: array2<byte>, mini: array2<byte>, sf: nat, r: int, c: int)
      returns (ok: bool)
      requires Valid()
      requires out != mask && out != mini
      requires out.Length0 == mask.Length0 && out.Length1 == mask.Length1
      requires mask.Length0 == sf * mini.Length0 && mask.Length1 == sf * mini.Length1
      requires IsInterior(r, c, mini.Length0, mini.Length1)
      modifies out
      ensures ok == BlockSearch(Snapshot(mini), mini.Length1, r, c).Ok?
      ensures forall rr, cc :: 0 <= rr < out.Length0 && 0 <= cc < out.Length1 ==>
                out[rr, cc] == if ok && InFootprint(rr, cc, r, c, sf)
                               then ExpectedPixel(Snapshot(mini), mini.Length1, sf, rr, cc, mask[rr, cc])
                               else old(out[rr, cc])
    {
      ghost var img := Snapshot(mini);
      var hist := SmoothedHistogram(mini, r, c);
      var search := Bisect(hist);
      if search.Err? {
        return false;
      }
      var xMin, xMax := c * sf, (c + 1) * sf;
      var yMin, yMax := r * sf, (r + 1) * sf;
      FootprintInside(c, mini.Length1, sf);
      FootprintInside(r, mini.Length0, sf);
      WriteBlock(out, mask, hist, search.value, xMin, xMax, yMin, yMax);
      ok := true;
      forall rr, cc | 0 <= rr < out.Length0 && 0 <= cc < out.Length1 && InFootprint(rr, cc, r, c, sf)
        ensures ExpectedPixel(img, mini.Length1, sf, rr, cc, mask[rr, cc]) == Label(hist, search.value, mask[rr, cc])
      {
        ExpectedPixelOfCell(img, mini.Length1, sf, rr, cc, mask[rr, cc], r, c);
      }
    }

    /** A pixel in the footprint of interior cell (r, c) gets the label from
        that cell's histogram and threshold. */
    lemma ExpectedPixelOfCell(img: seq<seq<byte>>, cols: int, sf: nat, rr: int, cc: int, v: byte, r: int, c: int)
      requires ValidWeights(weight) && IsGrid(img, cols) && IsInterior(r, c, |img|, cols)
      requires InFootprint(rr, cc, r, c, sf) && BlockSearch(img, cols, r, c).Ok?
      ensures ExpectedPixel(img, cols, sf, rr, cc, v) ==
              Label(BlockHistogram(img, cols, r, c), BlockSearch(img, cols, r, c).value, v)
    {
      FootprintIsBlock(rr, cc, r, c, sf);
    }

    /** The search of every interior cell of column c above row r
        converges. */
    ghost predicate ColumnConverged(img: seq<seq<byte>>, cols: int, c: int, r: int)
      requires ValidWeights(weight) && IsGrid(img, cols)
    {
      forall r' :: IsInterior(r', c, |img|, cols) && r' < r ==> BlockSearch(img, cols, r', c).Ok?
    }

    lemma ColumnConvergedStep(img: seq<seq<byte>>, cols: int, c: int, r: int)
      requires ValidWeights(weight) && IsGrid(img, cols) && IsInterior(r, c, |img|, cols)
      requires ColumnConverged(img, cols, c, r) && BlockSearch(img, cols, r, c).Ok?
      ensures ColumnConverged(img, cols, c, r + 1)
    {
    }

    /** Processes the interior cells of column c from top to bottom and
        stops at the first cell whose search fails. On success, every pixel
        whose cell is an interior cell of column c holds its label and no
        other pixel changes. */
    method ProcessColumn(out: array2<byte>, mask: array2<byte>, mini: array2<byte>, sf: nat, c: int)
      returns (ok: bool)
      requires Valid()
      requires out != mask && out != mini
      requires out.Length0 == mask.Length0 && out.Length1 == mask.Length1
      requires mask.Length0 == sf * mini.Length0 && mask.Length1 == sf * mini.Length1
      requires 1 <= c <= mini.Length1 - 2
      modifies out
      ensures ok <==> ColumnConverged(Snapshot(mini), mini.Length1, c, mini.Length0 - 1)
      ensures ok ==> forall rr, cc :: 0 <= rr < out.Length0 && 0 <= cc < out.Length1 ==>
                out[rr, cc] == if IsInterior(BlockOf(rr, sf), BlockOf(cc, sf), mini.Length0, mini.Length1) && BlockOf(cc, sf) == c
                               then ExpectedPixel(Snapshot(mini), mini.Length1, sf, rr, cc, mask[rr, cc])
                               else old(out[rr, cc])
    {
      ghost var img := Snapshot(mini);
      var r := 1;
      while r < mini.Length0 - 1
        invariant 1 <= r && (r <= mini.Length0 - 1 || r == 1)
        invariant Snapshot(mini) == img
        invariant forall rr, cc :: 0 <= rr < out.Length0 && 0 <= cc < out.Length1 ==>
                    out[rr, cc] == if IsInterior(BlockOf(rr, sf), BlockOf(cc, sf), mini.Length0, mini.Length1) &&
                                      BlockOf(cc, sf) == c && BlockOf(rr, sf) < r
                                   then ExpectedPixel(img, mini.Length1, sf, rr, cc, mask[rr, cc])
                                   else old(out[rr, cc])
        invariant ColumnConverged(img, mini.Length1, c, r)
      {
        ok := ProcessBlock(out, mask, mini, sf, r, c);
        if !ok {
          return;
        }
        forall rr, cc | sf > 0 && 0 <= rr < mask.Length0 && 0 <= cc < mask.Length1
          ensures InFootprint(rr, cc, r, c, sf) <==> BlockOf(rr, sf) == r && BlockOf(cc, sf) == c
        {
          FootprintIsBlock(rr, cc, r, c, sf);
        }
        ColumnConvergedStep(img, mini.Length1, c, r);
        r := r + 1;
      }
      ok := true;
    }

    /** Runs the filter. Fails with InvalidScalingFactor when the two images
        are not related by one integer factor on both axes, and with
        ThresholdSearchDidNotConverge when some interior cell's search does
        not converge; otherwise returns a new mask of the full-resolution
        size holding the label of every pixel of an interior footprint and
        0 elsewhere. */
    method Run(mask: array2<byte>, mini: array2<byte>) returns (res: Result<array2<byte>>)
      requires Valid()
      ensures ScalingFactor(mask.Length0, mask.Length1, mini.Length0, mini.Length1).Err? ==>
                res == Err(InvalidScalingFactor)
      ensures ScalingFactor(mask.Length0, mask.Length1, mini.Length0, mini.Length1).Ok? && res.Err? ==>
                res.error == ThresholdSearchDidNotConverge &&
                exists r, c :: IsInterior(r, c, mini.Length0, mini.Length1) &&
                  BlockSearch(Snapshot(mini), mini.Length1, r, c).Err?
      ensures res.Ok? ==>
                ScalingFactor(mask.Length0, mask.Length1, mini.Length0, mini.Length1).Ok? &&
                forall r, c :: IsInterior(r, c, mini.Length0, mini.Length1) ==>
                  BlockSearch(Snapshot(mini), mini.Length1, r, c).Ok?
      ensures res.Ok? ==>
                fresh(res.value) &&
                res.value.Length0 == mask.Length0 && res.value.Length1 == mask.Length1
      ensures res.Ok? ==>
                var sf := ScalingFactor(mask.Length0, mask.Length1, mini.Length0, mini.Length1).value;
                forall rr, cc :: 0 <= rr < mask.Length0 && 0 <= cc < mask.Length1 ==>
                  res.value[rr, cc] == ExpectedPixel(Snapshot(mini), mini.Length1, sf, rr, cc, mask[rr, cc]) &&
                  (res.value[rr, cc] == 0 || res.value[rr, cc] == 1) &&
                  (!IsInterior(BlockOf(rr, sf), BlockOf(cc, sf), mini.Length0, mini.Length1) ==> res.value[rr, cc] == 0)
    {
      if mini.Length1 == 0 {
        return Err(InvalidScalingFactor);
      }
      var scalingFactor := mask.Length1 / mini.Length1;
      if scalingFactor * mini.Length1 != mask.Length1 || scalingFactor * mini.Length0 != mask.Length0 {
        return Err(InvalidScalingFactor);
      }
      var sf: nat := scalingFactor;
      var rows, cols := mini.Length0, mini.Length1;
      ghost var img := Snapshot(mini);
      var tmpMask := new byte[mask.Length0, mask.Length1]((_, _) => 0);
      var c := 1;
      while c < cols - 1
        invariant 1 <= c && (c <= cols - 1 || c == 1)
        invariant Snapshot(mini) == img
        invariant forall rr, cc :: 0 <= rr < mask.Length0 && 0 <= cc < mask.Length1 ==>
                    tmpMask[rr, cc] == if Processed(BlockOf(rr, sf), BlockOf(cc, sf), rows, cols, c, 1)
                                       then ExpectedPixel(img, cols, sf, rr, cc, mask[rr, cc]) else 0
        invariant forall r', c' :: Processed(r', c', rows, cols, c, 1) ==> BlockSearch(img, cols, r', c').Ok?
      {
        var ok := ProcessColumn(tmpMask, mask, mini, sf, c);
        if !ok {
          return Err(ThresholdSearchDidNotConverge);
        }
        c := c + 1;
      }
      return Ok(tmpMask);
    }
  }
}
