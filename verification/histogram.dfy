/** The smoothed local histogram of one block: the kernel rows selected by the
    intensities of the block's 3 x 3 neighbourhood, added up entry by entry,
    then divided by their total. */
module LocalHistogram {
  import opened Common
  import opened GaussianKernel

  /** Entry t of the accumulated histogram after adding the kernel rows of
      the intensities in `pix`, in that order. */
  function ColumnSum(w: seq<real>, pix: seq<byte>, t: int): real
    requires |w| == Levels && 0 <= t < Levels
    decreases |pix|
  {
    if |pix| == 0 then 0.0
    else ColumnSum(w, pix[..|pix| - 1], t) + KernelValue(w, pix[|pix| - 1] as int, t)
  }

  lemma ColumnSumStep(w: seq<real>, pix: seq<byte>, q: int, t: int)
    requires |w| == Levels && 0 <= t < Levels && 0 <= q < |pix|
    ensures ColumnSum(w, pix[..q + 1], t) == ColumnSum(w, pix[..q], t) + KernelValue(w, pix[q] as int, t)
  {
    assert pix[..q + 1][..q] == pix[..q];
  }

  /** The histogram before normalisation: the sum of the kernel rows of all
      intensities in `pix`. */
  function RawHistogram(w: seq<real>, pix: seq<byte>): (h: seq<real>)
    requires |w| == Levels
    ensures |h| == Levels
  {
    seq(Levels, t requires 0 <= t < Levels => ColumnSum(w, pix, t))
  }

  /** Every entry divided by the total of all entries. */
  function Normalize(h: seq<real>): (n: seq<real>)
    requires Sum(h) != 0.0
    ensures |n| == |h|
  {
    seq(|h|, t requires 0 <= t < |h| => h[t] / Sum(h))
  }

  /** Divides every entry of `a` by the total of its entries. */
  method NormalizeInPlace(a: array<real>)
    requires Sum(a[..]) > 0.0
    modifies a
    ensures a[..] == Normalize(old(a[..]))
  {
    var total := Sum(a[..]);
    ghost var before := a[..];
    var i := 0;
    while i < a.Length
      invariant 0 <= i <= a.Length
      invariant forall t :: 0 <= t < i ==> a[t] == before[t] / total
      invariant forall t :: i <= t < a.Length ==> a[t] == before[t]
    {
      a[i] := a[i] / total;
      i := i + 1;
    }
  }

  /** Adding at least one row of a positive kernel makes every entry
      positive. */
  lemma {:induction false} ColumnSumPositive(w: seq<real>, pix: seq<byte>, t: int)
    requires ValidWeights(w) && 0 <= t < Levels && |pix| > 0
    ensures ColumnSum(w, pix, t) > 0.0
    decreases |pix|
  {
    var p := pix[..|pix| - 1];
    if |p| > 0 {
      ColumnSumPositive(w, p, t);
    }
  }

  /** The raw histogram of a non-empty neighbourhood is strictly positive,
      so its total is positive and normalising it is well defined. */
  lemma RawHistogramPositive(w: seq<real>, pix: seq<byte>)
    requires ValidWeights(w) && |pix| > 0
    ensures forall t :: 0 <= t < Levels ==> RawHistogram(w, pix)[t] > 0.0
    ensures Sum(RawHistogram(w, pix)) > 0.0
  {
    forall t | 0 <= t < Levels
      ensures RawHistogram(w, pix)[t] > 0.0
    {
      ColumnSumPositive(w, pix, t);
    }
    SumPositive(RawHistogram(w, pix));
  }

  /** A normalised histogram sums to one, and positive entries stay
      positive. */
  lemma NormalizeSumsToOne(h: seq<real>)
    requires Sum(h) > 0.0
    ensures Sum(Normalize(h)) == 1.0
    ensures forall t :: 0 <= t < |h| && h[t] > 0.0 ==> Normalize(h)[t] > 0.0
  {
    var total := Sum(h);
    SumScaled(h, total);
    assert Normalize(h) == seq(|h|, t requires 0 <= t < |h| => h[t] / total);
    assert total / total == 1.0;
    forall t | 0 <= t < |h| && h[t] > 0.0
      ensures Normalize(h)[t] > 0.0
    {
      QuotientPositive(h[t], total);
    }
  }

  lemma QuotientPositive(a: real, b: real)
    requires a > 0.0 && b > 0.0
    ensures a / b > 0.0
  {
  }

  /** When every neighbourhood intensity is the same value p, each entry is
      the number of samples times the weight of its distance to p: the
      histogram is a single peak centred on p. */
  lemma {:induction false} UniformNeighbourhood(w: seq<real>, pix: seq<byte>, p: byte, t: int)
    requires ValidWeights(w) && 0 <= t < Levels
    requires forall q :: 0 <= q < |pix| ==> pix[q] == p
    ensures ColumnSum(w, pix, t) == |pix| as real * w[Dist(t, p as int)]
    decreases |pix|
  {
    if |pix| > 0 {
      var q := pix[..|pix| - 1];
      UniformNeighbourhood(w, q, p, t);
    }
  }
}
