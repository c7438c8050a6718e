/** The 256 x 256 table of pairwise intensity similarities. Entry (j, i) is
    the Gaussian weight of the intensity distance |i - j| and is stored
    row-major at offset j * 256 + i. The Gaussian itself is abstracted as a
    weight profile `w`, indexed by distance, with w[0] == 1 and every weight
    positive. */
module GaussianKernel {
  import opened Common

  /** Number of intensity levels of an 8-bit image. */
  const Levels: int := 256
  /** Number of entries of the flat kernel table. */
  const TableSize: int := 65536

  /** Row-major offset of kernel entry (j, i). */
  function Coef(j: int, i: int): int
  {
    j * 256 + i
  }

  /** Distance between two intensities. */
  function Dist(i: int, j: int): (d: int)
    ensures d >= 0 && (d == i - j || d == j - i)
  {
    if i >= j then i - j else j - i
  }

  /** A weight profile over the distances 0..255: the value of the Gaussian
      at distance d, which is 1 at distance 0 and positive everywhere. */
  predicate ValidWeights(w: seq<real>)
  {
    |w| == Levels && w[0] == 1.0 && forall d :: 0 <= d < Levels ==> w[d] > 0.0
  }

  /** Kernel entry (j, i): the weight of the distance between i and j. */
  function KernelValue(w: seq<real>, j: int, i: int): real
    requires |w| == Levels && 0 <= j < Levels && 0 <= i < Levels
  {
    w[Dist(i, j)]
  }

  /** `k` is the flat row-major layout of the kernel of `w`. */
  predicate IsKernelTable(k: seq<real>, w: seq<real>)
    requires |w| == Levels
  {
    |k| == TableSize &&
    forall j, i :: 0 <= j < Levels && 0 <= i < Levels ==> k[Coef(j, i)] == KernelValue(w, j, i)
  }

  /** The kernel table, entry by entry: offset n holds entry (n / 256, n % 256). */
  function KernelTable(w: seq<real>): (k: seq<real>)
    requires |w| == Levels
    ensures |k| == TableSize
  {
    seq(TableSize, n requires 0 <= n < TableSize => KernelValue(w, n / 256, n % 256))
  }

  /** Kernel row j: the weights of every intensity i against intensity j. */
  function KernelRow(k: seq<real>, j: int): (row: seq<real>)
    requires |k| == TableSize && 0 <= j < Levels
    ensures |row| == Levels
    ensures forall i :: 0 <= i < Levels ==> row[i] == k[Coef(j, i)]
  {
    k[Coef(j, 0)..Coef(j, 0) + Levels]
  }

  /** Row j of the kernel of `w`, computed from the weights. */
  function WeightRow(w: seq<real>, j: int): (row: seq<real>)
    requires |w| == Levels && 0 <= j < Levels
    ensures |row| == Levels
  {
    seq(Levels, i requires 0 <= i < Levels => KernelValue(w, j, i))
  }

  /** Every offset of the table is j * 256 + i for exactly one (j, i). */
  lemma CoefDecompose(j: int, i: int)
    requires 0 <= j < Levels && 0 <= i < Levels
    ensures 0 <= Coef(j, i) < TableSize
    ensures Coef(j, i) / 256 == j && Coef(j, i) % 256 == i
  {
  }

  lemma CoefOf(n: int)
    requires 0 <= n < TableSize
    ensures 0 <= n / 256 < Levels && 0 <= n % 256 < Levels
    ensures n == Coef(n / 256, n % 256)
  {
  }

  /** The table exists and is unique: KernelTable is a row-major layout of
      the kernel, and any layout equals it. Building the table twice from
      the same weights therefore gives the same table. */
  lemma KernelTableUnique(k: seq<real>, w: seq<real>)
    requires |w| == Levels
    ensures IsKernelTable(KernelTable(w), w)
    ensures IsKernelTable(k, w) ==> k == KernelTable(w)
  {
    forall j, i | 0 <= j < Levels && 0 <= i < Levels
      ensures KernelTable(w)[Coef(j, i)] == KernelValue(w, j, i)
    {
      CoefDecompose(j, i);
    }
    if IsKernelTable(k, w) {
      forall n | 0 <= n < TableSize
        ensures k[n] == KernelTable(w)[n]
      {
        CoefOf(n);
      }
    }
  }

  /** In any layout of the kernel, entry (j, i) equals entry (i, j) and the
      diagonal is 1. */
  lemma KernelSymmetric(k: seq<real>, w: seq<real>, j: int, i: int)
    requires ValidWeights(w) && IsKernelTable(k, w)
    requires 0 <= j < Levels && 0 <= i < Levels
    ensures k[Coef(j, i)] == k[Coef(i, j)]
    ensures k[Coef(j, j)] == 1.0
  {
    assert k[Coef(j, i)] == KernelValue(w, j, i);
    assert k[Coef(i, j)] == KernelValue(w, i, j);
    assert k[Coef(j, j)] == KernelValue(w, j, j);
  }

  /** Row j of a layout is the row of weights computed from `w`, so the row
      sums recorded beside the table are the sums of the weight rows. */
  lemma KernelRowIsWeightRow(k: seq<real>, w: seq<real>, j: int)
    requires |w| == Levels && IsKernelTable(k, w) && 0 <= j < Levels
    ensures KernelRow(k, j) == WeightRow(w, j)
  {
    assert forall i :: 0 <= i < Levels ==> KernelRow(k, j)[i] == k[Coef(j, i)];
  }

  /** Each row holds the diagonal weight 1 and only positive weights, so its
      sum is at least 1. */
  lemma RowSumAtLeastOne(w: seq<real>, j: int)
    requires ValidWeights(w) && 0 <= j < Levels
    ensures Sum(WeightRow(w, j)) >= 1.0
  {
    var row := WeightRow(w, j);
    assert row[j] == 1.0;
    SumAtLeastEntry(row, j);
  }

  lemma {:induction false} SumAtLeastEntry(s: seq<real>, m: int)
    requires 0 <= m < |s|
    requires forall i :: 0 <= i < |s| ==> s[i] >= 0.0
    ensures Sum(s) >= s[m]
    decreases |s|
  {
    var p := s[..|s| - 1];
    assert forall i :: 0 <= i < |p| ==> p[i] == s[i];
    if m == |s| - 1 {
      SumNonnegative(p);
    } else {
      SumAtLeastEntry(p, m);
    }
  }
}
