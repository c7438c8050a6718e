/** Geometry of blocks: the integer scaling factor between the two images,
    the full-resolution footprint of each downsampled cell, and the
    classification written into one footprint. */
module BlockMask {
  import opened Common

  /** The scaling factor sf = maskCols / miniCols (integer division),
      accepted only when it reproduces both full-resolution dimensions
      exactly. A downsampled image with no columns has no factor. */
  function ScalingFactor(maskRows: nat, maskCols: nat, miniRows: nat, miniCols: nat): Result<nat>
  {
    if miniCols == 0 then Err(InvalidScalingFactor)
    else
      var sf := maskCols / miniCols;
      if sf * miniCols == maskCols && sf * miniRows == maskRows then Ok(sf)
      else Err(InvalidScalingFactor)
  }

  /** The check accepts exactly the pairs of sizes related by one integer
      factor on both axes, and then returns that factor. */
  lemma ScalingFactorIff(maskRows: nat, maskCols: nat, miniRows: nat, miniCols: nat, sf: nat)
    ensures ScalingFactor(maskRows, maskCols, miniRows, miniCols) == Ok(sf) <==>
              miniCols > 0 && maskCols == sf * miniCols && maskRows == sf * miniRows
  {
    if miniCols > 0 && maskCols == sf * miniCols {
      MulDiv(sf, miniCols);
    }
  }

  lemma MulDiv(a: nat, b: nat)
    requires b > 0
    ensures (a * b) / b == a
  {
    DivUnique(a * b, b, a);
  }

  lemma MulMono(x: int, y: int, k: int)
    requires x <= y && k >= 0
    ensures x * k <= y * k
  {
    assert y * k - x * k == (y - x) * k;
  }

  /** The quotient is the unique q with q*sf <= p < q*sf + sf. */
  lemma DivUnique(p: int, sf: int, q: int)
    requires sf > 0 && q * sf <= p < q * sf + sf
    ensures p / sf == q
  {
    var d, m := p / sf, p % sf;
    assert p == d * sf + m && 0 <= m < sf;
    if d < q {
      MulMono(d + 1, q, sf);
    } else if d > q {
      MulMono(q + 1, d, sf);
    }
  }

  /** A 100 x 100 image over a 25 x 25 one has factor 4; over a 30 x 30 one
      it has none. */
  lemma ScalingExamples()
    ensures ScalingFactor(100, 100, 25, 25) == Ok(4)
    ensures ScalingFactor(100, 100, 30, 30) == Err(InvalidScalingFactor)
  {
  }

  /** Cells processed by the filter: every cell except the outermost rows and
      columns, so that the whole 3 x 3 neighbourhood exists. */
  predicate IsInterior(r: int, c: int, miniRows: int, miniCols: int)
  {
    1 <= r <= miniRows - 2 && 1 <= c <= miniCols - 2
  }

  /** The downsampled cell index along one axis of a full-resolution
      coordinate. */
  function BlockOf(p: int, sf: int): int
  {
    if sf > 0 then p / sf else 0
  }

  /** Pixel (rr, cc) lies in the footprint [c*sf, (c+1)*sf) x [r*sf, (r+1)*sf)
      of cell (r, c). */
  predicate InFootprint(rr: int, cc: int, r: int, c: int, sf: int)
  {
    r * sf <= rr < (r + 1) * sf && c * sf <= cc < (c + 1) * sf
  }

  /** Along one axis, coordinate p lies in the range of cell b exactly when
      b is the cell of p. */
  lemma FootprintOwner(p: int, b: int, sf: int)
    requires sf > 0
    ensures b * sf <= p < (b + 1) * sf <==> BlockOf(p, sf) == b
  {
    assert (b + 1) * sf == b * sf + sf;
    if b * sf <= p < (b + 1) * sf {
      DivUnique(p, sf, b);
    }
    if p / sf == b {
      assert p == (p / sf) * sf + p % sf;
    }
  }

  /** Pixel (rr, cc) is in the footprint of exactly one cell: the one given
      by BlockOf on both axes. */
  lemma FootprintIsBlock(rr: int, cc: int, r: int, c: int, sf: int)
    requires sf > 0
    ensures InFootprint(rr, cc, r, c, sf) <==> BlockOf(rr, sf) == r && BlockOf(cc, sf) == c
  {
    FootprintOwner(rr, r, sf);
    FootprintOwner(cc, c, sf);
  }

  /** The footprints of two different cells share no pixel. */
  lemma FootprintsDisjoint(r1: int, c1: int, r2: int, c2: int, sf: int, rr: int, cc: int)
    requires sf > 0
    requires r1 != r2 || c1 != c2
    ensures !(InFootprint(rr, cc, r1, c1, sf) && InFootprint(rr, cc, r2, c2, sf))
  {
    FootprintIsBlock(rr, cc, r1, c1, sf);
    FootprintIsBlock(rr, cc, r2, c2, sf);
  }

  /** The footprint of cell b of an axis with n cells lies inside the
      sf * n full-resolution coordinates of that axis. */
  lemma FootprintInside(b: int, n: int, sf: nat)
    requires 0 <= b < n
    ensures 0 <= b * sf <= (b + 1) * sf <= n * sf
  {
    MulMono(0, b, sf);
    MulMono(b + 1, n, sf);
  }

  /** The label of one full-resolution pixel of intensity v: 0 when its
      smoothed-histogram value is above the threshold, 1 otherwise. */
  function Label(hist: seq<real>, t: real, v: byte): byte
    requires |hist| == 256
  {
    if hist[v] > t then 0 else 1
  }

  /** Labels every pixel of the rectangle [xMin, xMax) x [yMin, yMax) of `out`
      from the intensity of the same pixel of `mask`, column by column; no
      other pixel changes. */
  method WriteBlock(out: array2<byte>, mask: array2<byte>, hist: seq<real>, t: real,
                    xMin: int, xMax: int, yMin: int, yMax: int)
    requires out != mask
    requires out.Length0 == mask.Length0 && out.Length1 == mask.Length1
    requires 0 <= xMin <= xMax <= out.Length1 && 0 <= yMin <= yMax <= out.Length0
    requires |hist| == 256
    modifies out
    ensures forall rr, cc :: 0 <= rr < out.Length0 && 0 <= cc < out.Length1 ==>
              out[rr, cc] == if yMin <= rr < yMax && xMin <= cc < xMax
                             then Label(hist, t, mask[rr, cc]) else old(out[rr, cc])
  {
    var cc := xMin;
    while cc < xMax
      invariant xMin <= cc <= xMax
      invariant forall rr, cc' :: 0 <= rr < out.Length0 && 0 <= cc' < out.Length1 ==>
                  out[rr, cc'] == if yMin <= rr < yMax && xMin <= cc' < cc
                                  then Label(hist, t, mask[rr, cc']) else old(out[rr, cc'])
    {
      var rr := yMin;
      while rr < yMax
        invariant yMin <= rr <= yMax
        invariant forall rr', cc' :: 0 <= rr' < out.Length0 && 0 <= cc' < out.Length1 ==>
                    out[rr', cc'] == if (yMin <= rr' < yMax && xMin <= cc' < cc) || (yMin <= rr' < rr && cc' == cc)
                                     then Label(hist, t, mask[rr', cc']) else old(out[rr', cc'])
      {
        var g := hist[mask[rr, cc]];
        out[rr, cc] := if g > t then 0 else 1;
        rr := rr + 1;
      }
      cc := cc + 1;
    }
  }
}
