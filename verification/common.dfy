/** Values shared by every stage of the filter: 8-bit pixels, the error kinds
    the filter can report, and the reductions (sum, maximum) it applies to
    histograms. */
module Common {

  /** An 8-bit single-channel pixel, as stored in the input images. */
  newtype byte = x: int | 0 <= x < 256

  /** The two conditions under which the filter refuses to produce a mask. */
  datatype Error = InvalidScalingFactor | ThresholdSearchDidNotConverge

  datatype Result<T> = Ok(value: T) | Err(error: Error)

  function Abs(x: real): (r: real)
    ensures r >= 0.0 && (r == x || r == -x)
  {
    if x < 0.0 then -x else x
  }

  /** Sum of all entries, accumulated from the first to the last. */
  function Sum(s: seq<real>): real
    decreases |s|
  {
    if |s| == 0 then 0.0 else Sum(s[..|s| - 1]) + s[|s| - 1]
  }

  /** Largest entry of a non-empty vector. */
  function Max(s: seq<real>): (m: real)
    requires |s| > 0
    ensures m in s
    ensures forall i :: 0 <= i < |s| ==> s[i] <= m
    decreases |s|
  {
    if |s| == 1 then s[0]
    else
      var m' := Max(s[..|s| - 1]);
      assert forall i :: 0 <= i < |s| - 1 ==> s[i] == s[..|s| - 1][i];
      if s[|s| - 1] > m' then s[|s| - 1] else m'
  }

  lemma {:induction false} SumPositive(s: seq<real>)
    requires |s| > 0
    requires forall i :: 0 <= i < |s| ==> s[i] > 0.0
    ensures Sum(s) > 0.0
    decreases |s|
  {
    var p := s[..|s| - 1];
    if |p| > 0 {
      assert forall i :: 0 <= i < |p| ==> p[i] == s[i];
      SumPositive(p);
    }
  }

  lemma {:induction false} SumNonnegative(s: seq<real>)
    requires forall i :: 0 <= i < |s| ==> s[i] >= 0.0
    ensures Sum(s) >= 0.0
    decreases |s|
  {
    if |s| > 0 {
      var p := s[..|s| - 1];
      assert forall i :: 0 <= i < |p| ==> p[i] == s[i];
      SumNonnegative(p);
    }
  }

  /** Dividing every entry by d divides the sum by d. */
  lemma {:induction false} SumScaled(s: seq<real>, d: real)
    requires d != 0.0
    ensures Sum(seq(|s|, i requires 0 <= i < |s| => s[i] / d)) == Sum(s) / d
    decreases |s|
  {
    var q := seq(|s|, i requires 0 <= i < |s| => s[i] / d);
    if |s| > 0 {
      var p := s[..|s| - 1];
      assert q[..|q| - 1] == seq(|p|, i requires 0 <= i < |p| => p[i] / d);
      SumScaled(p, d);
      assert Sum(q) == Sum(p) / d + s[|s| - 1] / d;
    }
  }
}
