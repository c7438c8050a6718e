/** Bisection search for a block's threshold. The search runs over histogram
    VALUES, not intensities: it looks for the cap t at which the capped mass
    sum_k clamp(h[k], 0, t) comes within 1e-3 of the target mass. */
module ThresholdSearch {
  import opened Common

  /** Absolute tolerance on the capped mass. */
  const Tolerance: real := 0.001

  /** armadillo's clamp of one value to [lo, hi]. */
  function Clamp(v: real, lo: real, hi: real): real
  {
    if v < lo then lo else if v > hi then hi else v
  }

  /** Capped mass: the sum of the histogram after clamping every entry to
      [0, t]. */
  function CappedMass(h: seq<real>, t: real): real
    decreases |h|
  {
    if |h| == 0 then 0.0 else CappedMass(h[..|h| - 1], t) + Clamp(h[|h| - 1], 0.0, t)
  }

  predicate Within(mass: real, target: real)
  {
    Abs(mass - target) < Tolerance
  }

  predicate Nonnegative(h: seq<real>)
  {
    forall k :: 0 <= k < |h| ==> h[k] >= 0.0
  }

  /** The capped mass never decreases as the cap grows. */
  lemma {:induction false} CappedMassMonotone(h: seq<real>, t1: real, t2: real)
    requires 0.0 <= t1 <= t2
    ensures CappedMass(h, t1) <= CappedMass(h, t2)
    decreases |h|
  {
    if |h| > 0 {
      CappedMassMonotone(h[..|h| - 1], t1, t2);
    }
  }

  /** A cap of 0 removes all mass. */
  lemma {:induction false} CappedMassAtZero(h: seq<real>)
    ensures CappedMass(h, 0.0) == 0.0
    decreases |h|
  {
    if |h| > 0 {
      CappedMassAtZero(h[..|h| - 1]);
    }
  }

  /** A cap at or above every entry of a non-negative histogram keeps all
      of its mass. */
  lemma {:induction false} CappedMassAtTop(h: seq<real>, t: real)
    requires Nonnegative(h)
    requires forall k :: 0 <= k < |h| ==> h[k] <= t
    ensures CappedMass(h, t) == Sum(h)
    decreases |h|
  {
    if |h| > 0 {
      var p := h[..|h| - 1];
      assert forall k :: 0 <= k < |p| ==> p[k] == h[k];
      CappedMassAtTop(p, t);
    }
  }

  /** The search state: the interval [lo, hi] and the candidate mid. */
  datatype Bracket = Bracket(lo: real, hi: real, mid: real)

  /** The shape every update keeps: lo <= mid <= hi with mid the midpoint. */
  predicate IsBracket(b: Bracket)
  {
    0.0 <= b.lo <= b.mid <= b.hi && b.mid == (b.lo + b.hi) / 2.0
  }

  /** The starting state: [0, max(h)] with the candidate at its middle. */
  function Initial(h: seq<real>): (b: Bracket)
    requires |h| > 0
    ensures Nonnegative(h) ==> IsBracket(b)
    ensures forall k :: 0 <= k < |h| ==> h[k] <= b.hi
  {
    var top := Max(h);
    Bracket(0.0, top, (top - 0.0) / 2.0)
  }

  /** One non-terminating update of the search. When the capped mass at mid
      exceeds the target the upper end drops to mid, otherwise the lower end
      rises to mid; the width halves and the shape is kept. */
  function Step(h: seq<real>, target: real, b: Bracket): (s: Bracket)
    ensures IsBracket(b) ==> IsBracket(s) && s.hi - s.lo == (b.hi - b.lo) / 2.0
    ensures IsBracket(b) ==> b.lo <= s.lo && s.hi <= b.hi
    ensures CappedMass(h, b.mid) > target ==> s.lo == b.lo && s.hi == b.mid
    ensures CappedMass(h, b.mid) <= target ==> s.lo == b.mid && s.hi == b.hi
  {
    if CappedMass(h, b.mid) > target then
      Bracket(b.lo, b.mid, (b.lo + b.mid) / 2.0)
    else
      Bracket(b.mid, b.hi, (b.hi + b.mid) / 2.0)
  }

  /** The state after j updates. */
  function Steps(h: seq<real>, target: real, b: Bracket, j: nat): Bracket
    decreases j
  {
    if j == 0 then b else Step(h, target, Steps(h, target, b, j - 1))
  }

  function Pow2(j: nat): (p: real)
    ensures p >= 1.0
  {
    if j == 0 then 1.0 else 2.0 * Pow2(j - 1)
  }

  /** The loop of the search with k iterations left, from state b: stop with
      the candidate as soon as its capped mass is within tolerance, fail
      when the last iteration misses it. */
  function Iterate(h: seq<real>, target: real, b: Bracket, k: nat): Result<real>
    requires k >= 1
    decreases k
  {
    if Within(CappedMass(h, b.mid), target) then Ok(b.mid)
    else if k == 1 then Err(ThresholdSearchDidNotConverge)
    else Iterate(h, target, Step(h, target, b), k - 1)
  }

  /** The whole search with an iteration budget of n. With a budget of 0 the
      loop never runs and the initial candidate is kept. */
  function Search(h: seq<real>, target: real, n: nat): Result<real>
    requires |h| > 0
  {
    if n == 0 then Ok(Initial(h).mid) else Iterate(h, target, Initial(h), n)
  }

  lemma {:induction false} StepsShift(h: seq<real>, target: real, b: Bracket, j: nat)
    ensures Steps(h, target, Step(h, target, b), j) == Steps(h, target, b, j + 1)
    decreases j
  {
    if j > 0 {
      StepsShift(h, target, b, j - 1);
    }
  }

  /** After j updates the state is still a bracket inside the starting one,
      and its width is the starting width divided by 2^j. */
  lemma {:induction false} StepsNarrow(h: seq<real>, target: real, b: Bracket, j: nat)
    requires IsBracket(b)
    ensures IsBracket(Steps(h, target, b, j))
    ensures b.lo <= Steps(h, target, b, j).lo && Steps(h, target, b, j).hi <= b.hi
    ensures Steps(h, target, b, j).hi - Steps(h, target, b, j).lo == (b.hi - b.lo) / Pow2(j)
    decreases j
  {
    if j > 0 {
      StepsNarrow(h, target, b, j - 1);
      HalveQuotient(b.hi - b.lo, Pow2(j - 1));
    }
  }

  lemma HalveQuotient(x: real, p: real)
    requires p >= 1.0
    ensures x / p / 2.0 == x / (2.0 * p)
  {
    var q := x / p;
    assert q * p == x;
    assert (q / 2.0) * (2.0 * p) == x;
  }

  /** Every update keeps the target between the capped masses at the two
      ends of the bracket. */
  lemma {:induction false} TargetStaysBracketed(h: seq<real>, target: real, b: Bracket, j: nat)
    requires CappedMass(h, b.lo) <= target <= CappedMass(h, b.hi)
    ensures CappedMass(h, Steps(h, target, b, j).lo) <= target <= CappedMass(h, Steps(h, target, b, j).hi)
    decreases j
  {
    if j > 0 {
      TargetStaysBracketed(h, target, b, j - 1);
    }
  }

  /** For a non-negative histogram and a target between 0 and its total
      mass, the starting bracket already holds the target. */
  lemma InitialBracketsTarget(h: seq<real>, target: real)
    requires |h| > 0 && Nonnegative(h)
    requires 0.0 <= target <= Sum(h)
    ensures CappedMass(h, Initial(h).lo) <= target <= CappedMass(h, Initial(h).hi)
  {
    CappedMassAtZero(h);
    CappedMassAtTop(h, Initial(h).hi);
  }

  /** The loop fails exactly when none of the k candidates it tries is
      within tolerance. */
  lemma {:induction false} IterateErrIff(h: seq<real>, target: real, b: Bracket, k: nat)
    requires k >= 1
    ensures Iterate(h, target, b, k).Err? ==>
              forall i :: 0 <= i < k ==> !Within(CappedMass(h, Steps(h, target, b, i).mid), target)
    ensures (forall i :: 0 <= i < k ==> !Within(CappedMass(h, Steps(h, target, b, i).mid), target)) ==>
              Iterate(h, target, b, k).Err?
    decreases k
  {
    assert Steps(h, target, b, 0) == b;
    if Within(CappedMass(h, b.mid), target) {
      assert Iterate(h, target, b, k).Ok?;
    } else if k == 1 {
      assert Iterate(h, target, b, k).Err?;
    } else {
      var s := Step(h, target, b);
      assert Iterate(h, target, b, k) == Iterate(h, target, s, k - 1);
      IterateErrIff(h, target, s, k - 1);
      forall i | 0 <= i < k - 1
        ensures Steps(h, target, s, i) == Steps(h, target, b, i + 1)
      {
        StepsShift(h, target, b, i);
      }
      if Iterate(h, target, s, k - 1).Err? {
        forall i | 0 <= i < k
          ensures !Within(CappedMass(h, Steps(h, target, b, i).mid), target)
        {
          if i > 0 {
            assert Steps(h, target, s, i - 1) == Steps(h, target, b, i);
          }
        }
      } else {
        var i :| 0 <= i < k - 1 && Within(CappedMass(h, Steps(h, target, s, i).mid), target);
        assert Within(CappedMass(h, Steps(h, target, b, i + 1).mid), target);
        assert Iterate(h, target, b, k).Ok?;
      }
    }
  }

  /** A successful loop returns one of the candidates it tried, whose capped
      mass is within tolerance. */
  lemma {:induction false} IterateOkSound(h: seq<real>, target: real, b: Bracket, k: nat)
    requires k >= 1 && IsBracket(b) && Iterate(h, target, b, k).Ok?
    ensures Within(CappedMass(h, Iterate(h, target, b, k).value), target)
    ensures b.lo <= Iterate(h, target, b, k).value <= b.hi
    decreases k
  {
    if !Within(CappedMass(h, b.mid), target) {
      IterateOkSound(h, target, Step(h, target, b), k - 1);
    }
  }

  /** Candidate i of the loop started from b is within tolerance. */
  predicate Hit(h: seq<real>, target: real, b: Bracket, i: nat)
  {
    Within(CappedMass(h, Steps(h, target, b, i).mid), target)
  }

  /** A successful loop stops at the first candidate within tolerance: the
      value it returns is candidate i, which is within tolerance, and no
      earlier candidate is. */
  lemma {:induction false} IterateFirstHit(h: seq<real>, target: real, b: Bracket, k: nat)
    requires k >= 1 && Iterate(h, target, b, k).Ok?
    ensures exists i :: 0 <= i < k && Iterate(h, target, b, k).value == Steps(h, target, b, i).mid &&
              Hit(h, target, b, i) && forall i' :: 0 <= i' < i ==> !Hit(h, target, b, i')
    decreases k
  {
    assert Steps(h, target, b, 0) == b;
    if Within(CappedMass(h, b.mid), target) {
      assert Hit(h, target, b, 0);
    } else {
      var s := Step(h, target, b);
      IterateFirstHit(h, target, s, k - 1);
      var i :| 0 <= i < k - 1 && Iterate(h, target, s, k - 1).value == Steps(h, target, s, i).mid &&
               Hit(h, target, s, i) && forall i' :: 0 <= i' < i ==> !Hit(h, target, s, i');
      StepsShift(h, target, b, i);
      forall i' | 0 <= i' < i + 1
        ensures !Hit(h, target, b, i')
      {
        if i' > 0 {
          StepsShift(h, target, b, i' - 1);
          assert !Hit(h, target, s, i' - 1);
        }
      }
      assert Hit(h, target, b, i + 1);
    }
  }

  /** With a positive budget, a successful search returns the first of its
      candidates whose capped mass is within tolerance. */
  lemma SearchFirstHit(h: seq<real>, target: real, n: nat)
    requires |h| > 0 && n > 0 && Search(h, target, n).Ok?
    ensures exists i :: 0 <= i < n && Search(h, target, n).value == Steps(h, target, Initial(h), i).mid &&
              Hit(h, target, Initial(h), i) && forall i' :: 0 <= i' < i ==> !Hit(h, target, Initial(h), i')
  {
    IterateFirstHit(h, target, Initial(h), n);
  }

  /** A threshold found with a positive budget has capped mass within
      tolerance of the target, and every threshold lies in [0, max(h)]. */
  lemma SearchSound(h: seq<real>, target: real, n: nat)
    requires |h| > 0 && Nonnegative(h) && Search(h, target, n).Ok?
    ensures 0.0 <= Search(h, target, n).value <= Max(h)
    ensures n > 0 ==> Within(CappedMass(h, Search(h, target, n).value), target)
  {
    if n > 0 {
      IterateOkSound(h, target, Initial(h), n);
    }
  }

  /** The search reports failure exactly when the budget is positive and
      none of the first n candidates is within tolerance. */
  lemma SearchErrIff(h: seq<real>, target: real, n: nat)
    requires |h| > 0
    ensures Search(h, target, n).Err? ==>
              n > 0 && forall i :: 0 <= i < n ==> !Within(CappedMass(h, Steps(h, target, Initial(h), i).mid), target)
    ensures (n > 0 && forall i :: 0 <= i < n ==> !Within(CappedMass(h, Steps(h, target, Initial(h), i).mid), target)) ==>
              Search(h, target, n).Err?
  {
    if n > 0 {
      IterateErrIff(h, target, Initial(h), n);
    }
  }
}
