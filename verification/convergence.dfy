/**
 * The relative-change convergence test of the sweep: per trajectory and per
 * component, the summed absolute change over the time grid against the
 * tolerance times the summed magnitude of the new trajectory.
 */
module Convergence {
  import opened Vectors

  /** Sum over the time grid of |s[i][j]|. */
  function SumAbs(s: seq<Vec>, j: nat): (r: real)
    ensures r >= 0.0
  {
    if s == [] then 0.0 else Abs(Comp(s[0], j)) + SumAbs(s[1..], j)
  }

  /** Sum over the time grid of |prev[i][j] - next[i][j]|. */
  function SumAbsDiff(prev: seq<Vec>, next: seq<Vec>, j: nat): (r: real)
    requires |prev| == |next|
    ensures r >= 0.0
  {
    if prev == [] then 0.0 else Abs(Comp(prev[0], j) - Comp(next[0], j)) + SumAbsDiff(prev[1..], next[1..], j)
  }

  /** The margin of component j: tol * sum|next| - sum|prev - next|. */
  function Margin(prev: seq<Vec>, next: seq<Vec>, tol: real, j: nat): real
    requires |prev| == |next|
  {
    tol * SumAbs(next, j) - SumAbsDiff(prev, next, j)
  }

  /** Component j has changed by at most tol relative to the new trajectory. */
  predicate ComponentWithin(prev: seq<Vec>, next: seq<Vec>, tol: real, j: nat)
    requires |prev| == |next|
  {
    SumAbsDiff(prev, next, j) <= tol * SumAbs(next, j)
  }

  /** Every one of the first w components is within tolerance. */
  predicate Within(prev: seq<Vec>, next: seq<Vec>, tol: real, w: nat)
    requires |prev| == |next|
  {
    forall j :: 0 <= j < w ==> ComponentWithin(prev, next, tol, j)
  }

  /**
   * The smallest margin over the first w components. It is non-negative
   * exactly when every component is within tolerance.
   */
  function MinMargin(prev: seq<Vec>, next: seq<Vec>, tol: real, w: nat): (r: real)
    requires |prev| == |next| && w >= 1
    ensures forall j :: 0 <= j < w ==> r <= Margin(prev, next, tol, j)
    ensures exists j :: 0 <= j < w && r == Margin(prev, next, tol, j)
    ensures r >= 0.0 <==> Within(prev, next, tol, w)
    decreases w
  {
    assert forall j :: 0 <= j < w ==> (Margin(prev, next, tol, j) >= 0.0 <==> ComponentWithin(prev, next, tol, j));
    if w == 1 then Margin(prev, next, tol, 0)
    else Min(MinMargin(prev, next, tol, w - 1), Margin(prev, next, tol, w - 1))
  }

  /** The sweep's combined condition: the smallest of the three trajectories' margins. */
  function SweepCondition(cu: real, cx: real, cl: real): real
  {
    Min(Min(cu, cx), cl)
  }

  /** The sweep stops exactly when control, state and adjoint are all within tolerance in every component. */
  lemma SweepExitIff(uPrev: seq<Vec>, u: seq<Vec>, xPrev: seq<Vec>, x: seq<Vec>, lPrev: seq<Vec>, l: seq<Vec>, tol: real, nControls: nat, nStates: nat)
    requires |uPrev| == |u| && |xPrev| == |x| && |lPrev| == |l| && nControls >= 1 && nStates >= 1
    ensures SweepCondition(MinMargin(uPrev, u, tol, nControls), MinMargin(xPrev, x, tol, nStates), MinMargin(lPrev, l, tol, nStates)) >= 0.0
            <==> Within(uPrev, u, tol, nControls) && Within(xPrev, x, tol, nStates) && Within(lPrev, l, tol, nStates)
  {
  }

  lemma {:induction false} SumAbsDiffZeroIff(prev: seq<Vec>, next: seq<Vec>, j: nat)
    requires |prev| == |next|
    ensures SumAbsDiff(prev, next, j) == 0.0 <==> forall i :: 0 <= i < |prev| ==> Comp(prev[i], j) == Comp(next[i], j)
  {
    if prev != [] {
      SumAbsDiffZeroIff(prev[1..], next[1..], j);
      if SumAbsDiff(prev, next, j) == 0.0 {
        forall i | 0 <= i < |prev|
          ensures Comp(prev[i], j) == Comp(next[i], j)
        {
          if i > 0 {
            assert prev[i] == prev[1..][i - 1] && next[i] == next[1..][i - 1];
          }
        }
      }
      if forall i :: 0 <= i < |prev| ==> Comp(prev[i], j) == Comp(next[i], j) {
        forall i | 0 <= i < |prev| - 1
          ensures Comp(prev[1..][i], j) == Comp(next[1..][i], j)
        {
          assert prev[1..][i] == prev[i + 1] && next[1..][i] == next[i + 1];
        }
      }
    }
  }

  /** A trajectory that did not change passes the test for any non-negative tolerance. */
  lemma UnchangedIsWithin(s: seq<Vec>, tol: real, w: nat)
    requires tol >= 0.0
    ensures Within(s, s, tol, w)
  {
    forall j | 0 <= j < w
      ensures ComponentWithin(s, s, tol, j)
    {
      SumAbsDiffZeroIff(s, s, j);
      assert tol * SumAbs(s, j) >= 0.0;
    }
  }

  /** With zero tolerance the test passes exactly when nothing changed in the first w components. */
  lemma ZeroToleranceMeansUnchanged(prev: seq<Vec>, next: seq<Vec>, w: nat)
    requires |prev| == |next|
    ensures Within(prev, next, 0.0, w) <==>
              forall i, j :: 0 <= i < |prev| && 0 <= j < w ==> Comp(prev[i], j) == Comp(next[i], j)
  {
    forall j | 0 <= j < w
      ensures ComponentWithin(prev, next, 0.0, j) <==>
                forall i :: 0 <= i < |prev| ==> Comp(prev[i], j) == Comp(next[i], j)
    {
      SumAbsDiffZeroIff(prev, next, j);
    }
    if Within(prev, next, 0.0, w) {
      forall i, j | 0 <= i < |prev| && 0 <= j < w
        ensures Comp(prev[i], j) == Comp(next[i], j)
      {
        assert ComponentWithin(prev, next, 0.0, j);
      }
    } else {
      var j :| 0 <= j < w && !ComponentWithin(prev, next, 0.0, j);
      var i :| 0 <= i < |prev| && Comp(prev[i], j) != Comp(next[i], j);
    }
  }
}
