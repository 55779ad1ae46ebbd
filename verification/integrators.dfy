/**
 * The two fixed-step classical Runge-Kutta integrators of the sweep, as
 * specification functions: the state integrated forward from its initial
 * value, the adjoint integrated backward from its terminal value.
 */
module Integrators {
  import opened Vectors

  /** State derivative callback (t, x, u) -> x'. The parameter bag is closed over. */
  type StateRate = (real, Vec, Vec) -> Vec

  /** Adjoint derivative callback (t, x, u, lambda) -> lambda'. */
  type AdjointRate = (real, Vec, Vec, Vec) -> Vec

  /** A one-step forward scheme (ti, h, xi, ui, uNext) -> the state at ti + h. */
  type ForwardScheme = (real, real, Vec, Vec, Vec) -> Vec

  /** A one-step backward scheme (ti, h, xi, xPrev, ui, uPrev, li) -> the adjoint at ti - h. */
  type BackwardScheme = (real, real, Vec, Vec, Vec, Vec, Vec) -> Vec

  /**
   * One forward step over [ti, ti + h]: the midpoint stages use the average
   * of the controls at the two ends of the interval.
   */
  function ForwardStep(f: StateRate, ti: real, h: real, xi: Vec, ui: Vec, uNext: Vec): (r: Vec)
    ensures |r| == |xi|
  {
    var uMid := Average(ui, uNext);
    var k1 := f(ti, xi, ui);
    var k2 := f(ti + h / 2.0, AddScaled(xi, 0.5 * h, k1), uMid);
    var k3 := f(ti + h / 2.0, AddScaled(xi, 0.5 * h, k2), uMid);
    var k4 := f(ti + h, AddScaled(xi, h, k3), uNext);
    AddScaled(xi, h / 6.0, StageSum(|xi|, k1, k2, k3, k4))
  }

  /** The classical Runge-Kutta forward scheme for the state derivative f. */
  function Rk4Forward(f: StateRate): ForwardScheme
  {
    (ti, h, xi, ui, uNext) => ForwardStep(f, ti, h, xi, ui, uNext)
  }

  /** The state at grid index i, integrated forward from x0 by step. */
  function State(step: ForwardScheme, t: seq<real>, h: real, x0: Vec, u: seq<Vec>, i: nat): Vec
    requires i < |t| && |u| == |t|
    decreases i
  {
    if i == 0 then x0
    else step(t[i - 1], h, State(step, t, h, x0, u, i - 1), u[i - 1], u[i])
  }

  /** Every state the Runge-Kutta forward recursion computes has the width of x0. */
  lemma {:induction false} Rk4StateWidth(f: StateRate, t: seq<real>, h: real, x0: Vec, u: seq<Vec>, i: nat)
    requires i < |t| && |u| == |t|
    ensures |State(Rk4Forward(f), t, h, x0, u, i)| == |x0|
    decreases i
  {
    if i > 0 {
      Rk4StateWidth(f, t, h, x0, u, i - 1);
    }
  }

  lemma {:induction false} ForwardRecurrenceDeterminesState(step: ForwardScheme, t: seq<real>, h: real, x0: Vec, u: seq<Vec>, s: seq<Vec>, i: nat)
    requires |u| == |t| && |s| == |t| && i < |t|
    requires s[0] == x0
    requires forall k :: 1 <= k < |t| ==> s[k] == step(t[k - 1], h, s[k - 1], u[k - 1], u[k])
    ensures s[i] == State(step, t, h, x0, u, i)
    decreases i
  {
    if i > 0 {
      ForwardRecurrenceDeterminesState(step, t, h, x0, u, s, i - 1);
    }
  }

  /**
   * Any trajectory that starts at x0 and follows the forward recurrence is
   * the forward trajectory: nothing but x0 and the controls decides it.
   */
  lemma ForwardRecurrenceUnique(step: ForwardScheme, t: seq<real>, h: real, x0: Vec, u: seq<Vec>, s: seq<Vec>)
    requires |u| == |t| && |s| == |t| && 1 <= |t|
    requires s[0] == x0
    requires forall k :: 1 <= k < |t| ==> s[k] == step(t[k - 1], h, s[k - 1], u[k - 1], u[k])
    ensures forall i :: 0 <= i < |t| ==> s[i] == State(step, t, h, x0, u, i)
  {
    forall i | 0 <= i < |t|
      ensures s[i] == State(step, t, h, x0, u, i)
    {
      ForwardRecurrenceDeterminesState(step, t, h, x0, u, s, i);
    }
  }

  /** The state at index i depends on the controls at indices 0..i only. */
  lemma {:induction false} ForwardCausal(step: ForwardScheme, t: seq<real>, h: real, x0: Vec, u: seq<Vec>, v: seq<Vec>, i: nat)
    requires i < |t| && |u| == |t| && |v| == |t|
    requires forall k :: 0 <= k <= i ==> u[k] == v[k]
    ensures State(step, t, h, x0, u, i) == State(step, t, h, x0, v, i)
    decreases i
  {
    if i > 0 {
      ForwardCausal(step, t, h, x0, u, v, i - 1);
    }
  }

  /**
   * One backward step from ti to ti - h: the midpoint stages use the averages
   * of the neighbouring states and controls; the weighted increment is subtracted.
   */
  function BackwardStep(g: AdjointRate, ti: real, h: real, xi: Vec, xPrev: Vec, ui: Vec, uPrev: Vec, li: Vec): (r: Vec)
    ensures |r| == |li|
  {
    var xMid := Average(xi, xPrev);
    var uMid := Average(ui, uPrev);
    var k1 := g(ti, xi, ui, li);
    var k2 := g(ti - h / 2.0, xMid, uMid, SubScaled(li, 0.5 * h, k1));
    var k3 := g(ti - h / 2.0, xMid, uMid, SubScaled(li, 0.5 * h, k2));
    var k4 := g(ti - h, xPrev, uPrev, SubScaled(li, h, k3));
    SubScaled(li, h / 6.0, StageSum(|li|, k1, k2, k3, k4))
  }

  /** The classical Runge-Kutta backward scheme for the adjoint derivative g. */
  function Rk4Backward(g: AdjointRate): BackwardScheme
  {
    (ti, h, xi, xPrev, ui, uPrev, li) => BackwardStep(g, ti, h, xi, xPrev, ui, uPrev, li)
  }

  /** The adjoint at grid index i, integrated backward by step from the terminal value lambdaN. */
  function Adjoint(step: BackwardScheme, t: seq<real>, h: real, x: seq<Vec>, u: seq<Vec>, lambdaN: Vec, i: nat): Vec
    requires i < |t| && |x| == |t| && |u| == |t|
    decreases |t| - i
  {
    if i == |t| - 1 then lambdaN
    else step(t[i + 1], h, x[i + 1], x[i], u[i + 1], u[i], Adjoint(step, t, h, x, u, lambdaN, i + 1))
  }

  /** Every adjoint the Runge-Kutta backward recursion computes has the width of lambdaN. */
  lemma {:induction false} Rk4AdjointWidth(g: AdjointRate, t: seq<real>, h: real, x: seq<Vec>, u: seq<Vec>, lambdaN: Vec, i: nat)
    requires i < |t| && |x| == |t| && |u| == |t|
    ensures |Adjoint(Rk4Backward(g), t, h, x, u, lambdaN, i)| == |lambdaN|
    decreases |t| - i
  {
    if i < |t| - 1 {
      Rk4AdjointWidth(g, t, h, x, u, lambdaN, i + 1);
    }
  }

  lemma {:induction false} BackwardRecurrenceDeterminesAdjoint(step: BackwardScheme, t: seq<real>, h: real, x: seq<Vec>, u: seq<Vec>, lambdaN: Vec, s: seq<Vec>, i: nat)
    requires |x| == |t| && |u| == |t| && |s| == |t| && i < |t|
    requires s[|t| - 1] == lambdaN
    requires forall k :: 0 <= k < |t| - 1 ==> s[k] == step(t[k + 1], h, x[k + 1], x[k], u[k + 1], u[k], s[k + 1])
    ensures s[i] == Adjoint(step, t, h, x, u, lambdaN, i)
    decreases |t| - i
  {
    if i < |t| - 1 {
      BackwardRecurrenceDeterminesAdjoint(step, t, h, x, u, lambdaN, s, i + 1);
    }
  }

  /**
   * Any trajectory that ends at lambdaN and follows the backward recurrence
   * is the backward trajectory: the terminal value is its boundary condition.
   */
  lemma BackwardRecurrenceUnique(step: BackwardScheme, t: seq<real>, h: real, x: seq<Vec>, u: seq<Vec>, lambdaN: Vec, s: seq<Vec>)
    requires 1 <= |t| && |x| == |t| && |u| == |t| && |s| == |t|
    requires s[|t| - 1] == lambdaN
    requires forall k :: 0 <= k < |t| - 1 ==> s[k] == step(t[k + 1], h, x[k + 1], x[k], u[k + 1], u[k], s[k + 1])
    ensures forall i :: 0 <= i < |t| ==> s[i] == Adjoint(step, t, h, x, u, lambdaN, i)
  {
    forall i | 0 <= i < |t|
      ensures s[i] == Adjoint(step, t, h, x, u, lambdaN, i)
    {
      BackwardRecurrenceDeterminesAdjoint(step, t, h, x, u, lambdaN, s, i);
    }
  }

  /** The adjoint at index i depends on the states and controls at indices i..N only. */
  lemma {:induction false} BackwardAnticausal(step: BackwardScheme, t: seq<real>, h: real, x: seq<Vec>, u: seq<Vec>, y: seq<Vec>, v: seq<Vec>, lambdaN: Vec, i: nat)
    requires i < |t| && |x| == |t| && |u| == |t| && |y| == |t| && |v| == |t|
    requires forall k :: i <= k < |t| ==> x[k] == y[k] && u[k] == v[k]
    ensures Adjoint(step, t, h, x, u, lambdaN, i) == Adjoint(step, t, h, y, v, lambdaN, i)
    decreases |t| - i
  {
    if i < |t| - 1 {
      BackwardAnticausal(step, t, h, x, u, y, v, lambdaN, i + 1);
    }
  }
}
