/**
 * The forward-backward sweep solver: the problem configuration (callbacks,
 * bounds, dimensions, relaxation coefficient, free terminal-adjoint indices)
 * and the in-place integrators, update and convergence loop that use it.
 */
module Sweep {
  import opened Results
  import opened Vectors
  import opened Bounds
  import opened Integrators
  import opened Convergence
  import opened ControlUpdate
  import opened TerminalAdjoint

  /** The four trajectories a converged sweep returns, each with one entry per grid instant. */
  datatype Solution = Solution(t: seq<real>, x: seq<Vec>, u: seq<Vec>, lambda: seq<Vec>)

  /** How a solve ends: converged, stopped by the fuel bound, or failed with an error. */
  datatype Outcome = Converged(solution: Solution) | OutOfFuel | Failed(error: Error)

  /** The bounds stored at construction: the given list, or one unbounded pair per control. */
  function StoredBounds(given: Option<seq<Bound>>, nControls: nat): (r: seq<Bound>)
    ensures given.None? ==> r == DefaultBounds(nControls) && AllOrdered(r)
    ensures given.Some? ==> r == given.value
  {
    if given.Some? then given.value else DefaultBounds(nControls)
  }

  /** The bounds in force during solve: a non-empty override replaces the stored list. */
  function EffectiveBounds(stored: seq<Bound>, override: seq<Bound>): (r: seq<Bound>)
    ensures override != [] ==> r == override
    ensures override == [] ==> r == stored
  {
    if override != [] then override else stored
  }

  class OptimalControl {
    const dx: StateRate
    const dadj: AdjointRate
    const updateU: ControlRule
    const coefU: real
    const nStates: nat
    const nControls: nat
    const dphi: TransversalityRule
    var bounds: seq<Bound>
    const freeAdjFinal: seq<int>

    /** Stores the configuration; reachable only with well-ordered bounds (see Create). */
    constructor (dx: StateRate, dadj: AdjointRate, updateU: ControlRule, coefU: real,
                 nControls: nat, nStates: nat, dphi: Option<TransversalityRule>,
                 bounds: Option<seq<Bound>>, freeAdjFinal: seq<int>)
      requires AllOrdered(StoredBounds(bounds, nControls))
      ensures this.dx == dx && this.dadj == dadj && this.updateU == updateU && this.coefU == coefU
      ensures this.nControls == nControls && this.nStates == nStates
      ensures this.dphi == (if dphi.Some? then dphi.value else ZeroTransversality(nStates))
      ensures this.bounds == StoredBounds(bounds, nControls) && AllOrdered(this.bounds)
      ensures this.freeAdjFinal == freeAdjFinal
    {
      this.dx := dx;
      this.dadj := dadj;
      this.updateU := updateU;
      this.coefU := coefU;
      this.nStates := nStates;
      this.nControls := nControls;
      var phi: TransversalityRule := if dphi.Some? then dphi.value else ZeroTransversality(nStates);
      this.dphi := phi;
      this.bounds := StoredBounds(bounds, nControls);
      this.freeAdjFinal := freeAdjFinal;
    }

    /**
     * Construction with validation: fails with BadBounds exactly when some
     * stored bound pair has low >= high. Without bounds every control is
     * unbounded, which always passes.
     */
    static method Create(dx: StateRate, dadj: AdjointRate, updateU: ControlRule, coefU: real,
                         nControls: nat, nStates: nat, dphi: Option<TransversalityRule>,
                         bounds: Option<seq<Bound>>, freeAdjFinal: seq<int>)
      returns (r: Result<OptimalControl>)
      ensures r.Err? <==> !AllOrdered(StoredBounds(bounds, nControls))
      ensures r.Err? ==> r.error == BadBounds
      ensures bounds.None? ==> r.Ok?
      ensures r.Ok? ==> fresh(r.value) && r.value.bounds == StoredBounds(bounds, nControls)
      ensures r.Ok? ==> r.value.nControls == nControls && r.value.nStates == nStates && r.value.coefU == coefU
      ensures r.Ok? ==> r.value.dx == dx && r.value.dadj == dadj && r.value.updateU == updateU
      ensures r.Ok? ==> r.value.dphi == (if dphi.Some? then dphi.value else ZeroTransversality(nStates))
      ensures r.Ok? ==> r.value.freeAdjFinal == freeAdjFinal
    {
      var ok := CheckBounds(StoredBounds(bounds, nControls));
      if !ok {
        return Err(BadBounds);
      }
      var oc := new OptimalControl(dx, dadj, updateU, coefU, nControls, nStates, dphi, bounds, freeAdjFinal);
      return Ok(oc);
    }

    /**
     * Forward integration in place: x[0] is kept, and x[1..N] are written
     * in increasing order, each from its predecessor and the controls at the
     * two ends of the step. The result does not depend on what x[1..N] held.
     */
    method Forward(t: seq<real>, x: array<Vec>, u: array<Vec>, h: real)
      requires 1 <= |t| && x.Length == |t| && u.Length == |t| && x != u
      modifies x
      ensures x[0] == old(x[0])
      ensures forall k :: 0 <= k < |t| ==> x[k] == State(Rk4Forward(dx), t, h, old(x[0]), u[..], k)
    {
      IntegrateForward(Rk4Forward(dx), t, x, u, h);
    }

    /**
     * Backward integration in place: lambda[N] is kept, and lambda[N-1..0]
     * are written in decreasing order, each from its successor and the
     * states and controls on both sides of the step.
     */
    method Backward(t: seq<real>, x: array<Vec>, u: array<Vec>, lambda: array<Vec>, h: real)
      requires 1 <= |t| && x.Length == |t| && u.Length == |t| && lambda.Length == |t|
      requires lambda != x && lambda != u
      modifies lambda
      ensures lambda[|t| - 1] == old(lambda[|t| - 1])
      ensures forall k :: 0 <= k < |t| ==> lambda[k] == Adjoint(Rk4Backward(dadj), t, h, x[..], u[..], old(lambda[|t| - 1]), k)
    {
      IntegrateBackward(Rk4Backward(dadj), t, x, u, lambda, h);
    }

    /** The forward pass of Forward for any one-step scheme. */
    static method IntegrateForward(step: ForwardScheme, t: seq<real>, x: array<Vec>, u: array<Vec>, h: real)
      requires 1 <= |t| && x.Length == |t| && u.Length == |t| && x != u
      modifies x
      ensures x[0] == old(x[0])
      ensures forall k :: 0 <= k < |t| ==> x[k] == State(step, t, h, old(x[0]), u[..], k)
    {
      for i := 0 to |t| - 1
        invariant x[0] == old(x[0])
        invariant forall k :: 0 <= k <= i ==> x[k] == State(step, t, h, old(x[0]), u[..], k)
      {
        x[i + 1] := step(t[i], h, x[i], u[i], u[i + 1]);
      }
    }

    /** The backward pass of Backward for any one-step scheme. */
    static method IntegrateBackward(step: BackwardScheme, t: seq<real>, x: array<Vec>, u: array<Vec>, lambda: array<Vec>, h: real)
      requires 1 <= |t| && x.Length == |t| && u.Length == |t| && lambda.Length == |t|
      requires lambda != x && lambda != u
      modifies lambda
      ensures lambda[|t| - 1] == old(lambda[|t| - 1])
      ensures forall k :: 0 <= k < |t| ==> lambda[k] == Adjoint(step, t, h, x[..], u[..], old(lambda[|t| - 1]), k)
    {
      var i := |t| - 1;
      while i > 0
        invariant 0 <= i <= |t| - 1
        invariant lambda[|t| - 1] == old(lambda[|t| - 1])
        invariant forall k :: i <= k < |t| ==> lambda[k] == Adjoint(step, t, h, x[..], u[..], old(lambda[|t| - 1]), k)
      {
        lambda[i - 1] := step(t[i], h, x[i], x[i - 1], u[i], u[i - 1], lambda[i]);
        i := i - 1;
      }
    }

    /** The damped update at every grid index, in place. */
    method UpdateControl(t: seq<real>, x: array<Vec>, lambda: array<Vec>, u: array<Vec>)
      requires x.Length == |t| && lambda.Length == |t| && u.Length == |t|
      requires u != x && u != lambda
      modifies u
      ensures u[..] == UpdatedControl(updateU, coefU, t, x[..], lambda[..], old(u[..]))
    {
      ghost var xs, lambdas, us := x[..], lambda[..], u[..];
      for i := 0 to |t|
        invariant forall k :: 0 <= k < i ==> u[k] == Blend(coefU, updateU(t[k], xs[k], lambdas[k]), us[k])
        invariant forall k :: i <= k < |t| ==> u[k] == us[k]
      {
        var candidate := updateU(t[i], x[i], lambda[i]);
        u[i] := Blend(coefU, candidate, u[i]);
      }
      assert forall k :: 0 <= k < |t| ==> u[..][k] == UpdatedControl(updateU, coefU, t, xs, lambdas, us)[k];
    }

    /** Maps each control column k of the sampled guess into bound pair k, in place. */
    static method InitialGuess(u: array<Vec>, bnds: seq<Bound>)
      requires forall i :: 0 <= i < u.Length ==> |u[i]| == |bnds|
      modifies u
      ensures forall i :: 0 <= i < u.Length ==> u[i] == GuessRow(bnds, old(u[i]))
    {
      for k := 0 to |bnds|
        invariant forall i :: 0 <= i < u.Length ==> |u[i]| == |bnds|
        invariant forall i, c :: 0 <= i < u.Length && 0 <= c < k ==> u[i][c] == GuessSample(bnds[c], old(u[i])[c])
        invariant forall i, c :: 0 <= i < u.Length && k <= c < |bnds| ==> u[i][c] == old(u[i])[c]
      {
        for i := 0 to u.Length
          invariant forall i' :: 0 <= i' < u.Length ==> |u[i']| == |bnds|
          invariant forall i', c :: 0 <= i' < u.Length && 0 <= c < k ==> u[i'][c] == GuessSample(bnds[c], old(u[i'])[c])
          invariant forall i', c :: 0 <= i' < i && c == k ==> u[i'][c] == GuessSample(bnds[c], old(u[i'])[c])
          invariant forall i', c :: 0 <= i' < u.Length && k < c < |bnds| ==> u[i'][c] == old(u[i'])[c]
          invariant forall i' :: i <= i' < u.Length ==> u[i'][k] == old(u[i'])[k]
        {
          u[i] := u[i][k := GuessSample(bnds[k], u[i][k])];
        }
      }
      forall i | 0 <= i < u.Length
        ensures u[i] == GuessRow(bnds, old(u[i]))
      {
        assert forall c :: 0 <= c < |bnds| ==> u[i][c] == GuessRow(bnds, old(u[i]))[c];
      }
    }

    /** The state and adjoint trajectories a solve allocates: gridSize zero rows of width n each. */
    static method ZeroTrajectories(n: nat, gridSize: nat) returns (x: array<Vec>, lambda: array<Vec>)
      ensures fresh(x) && fresh(lambda) && x != lambda
      ensures x.Length == gridSize && lambda.Length == gridSize
      ensures forall i :: 0 <= i < gridSize ==> x[i] == Zeros(n) && lambda[i] == Zeros(n)
    {
      x := new Vec[gridSize](i => Zeros(n));
      lambda := new Vec[gridSize](i => Zeros(n));
    }

    /**
     * The trajectories a solve starts from: each control row is the initial
     * guess of its sample row under bnds, x is x0row followed by zero rows,
     * and lambda is all zero rows.
     */
    predicate IsStart(x0row: Vec, t: seq<real>, bnds: seq<Bound>, samples: seq<Vec>,
                      u: seq<Vec>, x: seq<Vec>, lambda: seq<Vec>)
    {
      && 1 <= |t| && |samples| == |t| && |u| == |t| && |x| == |t| && |lambda| == |t|
      && (forall i :: 0 <= i < |t| ==> |samples[i]| == |bnds| && u[i] == GuessRow(bnds, samples[i]))
      && x[0] == x0row
      && (forall i :: 1 <= i < |t| ==> x[i] == Zeros(nStates))
      && (forall i :: 0 <= i < |t| ==> lambda[i] == Zeros(nStates))
    }

    /**
     * x, lambda and u are one sweep iteration away from the control
     * trajectory uPrev: x is integrated forward from x0row under uPrev, the
     * terminal adjoint is set from dphi(x), theta and the free indices,
     * lambda is integrated backward from it, and u is the damped update of uPrev.
     */
    predicate IsIteration(x0row: Vec, t: seq<real>, h: real, theta: seq<real>,
                          uPrev: seq<Vec>, x: seq<Vec>, lambda: seq<Vec>, u: seq<Vec>)
    {
      && 1 <= |t| && |uPrev| == |t| && |x| == |t| && |lambda| == |t| && |u| == |t|
      && (forall k :: 0 <= k < |t| ==> x[k] == State(Rk4Forward(dx), t, h, x0row, uPrev, k))
      && Terminal(dphi(x), nStates, freeAdjFinal, theta).Ok?
      && (forall k :: 0 <= k < |t| ==>
            lambda[k] == Adjoint(Rk4Backward(dadj), t, h, x, uPrev, Terminal(dphi(x), nStates, freeAdjFinal, theta).value, k))
      && u == UpdatedControl(updateU, coefU, t, x, lambda, uPrev)
    }

    /**
     * One sweep iteration in place: forward integration from x[0], the
     * terminal adjoint, backward integration, the damped control update. A
     * terminal adjoint that cannot be formed stops the iteration after the
     * forward pass, with the error Terminal reports.
     */
    method Iterate(t: seq<real>, h: real, theta: seq<real>, x: array<Vec>, u: array<Vec>, lambda: array<Vec>)
      returns (terminal: Result<Vec>)
      requires 1 <= |t| && x.Length == |t| && u.Length == |t| && lambda.Length == |t|
      requires x != u && x != lambda && u != lambda
      modifies x, u, lambda
      ensures x[0] == old(x[0])
      ensures terminal == Terminal(dphi(x[..]), nStates, freeAdjFinal, theta)
      ensures terminal.Err? ==> terminal.error == TerminalShapeMismatch || terminal.error == FreeAdjointMismatch
      ensures terminal.Ok? ==> IsIteration(old(x[0]), t, h, theta, old(u[..]), x[..], lambda[..], u[..])
    {
      Forward(t, x, u, h);
      terminal := Terminal(dphi(x[..]), nStates, freeAdjFinal, theta);
      if terminal.Err? {
        return;
      }
      lambda[|t| - 1] := terminal.value;
      Backward(t, x, u, lambda, h);
      UpdateControl(t, x, lambda, u);
    }

    /**
     * The forward-backward sweep. A non-empty bounds override replaces the
     * stored bounds (its ordering is not re-checked); a bound count that
     * differs from the number of controls fails before any trajectory is
     * built. Each iteration integrates the state forward, sets the terminal
     * adjoint, integrates the adjoint backward, applies the damped control
     * update, and stops only when all three trajectories pass the
     * relative-change test. The sampled guess (values in [0, 1]) and the
     * iteration budget fuel are inputs; uPrev, xPrev and lambdaPrev are the
     * trajectories before the last iteration: the starting trajectories on
     * the first pass, the result of the iteration before it on a later one.
     */
    method Solve(x0: Vec, t: seq<real>, h: real, tol: real, boundsOverride: seq<Bound>,
                 theta: seq<real>, samples: seq<Vec>, fuel: nat)
      returns (r: Outcome, ghost uPrev: seq<Vec>, ghost xPrev: seq<Vec>, ghost lambdaPrev: seq<Vec>)
      requires 1 <= |t| && |samples| == |t|
      requires forall i :: 0 <= i < |t| ==> |samples[i]| == nControls
      requires forall i, k :: 0 <= i < |t| && 0 <= k < nControls ==> 0.0 <= samples[i][k] <= 1.0
      modifies this
      ensures bounds == EffectiveBounds(old(bounds), boundsOverride)
      ensures r == Failed(BoundsCountMismatch) <==> |bounds| != nControls
      ensures r == Failed(StateShapeMismatch) <==> |bounds| == nControls && Broadcast(nStates, x0).None?
      ensures r != Failed(BadBounds)
      ensures r == Failed(EmptyReduction) ==> nControls == 0 || nStates == 0
      ensures r == OutOfFuel ==> |bounds| == nControls && Broadcast(nStates, x0).Some?
      ensures fuel == 0 && |bounds| == nControls && Broadcast(nStates, x0).Some? ==> r == OutOfFuel
      ensures r.Converged? ==> nControls >= 1 && nStates >= 1
      ensures r.Converged? ==>
        && r.solution.t == t && Broadcast(nStates, x0).Some?
        && IsIteration(Broadcast(nStates, x0).value, t, h, theta, uPrev, r.solution.x, r.solution.lambda, r.solution.u)
        && |xPrev| == |t| && |lambdaPrev| == |t|
        && (|| IsStart(Broadcast(nStates, x0).value, t, bounds, samples, uPrev, xPrev, lambdaPrev)
            || exists uEarlier :: IsIteration(Broadcast(nStates, x0).value, t, h, theta, uEarlier, xPrev, lambdaPrev, uPrev))
        && Within(uPrev, r.solution.u, tol, nControls)
        && Within(xPrev, r.solution.x, tol, nStates)
        && Within(lambdaPrev, r.solution.lambda, tol, nStates)
    {
      uPrev, xPrev, lambdaPrev := [], [], [];
      bounds := EffectiveBounds(bounds, boundsOverride);
      if |bounds| != nControls {
        return Failed(BoundsCountMismatch), uPrev, xPrev, lambdaPrev;
      }

      var u := new Vec[|t|](i requires 0 <= i < |t| => samples[i]);
      InitialGuess(u, bounds);
      var x, lambda := ZeroTrajectories(nStates, |t|);
      var x0row := Broadcast(nStates, x0);
      if x0row.None? {
        return Failed(StateShapeMismatch), uPrev, xPrev, lambdaPrev;
      }
      x[0] := x0row.value;
      assert IsStart(x0row.value, t, bounds, samples, u[..], x[..], lambda[..]);

      r := OutOfFuel;
      var budget := fuel;
      ghost var uEarlier: seq<Vec> := [];
      while budget > 0
        invariant bounds == EffectiveBounds(old(bounds), boundsOverride) && |bounds| == nControls
        invariant x[0] == x0row.value
        invariant r == OutOfFuel
        invariant || IsStart(x0row.value, t, bounds, samples, u[..], x[..], lambda[..])
                  || IsIteration(x0row.value, t, h, theta, uEarlier, x[..], lambda[..], u[..])
        decreases budget
      {
        budget := budget - 1;
        var uOld, xOld, lambdaOld := u[..], x[..], lambda[..];
        uPrev, xPrev, lambdaPrev := uOld, xOld, lambdaOld;
        ghost var before := uEarlier;

        var terminal := Iterate(t, h, theta, x, u, lambda);
        if terminal.Err? {
          return Failed(terminal.error), uPrev, xPrev, lambdaPrev;
        }
        uEarlier := uOld;

        if nControls == 0 || nStates == 0 {
          return Failed(EmptyReduction), uPrev, xPrev, lambdaPrev;
        }
        var condition := SweepCondition(MinMargin(uOld, u[..], tol, nControls),
                                        MinMargin(xOld, x[..], tol, nStates),
                                        MinMargin(lambdaOld, lambda[..], tol, nStates));
        if condition >= 0.0 {
          SweepExitIff(uOld, u[..], xOld, x[..], lambdaOld, lambda[..], tol, nControls, nStates);
          assert || IsStart(x0row.value, t, bounds, samples, uPrev, xPrev, lambdaPrev)
                 || IsIteration(x0row.value, t, h, theta, before, xPrev, lambdaPrev, uPrev);
          return Converged(Solution(t, x[..], u[..], lambda[..])), uPrev, xPrev, lambdaPrev;
        }
      }
    }
  }
}
