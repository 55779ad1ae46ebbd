# Forward-backward sweep for optimal control, modelled in Dafny

This project models the `OptimalControl` class of `pyscripts/optimal_control_class.py`.
The class solves an optimal-control problem by the forward-backward sweep method.
Its configuration holds three callbacks:

- the state derivative `dx`;
- the adjoint derivative `dadj`;
- the control update rule `update_u`.

It also holds an optional transversality condition `dphi`, per-control bounds, the
relaxation coefficient `coef_u`, and the indices of the terminal-adjoint components that are
supplied from outside (`free_adj_final`).

`solve` works as follows:

1. It maps a random sample in [0, 1] into the bounds to get the initial control.
2. It then repeats these steps:
   - integrate the state forward with classical RK4;
   - set the terminal adjoint;
   - integrate the adjoint backward with RK4;
   - blend the rule's candidate into the control.
3. It stops when control, state and adjoint all pass a relative-change test.

The model works over `real`. Each trajectory row is a `Vec` (`seq<real>`), and the
trajectories are `array<Vec>` updated in place, as the source updates its numpy rows. The
callbacks are arrow-typed fields of the class, and the parameter bag is closed over them. The
model captures the bookkeeping and the rules:

- which entries each integrator writes, in what order and from which neighbours;
- the four bound cases of the initial guess;
- the override of the terminal adjoint;
- the convex blend;
- the exit condition of the sweep loop.

It makes no claim about numerical accuracy.

Files (one module each): `results.dfy` (errors, `Result`), `vectors.dfy` (scalar helpers, row
arithmetic, broadcasting), `bounds.dfy` (bound pairs, validation, initial guess), `integrators.dfy` (one-step
schemes, the RK4 steps, and the forward and backward recursions they define), `terminal_adjoint.dfy` (transversality and free
components), `control_update.dfy` (damped update), `convergence.dfy` (relative-change test),
`sweep.dfy` (the class `OptimalControl`).

The initial guess for a control that has only an upper bound `b1` is `b1*s`
(`pyscripts/optimal_control_class.py:109-110`). That value is at most `b1` only when
`b1 >= 0` or `s = 1`. For a negative upper bound, the sampled guess lies outside the bound.
`Bounds.GuessInBoundsIff` states this exactly, and `Bounds.NegativeUpperBoundGuessOutside`
gives a concrete pair (`b1 = -1`, `s = 0.5`). The model keeps the code's formula.

## Model

| member | source | states |
|---|---|---|
| `Bounds.CheckBounds` | pyscripts/optimal_control_class.py:42-44 | the validation loop accepts exactly when every bound pair has low < high (only finite pairs can fail); on rejection, some pair has finite low >= high |
| `Bounds.DefaultBounds` | pyscripts/optimal_control_class.py:41 | the default bounds are n_controls pairs, all unbounded; they pass the check and admit every value |
| `Sweep.StoredBounds` | pyscripts/optimal_control_class.py:41 | the stored bounds are the given list when one is given (even an empty one), otherwise the default list |
| `Sweep.OptimalControl.constructor` | pyscripts/optimal_control_class.py:32-45 | stores every callback and setting; the default transversality condition is the zero vector of width n_states |
| `Sweep.OptimalControl.Create` | pyscripts/optimal_control_class.py:32-45 | construction fails with BadBounds exactly when some stored pair has low >= high; with no bounds given it never fails; on success the object holds the given configuration |
| `Sweep.EffectiveBounds` | pyscripts/optimal_control_class.py:90-91 | a non-empty bounds argument to solve replaces the stored bounds; an empty or absent one keeps them |
| `Bounds.GuessSample` | pyscripts/optimal_control_class.py:103-110 | the initial-guess formula for one sample s and one bound pair: (high-low)*s+low when both bounds are finite, s+low with only a lower bound, high*s with only an upper bound, s when unbounded; a definition, whose ranges GuessSampleCases states |
| `Bounds.GuessRow` | pyscripts/optimal_control_class.py:102-110 | one guess row: component k of the sample row is mapped by bound pair k; the row has one entry per bound pair |
| `Bounds.GuessSampleCases` | pyscripts/optimal_control_class.py:102-110 | for an ordered pair and s in [0,1]: two-sided gives a value in [low, high]; lower-only gives one in [low, low+1]; upper-only gives one <= high iff high >= 0 or s = 1; unbounded leaves s unchanged |
| `Bounds.GuessInBoundsIff` | pyscripts/optimal_control_class.py:102-110 | the initial guess satisfies its bound pair iff the pair is not "upper bound only, negative" with s < 1 |
| `Bounds.NegativeUpperBoundGuessOutside` | pyscripts/optimal_control_class.py:109-110 | for bounds (-inf, -1) and sample 0.5 the guess is -0.5, outside the bounds |
| `Sweep.OptimalControl.InitialGuess` | pyscripts/optimal_control_class.py:102-110 | in place, column k of every grid row is mapped by bound pair k, and nothing else changes |
| `Sweep.OptimalControl.ZeroTrajectories` | pyscripts/optimal_control_class.py:112-113 | the state and adjoint trajectories start as N+1 fresh zero rows of width n_states |
| `Sweep.OptimalControl.IsStart` | pyscripts/optimal_control_class.py:101-115 | the trajectories solve starts from: control row i is the guess row of sample row i, x is x0 followed by zero rows, lambda is all zero rows (a definition that Solve's contract uses) |
| `Integrators.ForwardStep` | pyscripts/optimal_control_class.py:54-58 | one forward RK4 step: k1 at (t_i, x_i, u_i); k2 and k3 at t_i+h/2 from x_i+(h/2)*k with the averaged control (u_i+u_{i+1})/2; k4 at t_i+h from x_i+h*k3 with u_{i+1}; the result is x_i+(h/6)*(k1+2*k2+2*k3+k4) and has the width of x_i |
| `Integrators.Rk4Forward` | pyscripts/optimal_control_class.py:54-58 | the class's forward scheme: ForwardStep for the state derivative dx (a definition) |
| `Integrators.State` | pyscripts/optimal_control_class.py:53-58 | the forward recursion for a one-step scheme: state 0 is x0 and state i is one step from state i-1 with controls u[i-1], u[i] (a definition; its properties are the lemmas below) |
| `Integrators.Rk4StateWidth` | pyscripts/optimal_control_class.py:53-58 | every state computed by the RK4 forward recursion has the width of the initial state |
| `Integrators.ForwardRecurrenceUnique` | pyscripts/optimal_control_class.py:53-59 | for any one-step scheme, a sequence that starts at x0 and whose entry i is one step from entry i-1 with controls u[i-1], u[i] is, entry by entry, the state the forward recursion computes: x0 and u alone determine it |
| `Integrators.ForwardCausal` | pyscripts/optimal_control_class.py:53-58 | for any one-step scheme, the state at index i depends only on the controls at indices 0..i |
| `Sweep.OptimalControl.IntegrateForward` | pyscripts/optimal_control_class.py:53-59 | in place, for any one-step scheme: x[0] is unchanged and every x[k] becomes the k-th state of the forward recursion from the old x[0] under u; the old x[1..N] play no part |
| `Sweep.OptimalControl.Forward` | pyscripts/optimal_control_class.py:47-59 | the same with the class's RK4 scheme for dx: every x[k] is the k-th RK4 state from the old x[0] |
| `Integrators.BackwardStep` | pyscripts/optimal_control_class.py:70-74 | one backward RK4 step: k1 at (t_i, x_i, u_i, lambda_i); k2 and k3 at t_i-h/2 with the averages of x_i, x_{i-1} and of u_i, u_{i-1}, from lambda_i-(h/2)*k; k4 at t_i-h with x_{i-1}, u_{i-1}, from lambda_i-h*k3; the result is lambda_i-(h/6)*(k1+2*k2+2*k3+k4) and has the width of lambda_i |
| `Integrators.Rk4Backward` | pyscripts/optimal_control_class.py:70-74 | the class's backward scheme: BackwardStep for the adjoint derivative dadj (a definition) |
| `Integrators.Adjoint` | pyscripts/optimal_control_class.py:69-74 | the backward recursion for a one-step scheme: entry N is lambdaN and entry i is one backward step from entry i+1 using x[i+1], x[i], u[i+1], u[i] (a definition; its properties are the lemmas below) |
| `Integrators.Rk4AdjointWidth` | pyscripts/optimal_control_class.py:69-74 | every adjoint computed by the RK4 backward recursion has the width of the terminal value |
| `Integrators.BackwardRecurrenceUnique` | pyscripts/optimal_control_class.py:69-75 | for any one-step scheme, a sequence that ends at the terminal value and whose entry i-1 is one backward step from entry i (using x[i], x[i-1], u[i], u[i-1]) is, entry by entry, the adjoint the backward recursion computes |
| `Integrators.BackwardAnticausal` | pyscripts/optimal_control_class.py:69-74 | for any one-step scheme, the adjoint at index i depends only on the states and controls at indices i..N |
| `Sweep.OptimalControl.IntegrateBackward` | pyscripts/optimal_control_class.py:69-75 | in place, for any one-step scheme: lambda[N] is unchanged and every lambda[k] becomes the k-th adjoint of the backward recursion from it, given x and u |
| `Sweep.OptimalControl.Backward` | pyscripts/optimal_control_class.py:61-75 | the same with the class's RK4 scheme for dadj: every lambda[k] is the k-th RK4 adjoint from lambda[N] |
| `Vectors.Broadcast` | pyscripts/optimal_control_class.py:115 | assigning a vector into a row succeeds iff its width is the row's or 1; a same-width vector is copied and a width-1 vector is repeated |
| `TerminalAdjoint.ZeroTransversality` | pyscripts/optimal_control_class.py:40 | the default transversality condition yields the zero vector of width n_states for every state trajectory |
| `TerminalAdjoint.Terminal` | pyscripts/optimal_control_class.py:125-126 | fails with TerminalShapeMismatch iff dphi's value does not fit the row; fails with FreeAdjointMismatch iff theta does not fit the index list or an index is out of range; on success it has width n_states |
| `TerminalAdjoint.AssignAt` | pyscripts/optimal_control_class.py:126 | the index-list assignment of theta values, applied index by index in list order, a negative index counting from the end; the row keeps its width |
| `TerminalAdjoint.AssignAtUnlisted` | pyscripts/optimal_control_class.py:126 | an index-list assignment leaves every component that no index names unchanged |
| `TerminalAdjoint.AssignAtLast` | pyscripts/optimal_control_class.py:126 | a component named by the index list holds the value of the last index that names it |
| `TerminalAdjoint.TerminalComponents` | pyscripts/optimal_control_class.py:125-126 | the terminal adjoint equals dphi(x) in every component not listed in free_adj_final; a listed component takes its theta value (the last one when an index repeats; theta[0] when one value is broadcast) |
| `TerminalAdjoint.NoFreeIndicesKeepsTransversality` | pyscripts/optimal_control_class.py:125-126 | with no free indices, the terminal adjoint is dphi's value |
| `TerminalAdjoint.DefaultTerminalIsZeroOffFree` | pyscripts/optimal_control_class.py:40 | under the default transversality condition, every unlisted terminal component is zero |
| `ControlUpdate.Blend` | pyscripts/optimal_control_class.py:132 | one damped update row coef_u*candidate+(1-coef_u)*previous, at the width of the previous row |
| `ControlUpdate.UpdatedControl` | pyscripts/optimal_control_class.py:130-132 | the damped update of every grid row with the rule's candidate at that instant; it has one row per grid instant, each as wide as the old row |
| `ControlUpdate.BlendBetween` | pyscripts/optimal_control_class.py:132 | with coef_u in [0,1], each blended component lies between the candidate and the previous value |
| `ControlUpdate.UpdateBetween` | pyscripts/optimal_control_class.py:130-132 | every component of the updated control lies between the rule's candidate at that instant and the old control |
| `ControlUpdate.BlendKeepsBounds` | pyscripts/optimal_control_class.py:130-132 | if the candidate and the old value both satisfy a bound pair, so does the blend |
| `ControlUpdate.BlendMayLeaveBounds` | pyscripts/optimal_control_class.py:130-132 | no clipping follows the update: a candidate of 4 blended at 0.5 with 0 gives 2, outside the bounds [0,1] |
| `Sweep.OptimalControl.UpdateControl` | pyscripts/optimal_control_class.py:130-132 | in place: every grid row becomes the blend of the rule's candidate with the old row |
| `Convergence.SumAbs` | pyscripts/optimal_control_class.py:134-136 | the summed magnitude of a component over the time grid is non-negative |
| `Convergence.SumAbsDiff` | pyscripts/optimal_control_class.py:134-136 | the summed absolute change of a component over the time grid is non-negative |
| `Convergence.Margin` | pyscripts/optimal_control_class.py:134-136 | the margin of component j: tol times the summed magnitude of the new trajectory minus its summed absolute change (a definition) |
| `Convergence.MinMargin` | pyscripts/optimal_control_class.py:134-136 | the minimum margin is at most every component's margin and equals one of them; it is >= 0 iff every component has sum\|new-old\| <= tol*sum\|new\| |
| `Convergence.SweepCondition` | pyscripts/optimal_control_class.py:138 | the loop condition: the least of the control, state and adjoint margins (a definition) |
| `Convergence.SweepExitIff` | pyscripts/optimal_control_class.py:134-138 | the combined condition is >= 0 iff control, state and adjoint are all within tolerance in every component |
| `Convergence.SumAbsDiffZeroIff` | pyscripts/optimal_control_class.py:134-136 | the summed absolute change of a component is zero iff that component is unchanged at every grid index |
| `Convergence.UnchangedIsWithin` | pyscripts/optimal_control_class.py:134-138 | with tol >= 0, a trajectory that did not change passes the test, so a fixed point of the sweep stops it |
| `Convergence.ZeroToleranceMeansUnchanged` | pyscripts/optimal_control_class.py:134-136 | with tol = 0, a trajectory passes the test iff none of its components changed |
| `Sweep.OptimalControl.IsIteration` | pyscripts/optimal_control_class.py:119-132 | one sweep iteration from a previous control: the RK4 states from x0, the terminal adjoint on them, the RK4 adjoints from it, and the damped update of the previous control (a definition that Iterate's and Solve's contracts use) |
| `Sweep.OptimalControl.Iterate` | pyscripts/optimal_control_class.py:119-132 | one pass of the sweep loop in place: x[0] is kept; the result is Terminal's on the new x (so only the two terminal errors can occur); when it succeeds, x, lambda and u are one sweep iteration from the old control: the RK4 states from x[0], the RK4 adjoints from the terminal value, and the damped update |
| `Sweep.OptimalControl.Solve` | pyscripts/optimal_control_class.py:77-140 | see the list below |

`Sweep.OptimalControl.Solve` states:

- A non-empty bounds argument replaces the stored bounds.
- It fails with BoundsCountMismatch iff the bound count differs from n_controls.
- It never re-checks the ordering of the bounds.
- It fails with StateShapeMismatch iff x0 does not fit a state row.
- With zero fuel and no configuration error it stops unconverged.
- It never converges with zero controls or zero states: the minimum over no components raises first.
- A converged result has these properties:
  - all four trajectories have N+1 entries, and the time grid is t;
  - x[0] = x0, and every x[k] is the k-th RK4 state from x0 under the previous control;
  - every lambda[k] is the k-th RK4 adjoint from the terminal adjoint computed on that x;
  - u is the damped update of the previous control;
  - the previous control, state and adjoint are the trajectories as the last iteration found them:
    - on the first pass, the starting trajectories (`IsStart`);
    - otherwise, the result of one earlier iteration (`IsIteration` from some earlier control);
  - all three trajectories pass the relative-change test against those previous values.

## Left out

- `plotting` (pyscripts/optimal_control_class.py:142-155) draws with matplotlib only. It is not modelled.
- The unused `sympy` import is not modelled.
- The random sample `np.random.beta(1000, 1000)` is an input to `Solve` (`samples`). Its values lie in [0, 1], the support of that distribution.
- `N = round(T/h)` and the grid `np.linspace(0, T, N+1)` are inputs to `Solve` (`t`, with N+1 entries). `T` itself is not modelled.
- The default arguments are not modelled: `h = 1e-3`, `tol = 1e-4`, `conv_comb_u = 0.5`, `n_controls = n_states = 1`. `Create` and `Solve` take every value explicitly.
- The sweep loop has no iteration cap. `Solve` takes a `fuel` bound and returns `OutOfFuel` when it runs out. The model proves only what holds when the loop exits.
- Floating point is not modelled. Arithmetic is over `real`, with no rounding, NaN, overflow or accuracy claims (for example, the O(h^4) error of RK4).
- Infinite bounds are `None` on their side. A lower bound of +inf or an upper bound of -inf cannot be written. The constructor rejects both, but the unchecked bounds argument of `solve` could pass them, and then the source computes inf or nan.
- The callbacks are arrow-typed functions. Their parameter bag is closed over them.
- Inside the RK4 stages and the control blend, a callback's result is read at the width of the row it updates (`Comp`); a missing component reads as 0. So the numpy broadcasting and shape errors that a wrong-width callback result would raise there are not modelled. Row assignments are modelled with their broadcasting and errors: `x[0] = x0`, `lambda_[-1] = dphi(x)`, and the assignment of `theta_list` to the listed indices.
- `Terminal` merges two errors into `FreeAdjointMismatch`: an out-of-range free index, and a `theta_list` that cannot be broadcast to the index list. numpy raises different exceptions for them, in an order the model does not fix. Boolean index lists are not modelled.
- Sweep.OptimalControl.Solve: does not relate a `TerminalShapeMismatch` or `FreeAdjointMismatch` failure to the state trajectory of the failing iteration. `Terminal`'s own contract states when it fails.
- Sweep.OptimalControl.Solve: states the earlier controls only as far as the last two iterations need them. It does not describe the whole sequence of iterates, and it does not give the number of iterations a converged run took.
