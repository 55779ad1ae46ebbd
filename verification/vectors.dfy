/** Rows of a trajectory: the state, control or adjoint vector at one grid instant. */
module Vectors {
  import opened Results

  type Vec = seq<real>

  /** Scalar helpers: absolute value, minimum and maximum. */
  function Abs(a: real): real
  {
    if a < 0.0 then -a else a
  }

  function Min(a: real, b: real): real
  {
    if a <= b then a else b
  }

  function Max(a: real, b: real): real
  {
    if a >= b then a else b
  }

  /** Component j of v; a component past the end of v reads as zero. */
  function Comp(v: Vec, j: nat): real
  {
    if j < |v| then v[j] else 0.0
  }

  function Zeros(n: nat): (r: Vec)
    ensures |r| == n
    ensures forall j :: 0 <= j < n ==> r[j] == 0.0
  {
    seq(n, j => 0.0)
  }

  /** a + c*k, taken at the width of a. */
  function AddScaled(a: Vec, c: real, k: Vec): (r: Vec)
    ensures |r| == |a|
  {
    seq(|a|, j requires 0 <= j < |a| => a[j] + c * Comp(k, j))
  }

  /** a - c*k, taken at the width of a. */
  function SubScaled(a: Vec, c: real, k: Vec): (r: Vec)
    ensures |r| == |a|
  {
    seq(|a|, j requires 0 <= j < |a| => a[j] - c * Comp(k, j))
  }

  /** 0.5*(a + b), taken at the width of a. */
  function Average(a: Vec, b: Vec): (r: Vec)
    ensures |r| == |a|
  {
    seq(|a|, j requires 0 <= j < |a| => 0.5 * (a[j] + Comp(b, j)))
  }

  /** The weighted Runge-Kutta stage sum k1 + 2*k2 + 2*k3 + k4 at width n. */
  function StageSum(n: nat, k1: Vec, k2: Vec, k3: Vec, k4: Vec): (r: Vec)
    ensures |r| == n
  {
    seq(n, j requires 0 <= j < n => Comp(k1, j) + 2.0 * Comp(k2, j) + 2.0 * Comp(k3, j) + Comp(k4, j))
  }

  /**
   * Assigning v into a row of width n, as an array row assignment does:
   * v of width n is copied, v of width 1 is repeated, any other width is refused.
   */
  function Broadcast(n: nat, v: Vec): (r: Option<Vec>)
    ensures r.Some? <==> |v| == n || |v| == 1
    ensures r.Some? ==> |r.value| == n
    ensures r.Some? && |v| == n ==> r.value == v
    ensures r.Some? ==> forall j :: 0 <= j < n ==> r.value[j] in v
  {
    if |v| == n then Some(v)
    else if |v| == 1 then Some(seq(n, j => v[0]))
    else None
  }
}
