/**
 * The damped control update: each control row becomes a convex combination
 * of the update callback's candidate and the previous row. No projection
 * back into the bounds follows.
 */
module ControlUpdate {
  import opened Results
  import opened Vectors
  import opened Bounds

  /** Control update callback (t, x, lambda) -> raw control candidate. */
  type ControlRule = (real, Vec, Vec) -> Vec

  /** coef * candidate + (1 - coef) * previous, at the width of the previous row. */
  function Blend(coef: real, candidate: Vec, previous: Vec): (r: Vec)
    ensures |r| == |previous|
  {
    seq(|previous|, j requires 0 <= j < |previous| => coef * Comp(candidate, j) + (1.0 - coef) * previous[j])
  }

  /** Every grid row blended with the rule's candidate at that instant. */
  function UpdatedControl(rule: ControlRule, coef: real, t: seq<real>, x: seq<Vec>, lambda: seq<Vec>, u: seq<Vec>): (r: seq<Vec>)
    requires |x| == |t| && |lambda| == |t| && |u| == |t|
    ensures |r| == |u|
    ensures forall i :: 0 <= i < |u| ==> |r[i]| == |u[i]|
  {
    var r := seq(|u|, i requires 0 <= i < |u| => Blend(coef, rule(t[i], x[i], lambda[i]), u[i]));
    assert forall i :: 0 <= i < |u| ==> r[i] == Blend(coef, rule(t[i], x[i], lambda[i]), u[i]);
    r
  }

  /** With a coefficient in [0, 1], each blended component lies between the candidate and the previous value. */
  lemma BlendBetween(coef: real, candidate: Vec, previous: Vec, j: nat)
    requires 0.0 <= coef <= 1.0 && j < |previous|
    ensures Min(Comp(candidate, j), previous[j]) <= Blend(coef, candidate, previous)[j]
    ensures Blend(coef, candidate, previous)[j] <= Max(Comp(candidate, j), previous[j])
  {
    var a, b := Comp(candidate, j), previous[j];
    assert Blend(coef, candidate, previous)[j] == b + coef * (a - b);
  }

  /** Every updated control component lies between its candidate and its previous value. */
  lemma UpdateBetween(rule: ControlRule, coef: real, t: seq<real>, x: seq<Vec>, lambda: seq<Vec>, u: seq<Vec>, i: nat, j: nat)
    requires |x| == |t| && |lambda| == |t| && |u| == |t|
    requires 0.0 <= coef <= 1.0 && i < |u| && j < |u[i]|
    ensures var c := Comp(rule(t[i], x[i], lambda[i]), j);
            Min(c, u[i][j]) <= UpdatedControl(rule, coef, t, x, lambda, u)[i][j] <= Max(c, u[i][j])
  {
    BlendBetween(coef, rule(t[i], x[i], lambda[i]), u[i], j);
  }

  /** When candidate and previous value both satisfy a bound pair, so does the blend. */
  lemma BlendKeepsBounds(coef: real, candidate: Vec, previous: Vec, j: nat, b: Bound)
    requires 0.0 <= coef <= 1.0 && j < |previous|
    requires InBounds(b, Comp(candidate, j)) && InBounds(b, previous[j])
    ensures InBounds(b, Blend(coef, candidate, previous)[j])
  {
    BlendBetween(coef, candidate, previous, j);
  }

  /** No clipping: a candidate outside the bounds drags the blend outside them. */
  lemma BlendMayLeaveBounds()
    ensures InBounds(Bound(Some(0.0), Some(1.0)), 0.0)
    ensures Blend(0.5, [4.0], [0.0]) == [2.0]
    ensures !InBounds(Bound(Some(0.0), Some(1.0)), Blend(0.5, [4.0], [0.0])[0])
  {
    assert Blend(0.5, [4.0], [0.0])[0] == 2.0;
  }
}
