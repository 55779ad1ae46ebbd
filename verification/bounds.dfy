/**
 * Control bounds: one (low, high) pair per control component, either side
 * possibly infinite, and the initial control guess mapped into them.
 */
module Bounds {
  import opened Results

  /** A bound pair; None on a side stands for an infinite bound on that side. */
  datatype Bound = Bound(low: Option<real>, high: Option<real>)

  const Unbounded: Bound := Bound(None, None)

  /** The per-pair test made at construction: it fails only for finite low >= high. */
  predicate Ordered(b: Bound)
  {
    b.low.Some? && b.high.Some? ==> b.low.value < b.high.value
  }

  predicate AllOrdered(bounds: seq<Bound>)
  {
    forall k :: 0 <= k < |bounds| ==> Ordered(bounds[k])
  }

  /** v satisfies the bound pair b. */
  predicate InBounds(b: Bound, v: real)
  {
    (b.low.Some? ==> b.low.value <= v) && (b.high.Some? ==> v <= b.high.value)
  }

  /** The bounds stored when none are given: one unbounded pair per control. */
  function DefaultBounds(nControls: nat): (r: seq<Bound>)
    ensures |r| == nControls && AllOrdered(r)
    ensures forall k :: 0 <= k < nControls ==> forall v: real :: InBounds(r[k], v)
  {
    seq(nControls, k => Unbounded)
  }

  /** The constructor's validation loop over the bound pairs. */
  method CheckBounds(bounds: seq<Bound>) returns (ok: bool)
    ensures ok <==> AllOrdered(bounds)
    ensures !ok ==> exists k :: 0 <= k < |bounds| && bounds[k].low.Some? && bounds[k].high.Some?
                                 && bounds[k].low.value >= bounds[k].high.value
  {
    for k := 0 to |bounds|
      invariant forall c :: 0 <= c < k ==> Ordered(bounds[c])
    {
      if !Ordered(bounds[k]) {
        return false;
      }
    }
    return true;
  }

  /**
   * The initial guess for one control component: a sample s from [0, 1]
   * placed according to which sides of b are finite.
   */
  function GuessSample(b: Bound, s: real): real
  {
    if b.low.Some? then
      if b.high.Some? then (b.high.value - b.low.value) * s + b.low.value
      else s + b.low.value
    else
      if b.high.Some? then b.high.value * s
      else s
  }

  /** The guess for one grid row: component k is mapped by bound pair k. */
  function GuessRow(bounds: seq<Bound>, samples: seq<real>): (r: seq<real>)
    requires |samples| == |bounds|
    ensures |r| == |bounds|
  {
    seq(|bounds|, k requires 0 <= k < |bounds| => GuessSample(bounds[k], samples[k]))
  }

  /** What the initial guess lands in, case by case, for an ordered pair and s in [0, 1]. */
  lemma GuessSampleCases(b: Bound, s: real)
    requires Ordered(b) && 0.0 <= s <= 1.0
    ensures b.low.Some? && b.high.Some? ==> b.low.value <= GuessSample(b, s) <= b.high.value
    ensures b.low.Some? && b.high.None? ==> b.low.value <= GuessSample(b, s) <= b.low.value + 1.0
    ensures b.low.None? && b.high.Some? ==>
              (GuessSample(b, s) <= b.high.value <==> b.high.value >= 0.0 || s == 1.0)
    ensures b.low.None? && b.high.None? ==> GuessSample(b, s) == s
  {
    if b.low.Some? && b.high.Some? {
      var lo, hi := b.low.value, b.high.value;
      assert 0.0 <= (hi - lo) * s <= hi - lo by {
        assert (hi - lo) * s <= (hi - lo) * 1.0;
      }
    }
    if b.low.None? && b.high.Some? {
      var hi := b.high.value;
      assert hi * s - hi == hi * (s - 1.0);
      if hi < 0.0 && s < 1.0 {
        assert hi * (s - 1.0) > 0.0;
      }
      if hi >= 0.0 {
        assert hi * (s - 1.0) <= 0.0;
      }
    }
  }

  /**
   * The initial guess lies within its bounds exactly when the pair is not
   * "upper bound only, negative" with a sample below 1.
   */
  lemma GuessInBoundsIff(b: Bound, s: real)
    requires Ordered(b) && 0.0 <= s <= 1.0
    ensures InBounds(b, GuessSample(b, s)) <==>
              !(b.low.None? && b.high.Some? && b.high.value < 0.0 && s < 1.0)
  {
    GuessSampleCases(b, s);
  }

  /** A concrete pair where the guess leaves its bounds: upper bound -1, sample 0.5. */
  lemma NegativeUpperBoundGuessOutside()
    ensures Ordered(Bound(None, Some(-1.0)))
    ensures GuessSample(Bound(None, Some(-1.0)), 0.5) == -0.5
    ensures !InBounds(Bound(None, Some(-1.0)), GuessSample(Bound(None, Some(-1.0)), 0.5))
  {
  }
}
