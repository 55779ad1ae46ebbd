/**
 * The terminal adjoint: the transversality callback's value on the final
 * state trajectory, with the listed "free" components overwritten by
 * externally supplied values (index-list assignment into the last adjoint row).
 */
module TerminalAdjoint {
  import opened Results
  import opened Vectors

  /** Transversality callback: state trajectory -> terminal adjoint. */
  type TransversalityRule = seq<Vec> -> Vec

  /** The default transversality condition: the zero vector of width n. */
  function ZeroTransversality(n: nat): (phi: TransversalityRule)
    ensures forall x :: phi(x) == Zeros(n)
  {
    x => Zeros(n)
  }

  /** An index into a row of width n; negative indices count from the end. */
  predicate IndexInRange(i: int, n: nat)
  {
    -(n as int) <= i < n
  }

  function Normalize(i: int, n: nat): (r: nat)
    requires IndexInRange(i, n)
    ensures r < n
    ensures i >= 0 ==> r == i
  {
    if i < 0 then i + n else i
  }

  /** Assigns vals[k] to component idx[k], for k in increasing order. */
  function AssignAt(v: Vec, idx: seq<int>, vals: seq<real>): (r: Vec)
    requires |vals| == |idx|
    requires forall k :: 0 <= k < |idx| ==> IndexInRange(idx[k], |v|)
    ensures |r| == |v|
    decreases |idx|
  {
    if idx == [] then v
    else AssignAt(v[Normalize(idx[0], |v|) := vals[0]], idx[1..], vals[1..])
  }

  lemma {:induction false} AssignAtUnlisted(v: Vec, idx: seq<int>, vals: seq<real>, j: nat)
    requires |vals| == |idx|
    requires forall k :: 0 <= k < |idx| ==> IndexInRange(idx[k], |v|)
    requires j < |v| && forall k :: 0 <= k < |idx| ==> Normalize(idx[k], |v|) != j
    ensures AssignAt(v, idx, vals)[j] == v[j]
    decreases |idx|
  {
    if idx != [] {
      var w := v[Normalize(idx[0], |v|) := vals[0]];
      forall k | 0 <= k < |idx| - 1
        ensures IndexInRange(idx[1..][k], |w|) && Normalize(idx[1..][k], |w|) != j
      {
        assert idx[1..][k] == idx[k + 1];
      }
      AssignAtUnlisted(w, idx[1..], vals[1..], j);
    }
  }

  /** The component named by the last occurrence of an index takes that occurrence's value. */
  lemma {:induction false} AssignAtLast(v: Vec, idx: seq<int>, vals: seq<real>, k: nat)
    requires |vals| == |idx|
    requires forall m :: 0 <= m < |idx| ==> IndexInRange(idx[m], |v|)
    requires k < |idx|
    requires forall m :: k < m < |idx| ==> Normalize(idx[m], |v|) != Normalize(idx[k], |v|)
    ensures AssignAt(v, idx, vals)[Normalize(idx[k], |v|)] == vals[k]
    decreases |idx|
  {
    var w := v[Normalize(idx[0], |v|) := vals[0]];
    forall m | 0 <= m < |idx| - 1
      ensures IndexInRange(idx[1..][m], |w|)
    {
      assert idx[1..][m] == idx[m + 1];
    }
    if k == 0 {
      forall m | 0 <= m < |idx| - 1
        ensures Normalize(idx[1..][m], |w|) != Normalize(idx[0], |v|)
      {
        assert idx[1..][m] == idx[m + 1];
      }
      AssignAtUnlisted(w, idx[1..], vals[1..], Normalize(idx[0], |v|));
    } else {
      forall m | k - 1 < m < |idx| - 1
        ensures Normalize(idx[1..][m], |w|) != Normalize(idx[1..][k - 1], |w|)
      {
        assert idx[1..][m] == idx[m + 1] && idx[1..][k - 1] == idx[k];
      }
      AssignAtLast(w, idx[1..], vals[1..], k - 1);
      assert idx[1..][k - 1] == idx[k] && vals[1..][k - 1] == vals[k];
    }
  }

  /**
   * The last adjoint row: phi broadcast to width n, then the components
   * listed in free overwritten by theta (broadcast to the length of free).
   */
  function Terminal(phi: Vec, n: nat, free: seq<int>, theta: seq<real>): (r: Result<Vec>)
    ensures r == Err(TerminalShapeMismatch) <==> Broadcast(n, phi).None?
    ensures r == Err(FreeAdjointMismatch) <==>
              Broadcast(n, phi).Some? &&
              (Broadcast(|free|, theta).None? || exists k :: 0 <= k < |free| && !IndexInRange(free[k], n))
    ensures r.Ok? ==> |r.value| == n
  {
    match Broadcast(n, phi)
    case None => Err(TerminalShapeMismatch)
    case Some(row) =>
      match Broadcast(|free|, theta)
      case None => Err(FreeAdjointMismatch)
      case Some(vals) =>
        if forall k :: 0 <= k < |free| ==> IndexInRange(free[k], n) then Ok(AssignAt(row, free, vals))
        else Err(FreeAdjointMismatch)
  }

  /**
   * On success the terminal adjoint agrees with the transversality value in
   * every component no free index names, and a named component holds the
   * value supplied for the last index that names it.
   */
  lemma TerminalComponents(phi: Vec, n: nat, free: seq<int>, theta: seq<real>)
    requires Terminal(phi, n, free, theta).Ok?
    ensures var r := Terminal(phi, n, free, theta).value;
            forall j :: 0 <= j < n && (forall k :: 0 <= k < |free| ==> Normalize(free[k], n) != j) ==>
              r[j] == Broadcast(n, phi).value[j]
    ensures var r := Terminal(phi, n, free, theta).value;
            forall k :: 0 <= k < |free| && (forall m :: k < m < |free| ==> Normalize(free[m], n) != Normalize(free[k], n)) ==>
              r[Normalize(free[k], n)] == (if |theta| == |free| then theta[k] else theta[0])
  {
    var row := Broadcast(n, phi).value;
    var vals := Broadcast(|free|, theta).value;
    forall j | 0 <= j < n && (forall k :: 0 <= k < |free| ==> Normalize(free[k], n) != j)
      ensures AssignAt(row, free, vals)[j] == row[j]
    {
      AssignAtUnlisted(row, free, vals, j);
    }
    forall k | 0 <= k < |free| && (forall m :: k < m < |free| ==> Normalize(free[m], n) != Normalize(free[k], n))
      ensures AssignAt(row, free, vals)[Normalize(free[k], n)] == (if |theta| == |free| then theta[k] else theta[0])
    {
      AssignAtLast(row, free, vals, k);
    }
  }

  /** With no free indices the terminal adjoint is the transversality value itself. */
  lemma NoFreeIndicesKeepsTransversality(phi: Vec, n: nat, theta: seq<real>)
    requires |phi| == n && |theta| <= 1
    ensures Terminal(phi, n, [], theta) == Ok(phi)
  {
  }

  /** Under the default transversality condition the unlisted terminal components are zero. */
  lemma DefaultTerminalIsZeroOffFree(x: seq<Vec>, n: nat, free: seq<int>, theta: seq<real>)
    requires Terminal(ZeroTransversality(n)(x), n, free, theta).Ok?
    ensures var r := Terminal(ZeroTransversality(n)(x), n, free, theta).value;
            forall j :: 0 <= j < n && (forall k :: 0 <= k < |free| ==> Normalize(free[k], n) != j) ==> r[j] == 0.0
  {
    TerminalComponents(ZeroTransversality(n)(x), n, free, theta);
  }
}
