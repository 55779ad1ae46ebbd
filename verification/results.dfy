/** Failure-carrying results and the error kinds the sweep can raise. */
module Results {

  datatype Option<+T> = None | Some(value: T)

  /** The exceptions the solver raises, one constructor per cause. */
  datatype Error =
    | BadBounds              // a bound pair (low, high) with low >= high, at construction
    | BoundsCountMismatch    // the number of bound pairs differs from the number of controls, in solve
    | StateShapeMismatch     // the initial state cannot be broadcast into a state row
    | TerminalShapeMismatch  // the transversality result cannot be broadcast into an adjoint row
    | FreeAdjointMismatch    // a free terminal-adjoint index is out of range, or the supplied values do not fit the indices
    | EmptyReduction         // the convergence test takes the minimum over zero components

  datatype Result<+T> = Ok(value: T) | Err(error: Error)
}
