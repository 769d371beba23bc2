/**
 * The entities the iterator works over: a wizard step, its visitation
 * state, and the exceptions the iterator's operations raise.
 */
module Steps {

  /**
   * A step of the wizard. Steps are compared by reference, as in the
   * source. The iterator only reads their attribute flags; each step's
   * flags are fixed here, although the application may change them
   * between two calls.
   */
  class Step {
    const optional: bool
    const editable: bool
    const disabled: bool
    const cancellable: bool

    constructor (optional: bool, editable: bool, disabled: bool, cancellable: bool)
      ensures this.optional == optional && this.editable == editable
      ensures this.disabled == disabled && this.cancellable == cancellable
    {
      this.optional := optional;
      this.editable := editable;
      this.disabled := disabled;
      this.cancellable := cancellable;
    }
  }

  /** The state tracker's per-step state. */
  datatype Visit = Unvisited | Visited

  /** The exceptions the iterator throws. */
  datatype Failure =
    | NoSuchElement         // no legal target for next, previous, skip or moveTo
    | IndexOutOfBounds      // a list access at -1 or past the end
    | IllegalArgument       // a stream limit of -1, from an unlisted current step
    | UnsupportedOperation  // `set`

  /** The outcome of an operation that returns nothing but may throw. */
  datatype Outcome = Done | Threw(error: Failure)

  /** The outcome of an operation that returns a value or throws. */
  datatype Result<+T> = Ok(value: T) | Err(error: Failure)
}
