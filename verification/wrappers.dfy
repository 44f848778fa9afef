/** Failure-carrying wrappers shared by the whole model. */
module Wrappers {

  /** A value that may be absent (the engine's `bool` + out-parameter pairs). */
  datatype Option<+T> = None | Some(value: T)

  /** A value or the reason it could not be produced (the engine's
      `nullptr` snapshot + error string). */
  datatype Result<+T, +E> = Ok(value: T) | Err(error: E) {

    predicate IsFailure() {
      Err?
    }

    function PropagateFailure<U>(): Result<U, E>
      requires Err?
    {
      Err(error)
    }

    function Extract(): T
      requires Ok?
    {
      value
    }
  }
}
