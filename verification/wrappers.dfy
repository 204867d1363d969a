/** Failure-compatible result type, usable with `:-`, standing in for Rust's `Result`. */
module Wrappers {

  /** Either a value (`Ok`) or an error (`Err`). */
  datatype Result<+T, +E> = Ok(value: T) | Err(error: E) {

    predicate IsFailure() {
      Err?
    }

    function PropagateFailure<U>(): Result<U, E>
      requires Err?
    {
      Err(error)
    }

    function Extract(): T
      requires Ok?
    {
      value
    }
  }
}
