/** Failure-carrying datatypes used in place of Java's null returns and thrown exceptions. */
module Wrappers {

  /** A value that may be absent: Java's nullable reference or `Optional`. */
  datatype Option<+T> = None | Some(value: T) {

    /** The contained value, or `default` when absent. */
    function GetOr(default: T): T {
      match this
      case Some(v) => v
      case None => default
    }
  }

  /** A computation that either produced a value or threw an exception described by `E`. */
  datatype Result<+R, +E> = Ok(value: R) | Err(error: E) {

    predicate IsFailure() {
      Err?
    }

    function PropagateFailure<U>(): Result<U, E>
      requires Err?
    {
      Err(error)
    }

    function Extract(): R
      requires Ok?
    {
      value
    }
  }

  /** A call into code outside the model threw; the exception's details do not matter. */
  datatype Thrown = Thrown
}
