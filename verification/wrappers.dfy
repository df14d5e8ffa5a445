/** Failure-carrying datatypes shared by every module of the model. */
module Wrappers {

  /** A value that may be absent: a nullable column or an optional payload field. */
  datatype Option<+T> = None | Some(value: T) {
    /** The value when present, `default` otherwise: what a partial update keeps for an unsent field. */
    function GetOr(default: T): T {
      match this
      case Some(v) => v
      case None => default
    }
  }

  /** The outcome of a step that either produces a value or fails with an error. */
  datatype Result<+T, +E> = Ok(value: T) | Err(error: E)

  /** The outcome of a check that produces nothing but may fail: a validator. */
  datatype Outcome<+E> = Pass | Fail(error: E)
}
