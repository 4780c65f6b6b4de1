/** Failure-carrying values shared by every layer of the model. */
module Wrappers {

  /** A value that may be absent: `undefined` in the source, or a lookup miss. */
  datatype Option<+T> = None | Some(value: T)

  /** The outcome of an operation that either produces a value or raises an error. */
  datatype Result<+T, +E> = Success(value: T) | Failure(error: E)

  /** The outcome of a check that produces nothing on success. */
  datatype Outcome<+E> = Pass | Fail(error: E)
}
