/** Failure-carrying result types shared by every module of the model. */
module Basics {

  /** A value that may be absent (Python's `None`). */
  datatype Option<+T> = None | Some(value: T)

  /** The outcome of an operation that can stop with an error (`sys.exit(msg)`,
      a raised exception). */
  datatype Result<+T, +E> = Ok(value: T) | Err(error: E)
}
