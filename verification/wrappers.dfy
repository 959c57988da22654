/** Failure-compatible helper datatypes shared by the whole model. */
module Wrappers {

  /** A value that may be absent (Python's `Optional`, `None` being absence). */
  datatype Option<+T> = None | Some(value: T)

  /** The outcome of an operation that either returns a value or raises. */
  datatype Result<+T, +E> = Ok(value: T) | Err(error: E)
}
