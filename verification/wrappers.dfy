/** Failure-carrying result types shared by the rest of the model. */
module Wrappers {

  /** A value that may be absent; stands for Python's `Optional[T]`. */
  datatype Option<+T> = None | Some(value: T)

  /** The outcome of an operation that can raise: either a value or an error. */
  datatype Result<+T, +E> = Ok(value: T) | Err(error: E)
}
