/** Failure-carrying datatypes shared by every module of the model. */
module Wrappers {

  /** A value that may be absent: the model of a query that can return `None`. */
  datatype Option<+T> = None | Some(value: T)

  /** The outcome of an operation that either produces a value or raises an exception. */
  datatype Result<+R, +E> = Ok(value: R) | Err(error: E)
}
