/** Result types used by every service operation. */
module Wrappers {

  /** A value that may be absent; stands for a Java reference that may be null. */
  datatype Option<+T> = None | Some(value: T)

  /** The outcome of an operation that returns a value or raises a domain error. */
  datatype Result<+R, +E> = Success(value: R) | Failure(error: E)

  /** The outcome of an operation that returns nothing or raises a domain error. */
  datatype Outcome<+E> = Pass | Fail(error: E)
}
