/** Absent-or-present values and success-or-failure results. */
module Wrappers {

  /** A value that may be absent; stands for a nullable reference. */
  datatype Option<+T> = None | Some(value: T)

  /** The outcome of an operation that may reject its arguments. */
  datatype Result<+R, +E> = Success(value: R) | Failure(error: E)
}
