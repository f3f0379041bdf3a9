/** Failure-carrying wrappers used for the error paths of the model. */
module Wrappers {

  /** A value that may be absent: a failed read, a parse that did not succeed. */
  datatype Option<+T> = None | Some(value: T)

  /** Either a computed value or the reason the computation stopped early. */
  datatype Result<+R, +E> = Success(value: R) | Failure(error: E)
}
