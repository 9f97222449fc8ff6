/** Failure-carrying result types shared by every module of the model. */
module Wrappers {

  /** A value that may be absent. */
  datatype Option<+T> = None | Some(value: T)

  /** Either a computed value or the error the tool would throw. */
  datatype Result<+R, +E> = Success(value: R) | Failure(error: E)
}
