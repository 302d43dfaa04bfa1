/** Failure-carrying results shared by the modules of the model. */
module Wrappers {

  /** A value that may be absent, as `undefined` is for a query still loading. */
  datatype Option<+T> = None | Some(value: T)

  /** The outcome of a handler: the value it returns, or the error it throws. */
  datatype Result<+R, +E> = Success(value: R) | Failure(error: E)
}
