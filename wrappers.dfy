/** Failure-carrying wrappers shared by the handlers. */
module Wrappers {

  datatype Option<+T> = None | Some(value: T)

  /** The outcome of a handler invocation: a value, or the exception that escaped it. */
  datatype Result<+R, +E> = Success(value: R) | Failure(error: E)
}
