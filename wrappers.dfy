/** Failure-carrying return types for the exceptions and `null` returns of the source. */
module Wrappers {

  datatype Option<+T> = None | Some(value: T)

  datatype Result<+T, +E> = Success(value: T) | Failure(error: E)

  /** A void call that either returns normally or throws `error`. */
  datatype Outcome<+E> = Pass | Fail(error: E)
}
