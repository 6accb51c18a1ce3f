/** Option and Result, for the source's nullable returns and thrown errors. */
module Wrappers {

  /** A Kotlin nullable value: `null` is `None`. */
  datatype Option<+T> = None | Some(value: T)

  /** The outcome of an operation that can throw: the value, or the error it raised. */
  datatype Result<+T, +E> = Success(value: T) | Failure(error: E)
}
