/** Failure-carrying values shared by the modules of this model. */
module Wrappers {

  /** A value that may be absent: the model's rendering of JavaScript's `null`/`undefined`. */
  datatype Option<+T> = None | Some(value: T)

  /** The outcome of an operation that either completes or throws an error described by `E`. */
  datatype Outcome<+E> = Pass | Fail(error: E)
}
