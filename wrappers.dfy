/** The `Option` and `Result` datatypes shared by the modules of this model. */
module Wrappers {

  /** A value that may be absent: JavaScript's `undefined` is modelled as None. */
  datatype Option<+T> = None | Some(value: T)

  /** The outcome of an operation that can throw: Failure carries what went wrong. */
  datatype Result<+R, +E> = Success(value: R) | Failure(error: E)
}
