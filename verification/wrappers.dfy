/** Failure-compatible result types used across the model. */
module Wrappers {

  /** An optional value: `None` stands for Python's `None`. */
  datatype Option<+T> = None | Some(value: T)

  /** The outcome of an operation that may raise: `Failure` carries what the
      source reports in its failed assertion. */
  datatype Result<+R, +E> = Success(value: R) | Failure(error: E)
}
