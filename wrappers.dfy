/** The Option and Result datatypes shared by the model. */
module Wrappers {

  /** An optional value: `None` stands for JavaScript's null/undefined. */
  datatype Option<+T> = None | Some(value: T)

  /** The outcome of an operation that may fail with an error value. */
  datatype Result<+R, +E> = Success(value: R) | Failure(error: E)
}
