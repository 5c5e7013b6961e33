/** Failure-compatible datatypes shared by the model. */
module Wrappers {

  /** A value that may be absent: the model of a C# nullable `int?`. */
  datatype Option<T> = None | Some(value: T)

  /** The outcome of an operation that either returns a value or throws. */
  datatype Result<T, E> = Success(value: T) | Failure(error: E)
}
