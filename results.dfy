/** Failure-carrying values: the model's stand-in for the C++ exceptions and error returns. */
module Results {

  datatype Option<+T> = None | Some(value: T)

  /** A value, or the error that the C++ code would have thrown. */
  datatype Result<+R, +E> = Success(value: R) | Failure(error: E)

  /** The outcome of a `void` member that may throw. */
  datatype Outcome<+E> = Pass | Fail(error: E)
}
