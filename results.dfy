/** Optional values and the outcome of an operation that may fail. */
module Results {

  /** A value that may be absent; stands for a Java reference that may be null. */
  datatype Option<+T> = None | Some(value: T)

  /** The value computed by an operation, or the reason it failed. */
  datatype Result<+T, +E> = Success(value: T) | Failure(error: E)

  /** The outcome of an operation that computes nothing but may fail. */
  datatype Outcome<+E> = Pass | Fail(error: E)
}
