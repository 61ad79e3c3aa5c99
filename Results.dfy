/** Failure-compatible wrappers used for the exceptions the system raises. */
module Results {

  datatype Option<+T> = None | Some(value: T)

  /** A computation that either yields a value or raises an error. */
  datatype Result<+T, +E> = Success(value: T) | Failure(error: E)

  /** A computation that yields nothing but may raise an error. */
  datatype Outcome<+E> = Pass | Fail(error: E)
}
