/** Failure-carrying values shared by the other modules. */
module Results {

  /** A value that may be absent: a file whose content could not be read has no digest. */
  datatype Option<+T> = None | Some(value: T)

  /** The outcome of an operation that raises instead of returning in the program. */
  datatype Result<+T, +E> = Success(value: T) | Failure(error: E)
}
