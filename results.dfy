/** Failure-carrying values: a Python exception that aborts a search becomes a Failure. */
module Results {

  datatype Option<+T> = None | Some(value: T)

  datatype Result<+T, +E> = Success(value: T) | Failure(error: E)
}
