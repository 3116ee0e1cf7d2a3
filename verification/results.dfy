/** An optional value, and a result that carries either a value or an
    error. */
module Results {

  /** A value that may be absent (a record's date before it is stamped). */
  datatype Option<+T> = None | Some(value: T)

  /** The outcome of a decoding step that can fail the way the program's
      indexing fails. */
  datatype Result<+T, +E> = Success(value: T) | Failure(error: E)
}
