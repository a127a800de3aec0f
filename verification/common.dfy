/** Failure-aware wrapper types shared by the other modules. */
module Common {

  /** A value that may be absent (Python's `None`). */
  datatype Option<+T> = None | Some(value: T)

  /** Either a computed value or the error the computation raised. */
  datatype Result<+T, +E> = Success(value: T) | Failure(error: E)
}
