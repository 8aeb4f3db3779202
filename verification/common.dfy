/** Small failure-carrying datatypes shared by the launcher model. */
module Common {

  /** A value that may be absent: a `fetchone()` that found no row, a loop variable never bound. */
  datatype Option<+T> = None | Some(value: T)

  /** The outcome of a step that may raise instead of returning. */
  datatype Result<+T, +E> = Success(value: T) | Failure(error: E)
}
