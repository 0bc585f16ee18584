/** Shared wrappers: a cell that may be missing (pandas NaN/NaT) and the outcome of
    a step that may raise. */
module Optional {

  /** A value that may be absent. */
  datatype Option<+T> = None | Some(value: T)

  /** The outcome of a computation that either returns a value or raises an error. */
  datatype Result<+R, +E> = Success(value: R) | Failure(error: E)
}
