/** Optional values and success/failure results shared by the model. */
module Options {

  /** A value that may be absent (Python's None). */
  datatype Option<+T> = None | Some(value: T)

  /** The outcome of a step that can fail with an error instead of producing a value. */
  datatype Result<+T, +E> = Success(value: T) | Failure(error: E)
}
