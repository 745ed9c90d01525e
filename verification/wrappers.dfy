/** Small failure-carrying datatypes shared by the whole model. */
module Wrappers {

  /** A value that may be absent (a lookup that found nothing, an artifact that failed to load). */
  datatype Option<+T> = None | Some(value: T)

  /** The outcome of an operation that can fail with an error of type `E`. */
  datatype Result<+T, +E> = Success(value: T) | Failure(error: E)
}
