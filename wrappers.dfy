/** Failure-aware return types shared by the corpus store and the range analyzer. */
module Wrappers {

  /** `None` plays the part of Python's `None` returned by `next(..., None)`. */
  datatype Option<+T> = None | Some(value: T)

  /** The outcome of an operation that can refuse its input. */
  datatype Result<+T, +E> = Success(value: T) | Failure(error: E)
}
