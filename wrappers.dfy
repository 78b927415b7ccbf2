/** Optional values and results shared by every module of the model. */
module Wrappers {

  /** Python's `Optional[...]`: a value that may be absent. */
  datatype Option<+T> = None | Some(value: T)

  /** The outcome of an operation that can fail with an error of type E. */
  datatype Result<+R, +E> = Success(value: R) | Failure(error: E)
}
