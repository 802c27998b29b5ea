/** Optional values and results with an error, shared by the other modules. */
module Wrappers {

  /** An optional value, the model of a Python argument that defaults to None. */
  datatype Option<+T> = None | Some(value: T)

  /** Either a value or the error that the source raises instead of returning one. */
  datatype Result<+R, +E> = Success(value: R) | Failure(error: E)
}
