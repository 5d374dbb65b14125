/** Optional values and service results: the store's nullable answers and the services' thrown errors. */
module Wrappers {

  /** A value that may be absent: the model of `null` / `undefined`. */
  datatype Option<+T> = None | Some(value: T)

  /** The outcome of a service call: its value, or the `ApiError` it throws. */
  datatype Result<+R, +E> = Success(value: R) | Failure(error: E)
}
