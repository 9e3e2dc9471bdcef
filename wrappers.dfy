/** Optional values and results with an error, used for the C code's
    "returned 0 / -1 / false" paths. */
module Wrappers {

  datatype Option<+T> = None | Some(value: T)

  datatype Result<+T, +E> = Success(value: T) | Failure(error: E)
}
