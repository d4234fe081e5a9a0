/** Option and Result: the absent value (Python's None) and the raised error of the cache code. */
module Wrappers {

  datatype Option<+T> = None | Some(value: T)

  datatype Result<+R, +E> = Success(value: R) | Failure(error: E)
}
