/**
 * Option and Result, for values that may be absent and for operations that
 * can fail.
 */
module Wrappers {

  datatype Option<+T> = None | Some(value: T)

  datatype Result<+R, +E> = Success(value: R) | Failure(error: E)
}
