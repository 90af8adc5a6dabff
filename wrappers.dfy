/** Option and Result, used for pandas lookups that can fail and for the
    exceptions the comparison code raises. */
module Wrappers {

  datatype Option<+T> = None | Some(value: T)

  datatype Result<+R, +E> = Success(value: R) | Failure(error: E)
}
