/** Option and Result, the failure-carrying values the model uses where the
    Go code returns an error or a missing value. */
module Wrappers {

  datatype Option<+T> = None | Some(value: T)

  datatype Result<+R, +E> = Success(value: R) | Failure(error: E)
}
