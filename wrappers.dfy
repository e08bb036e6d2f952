/** Option and Result, used for the foreign calls that may raise and for the
    exceptions that escape the clustering endpoint. */
module Wrappers {

  datatype Option<+T> = None | Some(value: T)

  datatype Result<+R, +E> = Success(value: R) | Failure(error: E)
}
