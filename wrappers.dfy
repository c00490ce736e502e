/** Option and Result: Python's `None`, and the outcome of a call that may
    raise one of the exceptions the extraction code raises. */
module Wrappers {

  datatype Option<+T> = None | Some(value: T)

  datatype Result<+R, +E> = Success(value: R) | Failure(error: E)
}
