/** Option and Result, used for JavaScript's `null` returns and for the exceptions
    that end a parse. */
module Wrappers {

  datatype Option<+T> = None | Some(value: T)

  datatype Result<+R, +E> = Success(value: R) | Failure(error: E)
}
