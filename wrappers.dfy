/** Option and Result: JavaScript's `null`/`undefined` and the error paths
    that the application reports through dialogs instead of exceptions. */
module Wrappers {

  datatype Option<+T> = None | Some(value: T)

  datatype Result<+R, +E> = Success(value: R) | Failure(error: E)
}
