/** Option and Result, used for the values PHP leaves undefined and for the
    inputs on which the parser raises. */
module Wrappers {

  datatype Option<+T> = None | Some(value: T)

  datatype Result<+R, +E> = Success(value: R) | Failure(error: E)
}
