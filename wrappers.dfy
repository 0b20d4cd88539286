/** Option and Result values for the places where the program either has a
    value or stops with a message (`expect`, `unwrap`, `assert!`). */
module Wrappers {

  datatype Option<+T> = None | Some(value: T)

  datatype Result<+R, +E> = Success(value: R) | Failure(error: E)
}
