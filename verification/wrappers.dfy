/** Failure-carrying values shared by the model: an optional value and a
    success-or-error result, standing in for `undefined` and thrown errors. */
module Wrappers {

  datatype Option<+T> = None | Some(value: T)

  datatype Result<+R, +E> = Success(value: R) | Failure(error: E)
}
