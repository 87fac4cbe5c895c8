/** Option, Result and Outcome: the model's stand-ins for JavaScript's
    `undefined`, thrown exceptions and rejected promises. */
module Wrappers {

  datatype Option<+T> = None | Some(value: T)

  datatype Result<+R, +E> = Success(value: R) | Failure(error: E)

  datatype Outcome<+E> = Pass | Fail(error: E)
}
