/** Option and Result values used where the modelled JavaScript returns
    `undefined`, a falsy value, or throws. */
module Wrappers {

  datatype Option<+T> = None | Some(value: T)

  datatype Result<+R, +E> = Success(value: R) | Failure(error: E)
}
