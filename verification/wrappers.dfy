/** An optional value and a value-or-error result, the shapes Go expresses as
    `(T, error)` pairs. */
module Wrappers {

  datatype Option<+T> = None | Some(value: T)

  datatype Result<+R, +E> = Success(value: R) | Failure(error: E)
}
