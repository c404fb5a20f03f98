/** Option and Result: the model's stand-ins for Go's multiple return values
    `(value, error)` and for a nil slice or a missing entry. */
module Wrappers {

  datatype Option<+T> = None | Some(value: T)

  /** `Success(v)` is a call that returned `v` with a nil error; `Failure(e)`
      is a call that returned the non-nil error `e`. */
  datatype Result<+R, +E> = Success(value: R) | Failure(error: E)
}
