/** Failure-carrying results: a Python call either returns a value or raises. */
module Wrappers {

  datatype Option<+T> = None | Some(value: T)

  /** `Success(v)` is a normal return, `Failure(e)` an exception `e`. */
  datatype Result<+R, +E> = Success(value: R) | Failure(error: E)
}
