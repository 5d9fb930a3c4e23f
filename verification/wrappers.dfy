/** Option and Result: the failure-carrying datatypes the model uses in place of
    Python's `None` and raised exceptions. */
module Wrappers {

  datatype Option<+T> = None | Some(value: T)

  /** The outcome of a call that either returns `value` or raises `error`. */
  datatype Result<+R, +E> = Success(value: R) | Failure(error: E)
}
