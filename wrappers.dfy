/** Option and Result values standing in for Python's `None` and raised exceptions. */
module Wrappers {

  /** `None` is Python's `None`; `Some(v)` is a present value. */
  datatype Option<+T> = None | Some(value: T)

  /** `Failure(e)` models a raised exception that ends the call; `Success(v)` a normal return. */
  datatype Result<+T, +E> = Success(value: T) | Failure(error: E)
}
