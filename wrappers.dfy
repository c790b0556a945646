/** Option and Result, the value forms of Python's `None` and of a raised exception. */
module Wrappers {

  datatype Option<+T> = None | Some(value: T)

  datatype Result<+R, +E> = Success(value: R) | Failure(error: E) {

    predicate IsFailure() {
      Failure?
    }

    function PropagateFailure<U>(): Result<U, E>
      requires Failure?
    {
      Failure(error)
    }

    function Extract(): R
      requires Success?
    {
      value
    }
  }
}

/** Octets as the HTTP body and percent-decoding see them. */
module Bytes {

  type byte = x: int | 0 <= x < 256
}
