/** Small value types shared by every module: optional values and the error
    returns of Go functions (`(T, error)` and a bare `error`). */
module Common {

  datatype Option<T> = None | Some(value: T)

  /** A Go `(T, error)` pair: either a value or an error with its message. */
  datatype Result<T> = Ok(value: T) | Err(error: string)

  /** A bare Go `error` return: nil, or an error with its message. */
  datatype Outcome = Pass | Fail(error: string)

  /** Go's built-in `max` on two ints. */
  function Max(a: int, b: int): int
  {
    if a >= b then a else b
  }

  /** Go's built-in `min` on two ints. */
  function Min(a: int, b: int): int
  {
    if a <= b then a else b
  }
}
