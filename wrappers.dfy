/** Small value types shared by every script of the batch pipeline. */
module Wrappers {

  /** Python's `Optional`: `None` or a present value. */
  datatype Option<+T> = None | Some(value: T)

  /** What one call to a remote service ends with, after any retries:
      the value it returned, or the message of the exception it raised. */
  datatype Outcome<+T> = Ok(value: T) | Err(message: string)

  function Min(a: int, b: int): int
  {
    if a <= b then a else b
  }
}
