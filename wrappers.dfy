/** Option and Result, the shapes the rest of the model uses for Go's
    `(value, error)` returns and nil-able values, and Go's `byte`. */
module Wrappers {

  datatype Option<+T> = None | Some(value: T)

  /** A Go `(value, err)` pair where the value is meaningless once err != nil. */
  datatype Result<+T, +E> = Ok(value: T) | Err(error: E)

  /** Go's `byte`. File contents and encoded messages are `seq<byte>`. */
  newtype byte = b: int | 0 <= b < 256
}
