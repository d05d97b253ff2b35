/** Bytes, and the results of operations that can fail. */
module Bytes {

  /** An 8-bit unsigned value. */
  type Byte = x: int | 0 <= x < 256

  datatype Option<+T> = None | Some(value: T)

  datatype Result<+T> = Ok(value: T) | Err
}
