/** Failure-carrying results and the fixed-width integer the element types use. */
module Base {

  datatype Option<+T> = None | Some(value: T)

  /** The outcome of a fallible operation; errors carry the message text the parser reports. */
  datatype Result<+T> = Ok(value: T) | Err(error: string)

  /** An unsigned 8-bit integer (`u8`). */
  newtype u8 = x: int | 0 <= x < 256

  /** Truncating cast `n as u8`: keeps the low eight bits. */
  function AsU8(n: nat): u8
  {
    (n % 256) as u8
  }
}
