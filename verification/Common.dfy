/** Shared vocabulary: bytes, optional values, and results that may be an error. */
module Common {
  newtype byte = x: int | 0 <= x < 256
  type bytes = seq<byte>

  datatype Option<+T> = None | Some(value: T)
  datatype Result<+T> = Ok(value: T) | Err
}
