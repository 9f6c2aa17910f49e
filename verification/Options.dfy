/** The types that several modules share. */
module Options {
  datatype Option<+T> = None | Some(value: T)

  /** A computed value, or the error that the program raises. */
  datatype Result<+T, +E> = Ok(value: T) | Err(error: E)

  type Byte = b: int | 0 <= b < 256
}
