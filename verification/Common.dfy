/** Types shared by every module of the model. */
module Common {
  /** A value that may be absent: Python's None, or SQL's NULL. */
  datatype Option<+T> = None | Some(value: T)

  /** One element of a Python `bytes` or `bytearray` object, where only its number matters. */
  type Byte = b: int | 0 <= b < 256
}
