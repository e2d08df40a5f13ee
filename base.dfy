/** Values shared by every part of the model: optional values and raw bytes. */
module Base {

  /** An attribute or a result that may be absent (Python's `None`). */
  datatype Option<+T> = None | Some(value: T)

  /** One octet of a downloaded or decoded image. */
  newtype Byte = b: int | 0 <= b < 256

  /** The raw content of an image, as Python's `bytes`. */
  type Bytes = seq<Byte>
}
