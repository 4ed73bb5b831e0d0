/** Failure-carrying results shared by the codec modules, and the byte type. */
module Wrappers {

  datatype Option<+T> = None | Some(value: T)

  datatype Result<+R, +E> = Success(value: R) | Failure(error: E)

  /** An octet, as held in a Python `bytes` object. */
  type Byte = b: int | 0 <= b < 256

  type Bytes = seq<Byte>
}
