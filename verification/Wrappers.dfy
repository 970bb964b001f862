/** Optional values and results, shared by every component. */
module Wrappers {

  datatype Option<+T> = None | Some(value: T)

  datatype Result<+T, +E> = Success(value: T) | Failure(error: E)

  type Byte = b: int | 0 <= b < 0x100

  /** The largest unsigned 32-bit number. */
  const U32_MAX := 0xFFFF_FFFF
}
