/** What every other module shares. */
module Basics {
  /** The unit of every buffer and message. */
  type Byte = bv8

  const INT_MAX := 0x7FFF_FFFF

  datatype Option<+T> = None | Some(value: T)
}
