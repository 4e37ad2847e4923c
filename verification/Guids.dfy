/** Guid (src/core/guid.h): two 64-bit halves. */
module Guids {
  datatype Guid = Guid(head: int, data: int)

  const NULL_GUID := Guid(0, 0)

  /** The conversion of a signed 64-bit integer to size_t. */
  function Unsigned64(x: int): nat {
    x % 0x1_0000_0000_0000_0000
  }
}
