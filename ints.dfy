/** Go's fixed-width unsigned integer types, as ranges of `int`. */
module Ints {

  const MaxUint8: int := 0xFF
  const MaxUint32: int := 0xFFFF_FFFF
  const MinInt32: int := -0x8000_0000
  const MaxInt32: int := 0x7FFF_FFFF

  type uint8 = x: int | 0 <= x <= 0xFF
  type uint32 = x: int | 0 <= x <= 0xFFFF_FFFF
  type byte = uint8
}
