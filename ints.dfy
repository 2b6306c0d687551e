/** The fixed-width unsigned integers of the source, as bounded integers. */
module Ints {

  const U32_LIMIT: int := 0x1_0000_0000

  newtype u8 = x: int | 0 <= x < 0x100
  newtype u32 = x: int | 0 <= x < 0x1_0000_0000
  newtype u64 = x: int | 0 <= x < 0x1_0000_0000_0000_0000
}
