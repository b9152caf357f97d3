/** The widths of the machine's unsigned integers. */
module Widths {
  const TWO_16: nat := 0x1_0000
  const TWO_32: nat := 0x1_0000_0000
  const TWO_64: nat := 0x1_0000_0000_0000_0000

  type u8 = x: nat | x < 256
  type u16 = x: nat | x < TWO_16
  type u32 = x: nat | x < TWO_32

  /** Conversion to uint32_t. */
  function Low32(x: int): u32 { x % TWO_32 }
}
