/** The powers of two and largest values of the source's integer types. */
module Widths {
  const TWO_24: int := 0x100_0000
  const TWO_31: int := 0x8000_0000
  const TWO_32: int := 0x1_0000_0000
  const TWO_52: int := 0x10_0000_0000_0000
  const TWO_63: int := 0x8000_0000_0000_0000
  const TWO_64: int := 0x1_0000_0000_0000_0000
  const TWO_127: int := 0x8000_0000_0000_0000_0000_0000_0000_0000
  const TWO_128: int := 0x1_0000_0000_0000_0000_0000_0000_0000_0000

  const UINT32_MAX: int := TWO_32 - 1
  const UINT64_MAX: int := TWO_64 - 1
  /** `size_t` is taken to have 64 bits. */
  const SIZE_MAX: int := UINT64_MAX
}
