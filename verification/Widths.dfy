/** The machine widths the source's integers wrap or fail at. */
module Widths {
  const TWO_32 := 0x1_0000_0000
  const TWO_61 := 0x2000_0000_0000_0000
  const TWO_63 := 0x8000_0000_0000_0000
  const TWO_64 := 0x1_0000_0000_0000_0000
}
