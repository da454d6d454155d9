/** The machine integers the code uses, as ranges of the unbounded ones. */
module Integers {
  type u16 = n: int | 0 <= n < 0x1_0000
  type u24 = n: int | 0 <= n < 0x100_0000
  type u32 = n: int | 0 <= n < 0x1_0000_0000
  type int64 = n: int | -0x8000_0000_0000_0000 <= n < 0x8000_0000_0000_0000
}
