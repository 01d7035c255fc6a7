/** The unsigned integer widths of the C and C++ sources. Arithmetic on these types carries a proof
    obligation that nothing wraps; where the source does wrap or truncate, the model says so. */
module Widths {
  newtype uint8 = x: int | 0 <= x < 0x100
  newtype uint16 = x: int | 0 <= x < 0x1_0000
  newtype uint32 = x: int | 0 <= x < 0x1_0000_0000

  /** An eight-bit increment. */
  function Incremented(n: uint8): uint8 { if n == 255 then 0 else n + 1 }
}
