/** Fixed-width unsigned integers of the class-file reader (u8, u16, u32, u64),
    as unbounded naturals restricted to their ranges. */
module Types {
  type u8 = x: nat | x < 0x100
  type u16 = x: nat | x < 0x1_0000
  type u32 = x: nat | x < 0x1_0000_0000
  type u64 = x: nat | x < 0x1_0000_0000_0000_0000
}
