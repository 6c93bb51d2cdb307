/** Fixed-width unsigned integers of the C++ sources, and the octets the TypeScript buffers carry. */
module MachineInts {
  newtype byte = x: int | 0 <= x < 0x100
  newtype u32 = x: int | 0 <= x < 0x1_0000_0000
  newtype u64 = x: int | 0 <= x < 0x1_0000_0000_0000_0000
}
