/** The unsigned machine integers the decoders read, as bounded integers. */
module MachineInts {
  newtype u8 = x: int | 0 <= x < 0x100
  newtype u16 = x: int | 0 <= x < 0x1_0000
}
