// The widths of the machine integers the sources use.
module MachineIntegers {
  const U32_LIMIT: nat := 0x1_0000_0000
  const U64_MAX: nat := 0xFFFF_FFFF_FFFF_FFFF

  type U32 = x: int | 0 <= x < 0x1_0000_0000
}
