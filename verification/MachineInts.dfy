/** The machine integers of the program, as subsets of the integers. */
module MachineInts {

  const TWO32: nat := 0x1_0000_0000

  type uint8 = x: int | 0 <= x < 256

  type u32 = x: int | 0 <= x < 0x1_0000_0000

  /** Difference of two 32-bit numbers, wrapping below zero. */
  function Sub32(a: int, b: int): u32 {
    (a - b) % TWO32
  }
}
