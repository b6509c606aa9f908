/** The machine words of the firmware. */
module Words {

  const WORD := 0x1_0000_0000  // values of 32 bits

  type uint8 = x: int | 0 <= x < 256
  type uint32 = x: int | 0 <= x < 0x1_0000_0000
}
