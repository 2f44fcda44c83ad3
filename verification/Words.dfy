/** The machine's bytes, and the size of a 32-bit word. */
module Words {
  const TWO_32: int := 0x1_0000_0000

  type byte = x: int | 0 <= x < 256
}
