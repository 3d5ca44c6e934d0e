/** Shared vocabulary: optional values and the widths of the machine integers the program uses. */
module Common {

  datatype Option<+T> = None | Some(value: T)

  /** One octet, and one 64-bit word. */
  type Byte = b: int | 0 <= b < 256
  type Word = w: int | 0 <= w < U64_SIZE

  const U16_SIZE := 0x1_0000
  const U32_SIZE := 0x1_0000_0000
  const U64_SIZE := 0x1_0000_0000_0000_0000

  function Min(a: int, b: int): int {
    if a < b then a else b
  }

  function Max(a: int, b: int): int {
    if a > b then a else b
  }
}
