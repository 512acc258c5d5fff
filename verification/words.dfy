/** C's integer types. */
module Words {
  type Byte = b: int | 0 <= b < 0x100

  const WORD := 0x1_0000_0000
  const HALF := 0x8000_0000

  /** The int32_t with the same bits as a result modulo 2^32. */
  function Signed32(x: int): (r: int)
    ensures -HALF <= r < HALF
  {
    if x % WORD < HALF then x % WORD else x % WORD - WORD
  }
}
