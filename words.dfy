/** Fixed-width unsigned integers of the C source, as bounded integers. */
module Words {

  const WordLimit: int := 0x1_0000_0000

  /** A `uint32_t`. */
  type Word = x: int | 0 <= x < WordLimit

  /** A `uint8_t`. */
  type Byte = x: int | 0 <= x < 0x100

  /** The `MAX(a, b)` macro of the source. */
  function Max(a: int, b: int): (m: int)
    ensures m >= a && m >= b
    ensures m == a || m == b
  {
    if a < b then b else a
  }
}
