/** Fixed-width integer types of the C firmware, as bounded integers. */
module Bytes {

  /** uint8_t */
  type byte = x: int | 0 <= x < 0x100

  /** uint16_t */
  type u16 = x: int | 0 <= x < 0x1_0000

  /** int16_t */
  type i16 = x: int | -0x8000 <= x < 0x8000

  /** Size of the receive buffer allocated for one UART read (BUF_SIZE). */
  const BufSize: nat := 1024

  /** Two bytes read as one big-endian 16-bit value. */
  function BigEndian16(hi: byte, lo: byte): (r: u16)
    ensures r / 0x100 == hi && r % 0x100 == lo
  {
    hi * 0x100 + lo
  }
}
