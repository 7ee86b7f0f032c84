/** Byte-level reads shared by the two JPEG header scanners. */
module Bytes {

  /** One byte of a JPEG file. */
  type byte = x: int | 0 <= x < 256

  /** The big-endian unsigned 16-bit value stored at `off` (`_read_be_u16`, and
      `struct.unpack('>H', ...)` on a 2-byte slice): the two bytes are its base-256 digits. */
  function ReadBeU16(b: seq<byte>, off: nat): (v: nat)
    requires off + 2 <= |b|
    ensures v < 0x1_0000
    ensures v / 256 == b[off] && v % 256 == b[off + 1]
  {
    (b[off] as int) * 256 + (b[off + 1] as int)
  }

  /** `(x >> 4) & 0x0F` of a byte. */
  function HighNibble(x: byte): (h: nat)
    ensures h < 16
  {
    x / 16
  }

  /** `x & 0x0F` of a byte; with the high nibble it rebuilds the byte. */
  function LowNibble(x: byte): (l: nat)
    ensures l < 16 && HighNibble(x) * 16 + l == x
  {
    x % 16
  }
}
