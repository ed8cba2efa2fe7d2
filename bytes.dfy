/** Machine integers of the firmware: bytes and little-endian 16-bit values. */
module Bytes {

  /** A Rust `u8`. */
  type byte = x: int | 0 <= x < 0x100

  /** A Rust `u16`. */
  type uint16 = x: int | 0 <= x < 0x1_0000

  /** `u16::from_le_bytes([lo, hi])`. */
  function FromLe(lo: byte, hi: byte): (v: uint16)
  {
    lo + 256 * hi
  }

  /** `u16::to_le_bytes(v)`. */
  function ToLe(v: uint16): (r: seq<byte>)
    ensures |r| == 2 && FromLe(r[0], r[1]) == v
  {
    [v % 256, v / 256]
  }

  /** Little-endian decoding undoes the encoding. */
  lemma ToLeFromLe(lo: byte, hi: byte)
    ensures ToLe(FromLe(lo, hi)) == [lo, hi]
  {
  }

  /** `b & mask` of two bytes, as bit vectors. */
  function And(b: byte, mask: byte): (r: byte)
  {
    ((b as bv8) & (mask as bv8)) as int
  }
}
