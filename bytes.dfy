/** Bytes as they travel in datagrams. */
module Bytes {

  /** One octet, Rust's `u8`. */
  newtype Byte = b: int | 0 <= b < 0x100
}
