/**
 The machine integers, bytes and result types shared by every module.

 The source works in `u64`, `u32` and `u8`. They are subset types here, so each sum or
 difference the source stores in such a field carries an obligation to fit it, and the
 `checked_*` branches of the source are ordinary comparisons against the bound.
 */
module Base {

  const U64_MAX: int := 0xFFFF_FFFF_FFFF_FFFF
  const U32_MAX: int := 0xFFFF_FFFF
  const U16_MAX: int := 0xFFFF

  type U64 = x: int | 0 <= x <= 0xFFFF_FFFF_FFFF_FFFF
  type U32 = x: int | 0 <= x <= 0xFFFF_FFFF
  type Byte = x: int | 0 <= x <= 255

  /** A CRC over bytes; nothing below depends on which one. */
  type Checksum = seq<Byte> -> U32

  /** A 32-byte digest of a byte string; nothing below depends on which one. */
  type Digest = d: seq<Byte> | |d| == 32 witness seq(32, _ => 0)
  type Hash = seq<Byte> -> Digest

  datatype Option<+T> = None | Some(value: T)

  datatype Result<+T, +E> = Ok(value: T) | Err(error: E)

  datatype Unit = Unit

  function Min(a: int, b: int): int { if a < b then a else b }

  function Max(a: int, b: int): int { if a < b then b else a }
}
