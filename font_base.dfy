/**
 * Integer widths of the Rust types the font caches use, and the font blob
 * both caches key on.
 */
module FontBase {
  type U16 = x: int | 0 <= x < 0x1_0000
  type U32 = x: int | 0 <= x < 0x1_0000_0000
  type U64 = x: int | 0 <= x < 0x1_0000_0000_0000_0000
  type I16 = x: int | -0x8000 <= x < 0x8000
  type I32 = x: int | -0x8000_0000 <= x < 0x8000_0000

  /**
   * A font file's bytes (`fontique::Blob<u8>`) together with the
   * process-stable identity `Blob::id` that the caches use in their keys.
   */
  datatype Blob = Blob(id: U64, data: seq<bv8>)
}
