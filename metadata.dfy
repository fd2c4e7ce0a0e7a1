/** The unit of indexing, `ImageMetadata` of `src/metadata.rs`, and the fixed-width
    integers it uses. */
module Metadata {
  import opened Wrappers

  newtype u32 = x: int | 0 <= x < 0x1_0000_0000
  newtype u64 = x: int | 0 <= x < 0x1_0000_0000_0000_0000
  newtype byte = x: int | 0 <= x < 0x100

  /** Rust's `x as u64` on a `u32`: widening, no change of value. */
  function WidenU32(x: u32): (r: u64)
    ensures r as int == x as int
  {
    x as u64
  }

  /** Rust's `x as u32` on a `u64`: keeps the low 32 bits. */
  function TruncateToU32(x: u64): (r: u32)
    ensures r as int == x as int % 0x1_0000_0000
    ensures x as int < 0x1_0000_0000 ==> r as int == x as int
  {
    (x as int % 0x1_0000_0000) as u32
  }

  /** One image. The two `f64` GPS coordinates of the source are not part of the
      model. `duplicatePaths` lists the further paths at which the same bytes were
      found after `filePath`. */
  datatype ImageMetadata = ImageMetadata(
    filePath: string,
    fileHash: string,
    width: u32,
    height: u32,
    cameraMake: Option<string>,
    cameraModel: Option<string>,
    dateTaken: Option<string>,
    thumbnailPath: string,
    duplicatePaths: seq<string>)
}
