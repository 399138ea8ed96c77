/**
 * The descriptor format version: the crate's major, minor and patch numbers
 * packed into one word as 0xMM_mmmm_pp (major in bits 24-31, minor in bits
 * 8-23, patch in bits 0-7), and the three fields taken back out of it.
 */
module DescriptorVersion {
  import opened ByteLayout

  /** Packs major, minor and patch as the build script writes them. */
  function Pack(major: bv8, minor: bv16, patch: bv8): (v: bv32)
    ensures Major(v) == major as bv32 && Minor(v) == minor as bv32 && Patch(v) == patch as bv32
  {
    ((major as bv32) << 24) | ((minor as bv32) << 8) | (patch as bv32)
  }

  /** Just the major field of a packed version. */
  function Major(v: bv32): (m: bv32)
    ensures m <= 0xFF
  {
    (v >> 24) & 0xFF
  }

  /** Just the minor field of a packed version. */
  function Minor(v: bv32): (m: bv32)
    ensures m <= 0xFFFF
  {
    (v >> 8) & 0xFFFF
  }

  /** Just the patch field of a packed version. */
  function Patch(v: bv32): (p: bv32)
    ensures p <= 0xFF
  {
    v & 0xFF
  }

  /** The three fields cover all 32 bits: a word is the packing of its own fields. */
  lemma UnpackPack(v: bv32)
    ensures Pack(Major(v) as bv8, Minor(v) as bv16, Patch(v) as bv8) == v
  {
  }

  /**
   * The version stamped into every descriptor. The real value is the crate's
   * package version at build time; 0.1.0 stands in for it and no property of
   * the model depends on the choice.
   */
  const DESCRIPTOR_VERSION: u32 := 0x00_0001_00

  const DESCRIPTOR_VERSION_MAJOR: u32 := Major(DESCRIPTOR_VERSION as bv32) as u32
  const DESCRIPTOR_VERSION_MINOR: u32 := Minor(DESCRIPTOR_VERSION as bv32) as u32
  const DESCRIPTOR_VERSION_PATCH: u32 := Patch(DESCRIPTOR_VERSION as bv32) as u32
}
