/** headerV2.go: the 72-byte FSP_INFO_HEADER of FSP 2.0 (header revision 2). */
module HeaderV2 {
  import opened Wrappers
  import opened Binary
  import opened Common

  /** InfoHeaderV2, field by field in wire order, with no padding. */
  datatype InfoHeaderV2 = InfoHeaderV2(
    common: CommonInfoHeader,        // bytes 0-11
    imageRevision: u32,              // bytes 12-15
    imageId: Bytes8,                 // bytes 16-23
    imageSize: u32,                  // bytes 24-27
    imageBase: u32,                  // bytes 28-31
    imageAttribute: u32,             // bytes 32-35
    cfgRegionOffset: u32,            // bytes 36-39
    cfgRegionSize: u32,              // bytes 40-43
    apiEntryNum: u32,                // bytes 44-47
    tempRamInitEntryOffset: u32,     // bytes 48-51
    fspInitEntryOffset: u32,         // bytes 52-55
    notifyPhaseEntryOffset: u32,     // bytes 56-59
    fspMemoryInitEntryOffset: u32,   // bytes 60-63
    tempRamExitEntryOffset: u32,     // bytes 64-67
    fspSiliconInitEntryOffset: u32)  // bytes 68-71

  /** binary.Read of an InfoHeaderV2 from the start of b. */
  function DecodeV2(b: Bytes): InfoHeaderV2
    requires |b| >= HeaderFsp2Length
  {
    InfoHeaderV2(DecodeCommon(b), LE32(b, 12), b[16..24], LE32(b, 24), LE32(b, 28),
      LE32(b, 32), LE32(b, 36), LE32(b, 40), LE32(b, 44), LE32(b, 48), LE32(b, 52),
      LE32(b, 56), LE32(b, 60), LE32(b, 64), LE32(b, 68))
  }

  /** The 72 bytes a conformant producer writes for h. */
  function EncodeV2(h: InfoHeaderV2): (r: Bytes)
    ensures |r| == HeaderFsp2Length
  {
    EncodeCommon(h.common) + E32(h.imageRevision) + h.imageId + E32(h.imageSize)
      + E32(h.imageBase) + E32(h.imageAttribute) + E32(h.cfgRegionOffset)
      + E32(h.cfgRegionSize) + E32(h.apiEntryNum) + E32(h.tempRamInitEntryOffset)
      + E32(h.fspInitEntryOffset) + E32(h.notifyPhaseEntryOffset)
      + E32(h.fspMemoryInitEntryOffset) + E32(h.tempRamExitEntryOffset)
      + E32(h.fspSiliconInitEntryOffset)
  }

  /** The decoder inverts the encoder, whatever bytes follow the header. */
  lemma DecodeEncodeV2(h: InfoHeaderV2, tail: Bytes)
    ensures DecodeV2(EncodeV2(h) + tail) == h
  {
    var b := EncodeV2(h) + tail;
    DecodeEncodeCommon(h.common, b[12..]);
    assert b == EncodeCommon(h.common) + b[12..];
  }

  /** The layout has no padding: every one of the 72 bytes belongs to a field. */
  lemma EncodeDecodeV2(b: Bytes)
    requires |b| >= HeaderFsp2Length
    ensures EncodeV2(DecodeV2(b)) == b[..HeaderFsp2Length]
  {
    EncodeDecodeCommon(b);
    forall o | 12 <= o <= HeaderFsp2Length - 4
      ensures E32(LE32(b, o)) == b[o .. o + 4]
    {
      E32OfLE32(b, o);
    }
  }

  /** GetImageSize: the raw ImageSize field. */
  function GetImageSize(h: InfoHeaderV2): u32
  {
    h.imageSize
  }

  /** GetImageAttributes: graphics support is ImageAttribute & 0b0001; dispatch mode is not defined. */
  function GetImageAttributes(h: InfoHeaderV2): Option<ImageAttributes>
  {
    Some(ImageAttributes(Some(h.imageAttribute % 2 == 1), None))
  }

  /** GetComponentAttributes: revision 2 has no component attribute field. */
  function GetComponentAttributes(h: InfoHeaderV2): Option<ComponentAttributes>
  {
    None
  }

  /**
   * An ImageAttribute written with graphics flag g in bit 0 and anything in
   * bits 1-31 reads back as exactly that flag, with dispatch mode absent.
   */
  lemma ImageAttributesV2(h: InfoHeaderV2, g: bool, rest: nat)
    requires h.imageAttribute == (if g then 1 else 0) + 2 * rest
    ensures GetImageAttributes(h) == Some(ImageAttributes(Some(g), None))
  {
  }

  /** Read from the bytes: the image size is the u32 at bytes 24-27; no component attributes. */
  lemma AccessorsV2(b: Bytes)
    requires |b| >= HeaderFsp2Length
    ensures GetImageSize(DecodeV2(b)) == LE32(b, 24)
    ensures GetImageAttributes(DecodeV2(b)) == Some(ImageAttributes(Some(b[32] % 2 == 1), None))
    ensures GetComponentAttributes(DecodeV2(b)) == None
  {
  }
}
