/** headerV1.go: the 64-byte FSP_INFO_HEADER of FSP 1.x (header revision 1). */
module HeaderV1 {
  import opened Wrappers
  import opened Binary
  import opened Common

  /** InfoHeaderV1, field by field in wire order, with no padding. */
  datatype InfoHeaderV1 = InfoHeaderV1(
    common: CommonInfoHeader,      // bytes 0-11
    imageRevision: u32,            // bytes 12-15
    imageId: Bytes8,               // bytes 16-23
    imageSize: u32,                // bytes 24-27
    imageBase: u32,                // bytes 28-31
    imageAttribute: u32,           // bytes 32-35
    cfgRegionOffset: u32,          // bytes 36-39
    cfgRegionSize: u32,            // bytes 40-43
    apiEntryNum: u32,              // bytes 44-47
    tempRamInitEntryOffset: u32,   // bytes 48-51
    fspInitEntryOffset: u32,       // bytes 52-55
    notifyPhaseEntryOffset: u32,   // bytes 56-59
    reserved: u32)                 // bytes 60-63

  /** binary.Read of an InfoHeaderV1 from the start of b. */
  function DecodeV1(b: Bytes): InfoHeaderV1
    requires |b| >= HeaderFsp1Length
  {
    InfoHeaderV1(DecodeCommon(b), LE32(b, 12), b[16..24], LE32(b, 24), LE32(b, 28),
      LE32(b, 32), LE32(b, 36), LE32(b, 40), LE32(b, 44), LE32(b, 48), LE32(b, 52),
      LE32(b, 56), LE32(b, 60))
  }

  /** The 64 bytes a conformant producer writes for h. */
  function EncodeV1(h: InfoHeaderV1): (r: Bytes)
    ensures |r| == HeaderFsp1Length
  {
    EncodeCommon(h.common) + E32(h.imageRevision) + h.imageId + E32(h.imageSize)
      + E32(h.imageBase) + E32(h.imageAttribute) + E32(h.cfgRegionOffset)
      + E32(h.cfgRegionSize) + E32(h.apiEntryNum) + E32(h.tempRamInitEntryOffset)
      + E32(h.fspInitEntryOffset) + E32(h.notifyPhaseEntryOffset) + E32(h.reserved)
  }

  /** The decoder inverts the encoder, whatever bytes follow the header. */
  lemma DecodeEncodeV1(h: InfoHeaderV1, tail: Bytes)
    ensures DecodeV1(EncodeV1(h) + tail) == h
  {
    var b := EncodeV1(h) + tail;
    DecodeEncodeCommon(h.common, b[12..]);
    assert b == EncodeCommon(h.common) + b[12..];
  }

  /** The layout has no padding: every one of the 64 bytes belongs to a field. */
  lemma EncodeDecodeV1(b: Bytes)
    requires |b| >= HeaderFsp1Length
    ensures EncodeV1(DecodeV1(b)) == b[..HeaderFsp1Length]
  {
    EncodeDecodeCommon(b);
    forall o | 12 <= o <= HeaderFsp1Length - 4
      ensures E32(LE32(b, o)) == b[o .. o + 4]
    {
      E32OfLE32(b, o);
    }
  }

  /** GetImageSize: the raw ImageSize field. */
  function GetImageSize(h: InfoHeaderV1): u32
  {
    h.imageSize
  }

  /** GetImageAttributes: revision 1 defines no attribute bits, so none are reported. */
  function GetImageAttributes(h: InfoHeaderV1): Option<ImageAttributes>
  {
    None
  }

  /** GetComponentAttributes: revision 1 has no component attribute field. */
  function GetComponentAttributes(h: InfoHeaderV1): Option<ComponentAttributes>
  {
    None
  }

  /**
   * Read from the bytes: the image size is the u32 at bytes 24-27, and no
   * attributes are reported even though the u32 at bytes 32-35 is decoded.
   */
  lemma AccessorsV1(b: Bytes)
    requires |b| >= HeaderFsp1Length
    ensures GetImageSize(DecodeV1(b)) == LE32(b, 24)
    ensures DecodeV1(b).imageAttribute == LE32(b, 32)
    ensures GetImageAttributes(DecodeV1(b)) == None
    ensures GetComponentAttributes(DecodeV1(b)) == None
  {
  }
}
