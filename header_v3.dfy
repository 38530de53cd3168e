/** headerV3.go: the 72-byte FSP_INFO_HEADER of FSP 2.1 (header revision 3). */
module HeaderV3 {
  import opened Wrappers
  import opened Binary
  import opened Common

  /** InfoHeaderV3, field by field in wire order, with no padding. */
  datatype InfoHeaderV3 = InfoHeaderV3(
    common: CommonInfoHeader,        // bytes 0-11
    imageRevision: u32,              // bytes 12-15
    imageId: Bytes8,                 // bytes 16-23
    imageSize: u32,                  // bytes 24-27
    imageBase: u32,                  // bytes 28-31
    imageAttribute: u16,             // bytes 32-33
    componentAttribute: u16,         // bytes 34-35
    cfgRegionOffset: u32,            // bytes 36-39
    cfgRegionSize: u32,              // bytes 40-43
    reserved2: u32,                  // bytes 44-47
    tempRamInitEntryOffset: u32,     // bytes 48-51
    reserved3: u32,                  // bytes 52-55
    notifyPhaseEntryOffset: u32,     // bytes 56-59
    fspMemoryInitEntryOffset: u32,   // bytes 60-63
    tempRamExitEntryOffset: u32,     // bytes 64-67
    fspSiliconInitEntryOffset: u32)  // bytes 68-71

  /** binary.Read of an InfoHeaderV3 from the start of b. */
  function DecodeV3(b: Bytes): InfoHeaderV3
    requires |b| >= HeaderFsp3Length
  {
    InfoHeaderV3(DecodeCommon(b), LE32(b, 12), b[16..24], LE32(b, 24), LE32(b, 28),
      LE16(b, 32), LE16(b, 34), LE32(b, 36), LE32(b, 40), LE32(b, 44), LE32(b, 48),
      LE32(b, 52), LE32(b, 56), LE32(b, 60), LE32(b, 64), LE32(b, 68))
  }

  /** The 72 bytes a conformant producer writes for h. */
  function EncodeV3(h: InfoHeaderV3): (r: Bytes)
    ensures |r| == HeaderFsp3Length
  {
    EncodeCommon(h.common) + E32(h.imageRevision) + h.imageId + E32(h.imageSize)
      + E32(h.imageBase) + E16(h.imageAttribute) + E16(h.componentAttribute)
      + E32(h.cfgRegionOffset) + E32(h.cfgRegionSize) + E32(h.reserved2)
      + E32(h.tempRamInitEntryOffset) + E32(h.reserved3) + E32(h.notifyPhaseEntryOffset)
      + E32(h.fspMemoryInitEntryOffset) + E32(h.tempRamExitEntryOffset)
      + E32(h.fspSiliconInitEntryOffset)
  }

  /** The decoder inverts the encoder, whatever bytes follow the header. */
  lemma DecodeEncodeV3(h: InfoHeaderV3, tail: Bytes)
    ensures DecodeV3(EncodeV3(h) + tail) == h
  {
    var b := EncodeV3(h) + tail;
    DecodeEncodeCommon(h.common, b[12..]);
    assert b == EncodeCommon(h.common) + b[12..];
  }

  /** The layout has no padding: every one of the 72 bytes belongs to a field. */
  lemma EncodeDecodeV3(b: Bytes)
    requires |b| >= HeaderFsp3Length
    ensures EncodeV3(DecodeV3(b)) == b[..HeaderFsp3Length]
  {
    EncodeDecodeCommon(b);
    E16OfLE16(b, 32);
    E16OfLE16(b, 34);
    forall o | 12 <= o <= HeaderFsp3Length - 4
      ensures E32(LE32(b, o)) == b[o .. o + 4]
    {
      E32OfLE32(b, o);
    }
  }

  /** GetImageSize: the raw ImageSize field. */
  function GetImageSize(h: InfoHeaderV3): u32
  {
    h.imageSize
  }

  /** GetImageAttributes: graphics support is ImageAttribute & 0b0001; dispatch mode is not reported. */
  function GetImageAttributes(h: InfoHeaderV3): Option<ImageAttributes>
  {
    Some(ImageAttributes(Some(h.imageAttribute % 2 == 1), None))
  }

  /**
   * ComponentAttributes.ValidateType: a code with an entry in the name map
   * is kept, any other code becomes TypeReserved. It never fails.
   */
  function ValidateType(ca: ComponentAttributes): (t: byte)
    ensures t in FspTypeNames
    ensures t == ca.typ <==> ca.typ in FspTypeNames
  {
    if ca.typ in FspTypeNames then ca.typ else TypeReserved
  }

  /** The codes ValidateType keeps are exactly 0 (reserved), T, M, S and O. */
  lemma ValidateTypeCodes(ca: ComponentAttributes)
    ensures ValidateType(ca) == (if ca.typ in {0, 1, 2, 3, 8} then ca.typ else TypeReserved)
  {
  }

  /** Validating a validated type changes nothing. */
  lemma ValidateTypeIdempotent(ca: ComponentAttributes)
    ensures ValidateType(ca.(typ := ValidateType(ca))) == ValidateType(ca)
  {
  }

  /**
   * GetComponentAttributes: ReleaseBuild is bit 0, OfficialRelease bit 1,
   * and the type is (ComponentAttribute >> 12) & 0x0F, validated and named.
   */
  function GetComponentAttributes(h: InfoHeaderV3): (r: Option<ComponentAttributes>)
    ensures r.Some?
    ensures r.value.typ in FspTypeNames && r.value.typeName == FspTypeNames[r.value.typ]
    ensures r.value.typeName != "" && '|' !in r.value.typeName
  {
    var ca := ComponentAttributes(
      h.componentAttribute % 2 == 1,
      (h.componentAttribute / 2) % 2 == 1,
      (h.componentAttribute / 0x1000) % 0x10,
      "");
    var t := ValidateType(ca);
    Some(ca.(typ := t, typeName := FspTypeNames[t]))
  }

  /** The ComponentAttribute value a producer writes: bits 0 and 1, reserved bits 2-11, type in bits 12-15. */
  function PackComponentAttribute(release: bool, official: bool, reserved: nat, code: nat): nat
  {
    (if release then 1 else 0) + (if official then 2 else 0) + 4 * reserved + 0x1000 * code
  }

  /**
   * Decoding a packed ComponentAttribute recovers both flags and the type
   * code, with an unassigned code read as TypeReserved; bits 2-11 play no part.
   */
  lemma ComponentAttributesV3(h: InfoHeaderV3, release: bool, official: bool, reserved: nat, code: nat)
    requires reserved < 0x400 && code < 0x10
    requires h.componentAttribute == PackComponentAttribute(release, official, reserved, code)
    ensures var t := if code in {0, 1, 2, 3, 8} then code else 0;
      GetComponentAttributes(h) == Some(ComponentAttributes(release, official, t, FspTypeNames[t]))
  {
    var x := h.componentAttribute;
    var low := (if release then 1 else 0) + (if official then 2 else 0);
    assert x == low + 4 * reserved + 0x1000 * code;
    assert x % 2 == (if release then 1 else 0);
    assert (x / 2) % 2 == (if official then 1 else 0);
    assert x / 0x1000 == code;
  }

  /**
   * An ImageAttribute written with graphics flag g in bit 0 and anything in
   * bits 1-15 reads back as exactly that flag, with dispatch mode absent.
   */
  lemma ImageAttributesV3(h: InfoHeaderV3, g: bool, rest: nat)
    requires h.imageAttribute == (if g then 1 else 0) + 2 * rest
    ensures GetImageAttributes(h) == Some(ImageAttributes(Some(g), None))
  {
  }

  /** Read from the bytes: the image size is the u32 at bytes 24-27; the attributes are the u16s at 32 and 34. */
  lemma AccessorsV3(b: Bytes)
    requires |b| >= HeaderFsp3Length
    ensures GetImageSize(DecodeV3(b)) == LE32(b, 24)
    ensures GetImageAttributes(DecodeV3(b)) == Some(ImageAttributes(Some(b[32] % 2 == 1), None))
    ensures DecodeV3(b).componentAttribute == LE16(b, 34)
  {
  }
}
