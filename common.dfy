/**
 * The declarations of header.go that every revision shares: the table
 * constants, the common 12-byte preamble, the decoded attribute views and
 * their renderings, the packed spec version and the component type codes.
 */
module Common {
  import opened Wrappers
  import opened Binary
  import opened Text

  /** "FSPH", the magic of every FSP_INFO_HEADER. */
  const FspHeaderSignature: Bytes := [0x46, 0x53, 0x50, 0x48]
  /** "FSPE", the magic of the FSP_INFO_EXTENDED_HEADER. */
  const FspExtHeaderSignature: Bytes := [0x46, 0x53, 0x50, 0x45]
  const FixedInfoHeaderLength := 12
  const HeaderFsp1Length := 64
  const HeaderFsp2Length := 72
  const HeaderFsp3Length := 72
  const HeaderFsp4Length := 72
  /** The extended-header prefix length the source checks against (see ExtHeader). */
  const FixedExtendedInfoHeaderLength := 20

  /** The decoded image attributes; None is "field not defined by this revision". */
  datatype ImageAttributes = ImageAttributes(graphicsSupport: Option<bool>, dispatchModeSupport: Option<bool>)

  const GraphicsSupported := "Graphics Display Supported"
  const GraphicsNotSupported := "Graphics Display Not Supported"
  const DispatchSupported := "Dispatch Mode Supported"
  const DispatchNotSupported := "Dispatch Mode Not Supported"

  /**
   * The labels ImageAttributes.String joins, declaratively: one for the
   * graphics field when it is present, and one for dispatch mode, where
   * "not supported" is keyed on the graphics field being present and false
   * rather than on the dispatch field.
   */
  function ImageLabels(ia: ImageAttributes): seq<string>
  {
    var graphics := match ia.graphicsSupport
      case None => []
      case Some(g) => [if g then GraphicsSupported else GraphicsNotSupported];
    var dispatch :=
      if ia.dispatchModeSupport == Some(true) then [DispatchSupported]
      else if ia.graphicsSupport == Some(false) then [DispatchNotSupported]
      else [];
    graphics + dispatch
  }

  /** ImageAttributes.String: the labels above, joined with "|". */
  method ImageAttributesString(ia: ImageAttributes) returns (s: string)
    ensures Fields(s, '|') == ImageLabels(ia)
  {
    var attrs: seq<string> := [];
    if ia.graphicsSupport.Some? && ia.graphicsSupport.value {
      attrs := attrs + [GraphicsSupported];
    } else if ia.graphicsSupport.Some? && !ia.graphicsSupport.value {
      attrs := attrs + [GraphicsNotSupported];
    }
    if ia.dispatchModeSupport.Some? && ia.dispatchModeSupport.value {
      attrs := attrs + [DispatchSupported];
    } else if ia.graphicsSupport.Some? && !ia.graphicsSupport.value {
      attrs := attrs + [DispatchNotSupported];
    }
    assert attrs == ImageLabels(ia);
    s := Join(attrs, '|');
    FieldsJoin(attrs, '|');
  }

  /**
   * What the rendering says: an absent field says nothing of itself, and
   * "Dispatch Mode Not Supported" appears exactly when dispatch is not
   * present-and-true while graphics is present-and-false.
   */
  lemma ImageLabelsMeaning(ia: ImageAttributes)
    ensures var f := ImageLabels(ia);
      && (GraphicsSupported in f <==> ia.graphicsSupport == Some(true))
      && (GraphicsNotSupported in f <==> ia.graphicsSupport == Some(false))
      && (DispatchSupported in f <==> ia.dispatchModeSupport == Some(true))
      && (DispatchNotSupported in f <==>
            ia.dispatchModeSupport != Some(true) && ia.graphicsSupport == Some(false))
      && (f == [] <==> ia.graphicsSupport == None && ia.dispatchModeSupport != Some(true))
      && |f| <= 2
  {
  }

  /** The type codes of the FSP specification; 0 stands for any reserved code. */
  const TypeReserved: byte := 0
  const TypeT: byte := 1
  const TypeM: byte := 2
  const TypeS: byte := 3
  const TypeO: byte := 8

  const FspTypeNames: map<byte, string> := map[
    TypeT := "FSP-T",
    TypeM := "FSP-M",
    TypeS := "FSP-S",
    TypeO := "FSP-O",
    TypeReserved := "FSP-ReservedType"
  ]

  datatype ComponentAttributes = ComponentAttributes(
    releaseBuild: bool,
    officialRelease: bool,
    typ: byte,
    typeName: string)

  const ReleaseBuild := "Release Build"
  const DebugBuild := "Debug Build"
  const OfficialRelease := "Official Release"
  const TestRelease := "Test Release"

  /**
   * ComponentAttributes.String: always three "|"-joined parts, build kind,
   * release kind and type name, in that order.
   */
  method ComponentAttributesString(ca: ComponentAttributes) returns (s: string)
    ensures '|' !in ca.typeName ==>
      Split(s, '|') == [if ca.releaseBuild then ReleaseBuild else DebugBuild,
                        if ca.officialRelease then OfficialRelease else TestRelease,
                        ca.typeName]
  {
    var attrs: seq<string> := [];
    if ca.releaseBuild {
      attrs := attrs + [ReleaseBuild];
    } else {
      attrs := attrs + [DebugBuild];
    }
    if ca.officialRelease {
      attrs := attrs + [OfficialRelease];
    } else {
      attrs := attrs + [TestRelease];
    }
    attrs := attrs + [ca.typeName];
    s := Join(attrs, '|');
    if '|' !in ca.typeName {
      SplitJoin(attrs, '|');
    }
  }

  /** CommonInfoHeader: the first 12 bytes of every FSP_INFO_HEADER revision. */
  datatype CommonInfoHeader = CommonInfoHeader(
    signature: Bytes4,      // bytes 0-3
    headerLength: u32,      // bytes 4-7
    reserved1: u16,         // bytes 8-9
    specVersion: byte,      // byte 10
    headerRevision: byte)   // byte 11

  /** binary.Read of a CommonInfoHeader from the start of b. */
  function DecodeCommon(b: Bytes): CommonInfoHeader
    requires |b| >= FixedInfoHeaderLength
  {
    CommonInfoHeader(b[0..4], LE32(b, 4), LE16(b, 8), b[10], b[11])
  }

  /** The 12 bytes binary.Write would produce for h. */
  function EncodeCommon(h: CommonInfoHeader): (r: Bytes)
    ensures |r| == FixedInfoHeaderLength
  {
    h.signature + E32(h.headerLength) + E16(h.reserved1) + [h.specVersion, h.headerRevision]
  }

  /** Decoding what was encoded gives the preamble back, whatever follows it. */
  lemma DecodeEncodeCommon(h: CommonInfoHeader, tail: Bytes)
    ensures DecodeCommon(EncodeCommon(h) + tail) == h
  {
    var b := EncodeCommon(h) + tail;
    assert b[0..4] == h.signature;
    LE32Of(h.signature, h.headerLength, E16(h.reserved1) + [h.specVersion, h.headerRevision] + tail);
    LE16Of(h.signature + E32(h.headerLength), h.reserved1, [h.specVersion, h.headerRevision] + tail);
  }

  /** The preamble has no padding: re-encoding a decode gives the same 12 bytes. */
  lemma EncodeDecodeCommon(b: Bytes)
    requires |b| >= FixedInfoHeaderLength
    ensures EncodeCommon(DecodeCommon(b)) == b[..FixedInfoHeaderLength]
  {
    E32OfLE32(b, 4);
    E16OfLE16(b, 8);
  }

  /** SpecVersion's major digit, (sv >> 4) & 0x0f. */
  function SpecVersionMajor(sv: byte): nat
  {
    (sv / 0x10) % 0x10
  }

  /** SpecVersion's minor digit, sv & 0x0f. */
  function SpecVersionMinor(sv: byte): nat
  {
    sv % 0x10
  }

  /** The two nibbles are digits below 16 that pack back into the byte. */
  lemma SpecVersionNibbles(sv: byte)
    ensures SpecVersionMajor(sv) < 0x10 && SpecVersionMinor(sv) < 0x10
    ensures SpecVersionMajor(sv) * 0x10 + SpecVersionMinor(sv) == sv
  {
  }

  /** SpecVersion.String: "%d.%d" of the two nibbles. */
  function SpecVersionString(sv: byte): string
  {
    Decimal(SpecVersionMajor(sv)) + "." + Decimal(SpecVersionMinor(sv))
  }

  /** Reads "major.minor" back into the packed byte. */
  function ParseSpecVersion(s: string): Option<byte>
  {
    var parts := Split(s, '.');
    if |parts| != 2 then None
    else match (ParseDecimal(parts[0]), ParseDecimal(parts[1]))
      case (Some(major), Some(minor)) =>
        if major < 0x10 && minor < 0x10 then Some(major * 0x10 + minor) else None
      case _ => None
  }

  /** The rendering is lossless: the byte can be read back from its text. */
  lemma SpecVersionStringRoundTrip(sv: byte)
    ensures ParseSpecVersion(SpecVersionString(sv)) == Some(sv)
  {
    var major, minor := Decimal(SpecVersionMajor(sv)), Decimal(SpecVersionMinor(sv));
    assert Join([major, minor], '.') == major + ['.'] + minor;
    assert '.' !in major && '.' !in minor;
    SplitJoin([major, minor], '.');
    ParseDecimalOf(SpecVersionMajor(sv));
    ParseDecimalOf(SpecVersionMinor(sv));
    SpecVersionNibbles(sv);
  }
}
