/**
 * header.go's dispatch: the BinaryFSPHeader interface as a closed sum over
 * the four revisions, HeaderRevision.GetHeader and ParseHeader.
 */
module Header {
  import opened Wrappers
  import opened Binary
  import opened Common
  import HeaderV1
  import HeaderV2
  import HeaderV3
  import HeaderV4

  /** The revision-specific struct GetHeader hands to the second binary.Read. */
  datatype Revision = Rev1 | Rev2 | Rev3 | Rev4

  /** The HeaderRevision byte that selects each layout. */
  function RevisionNumber(rev: Revision): byte
  {
    match rev
    case Rev1 => 1
    case Rev2 => 2
    case Rev3 => 3
    case Rev4 => 4
  }

  /** The byte size binary.Read needs for each layout. */
  function FixedLength(rev: Revision): nat
  {
    match rev
    case Rev1 => HeaderFsp1Length
    case Rev2 => HeaderFsp2Length
    case Rev3 => HeaderFsp3Length
    case Rev4 => HeaderFsp4Length
  }

  /** HeaderRevision.GetHeader: revisions 1 to 4 select a layout; any other value is an error, with no fallback. */
  function GetHeader(hr: byte): (r: Result<Revision>)
    ensures r.Ok? <==> 1 <= hr <= 4
    ensures r.Ok? ==> RevisionNumber(r.value) == hr
    ensures r.Err? ==> r.error == UnknownRevision
  {
    match hr
    case 1 => Ok(Rev1)
    case 2 => Ok(Rev2)
    case 3 => Ok(Rev3)
    case 4 => Ok(Rev4)
    case _ => Err(UnknownRevision)
  }

  /** A decoded header of one of the four revisions (the BinaryFSPHeader interface). */
  datatype InfoHeader =
    | V1(v1: HeaderV1.InfoHeaderV1)
    | V2(v2: HeaderV2.InfoHeaderV2)
    | V3(v3: HeaderV3.InfoHeaderV3)
    | V4(v4: HeaderV4.InfoHeaderV4)
  {
    function Layout(): Revision
    {
      match this
      case V1(_) => Rev1
      case V2(_) => Rev2
      case V3(_) => Rev3
      case V4(_) => Rev4
    }

    /** The embedded CommonInfoHeader. */
    function CommonHeader(): CommonInfoHeader
    {
      match this
      case V1(h) => h.common
      case V2(h) => h.common
      case V3(h) => h.common
      case V4(h) => h.base.common
    }

    function GetImageSize(): u32
    {
      match this
      case V1(h) => HeaderV1.GetImageSize(h)
      case V2(h) => HeaderV2.GetImageSize(h)
      case V3(h) => HeaderV3.GetImageSize(h)
      case V4(h) => HeaderV4.GetImageSize(h)
    }

    function GetImageAttributes(): Option<ImageAttributes>
    {
      match this
      case V1(h) => HeaderV1.GetImageAttributes(h)
      case V2(h) => HeaderV2.GetImageAttributes(h)
      case V3(h) => HeaderV3.GetImageAttributes(h)
      case V4(h) => HeaderV4.GetImageAttributes(h)
    }

    function GetComponentAttributes(): Option<ComponentAttributes>
    {
      match this
      case V1(h) => HeaderV1.GetComponentAttributes(h)
      case V2(h) => HeaderV2.GetComponentAttributes(h)
      case V3(h) => HeaderV3.GetComponentAttributes(h)
      case V4(h) => HeaderV4.GetComponentAttributes(h)
    }

    /** The bytes a conformant producer writes for this header. */
    function Encode(): (r: Bytes)
      ensures |r| == FixedLength(Layout())
    {
      match this
      case V1(h) => HeaderV1.EncodeV1(h)
      case V2(h) => HeaderV2.EncodeV2(h)
      case V3(h) => HeaderV3.EncodeV3(h)
      case V4(h) => HeaderV4.EncodeV4(h)
    }

    /** The preamble checks pass and the revision byte names this variant. */
    predicate WellFormed()
    {
      && CommonHeader().signature == FspHeaderSignature
      && CommonHeader().reserved1 == 0
      && CommonHeader().headerRevision == RevisionNumber(Layout())
    }
  }

  /** The second binary.Read of ParseHeader: the whole layout, from offset 0. */
  function ReadHeader(rev: Revision, b: Bytes): Result<InfoHeader>
  {
    if |b| < FixedLength(rev) then Err(ShortRead)
    else match rev
      case Rev1 => Ok(V1(HeaderV1.DecodeV1(b)))
      case Rev2 => Ok(V2(HeaderV2.DecodeV2(b)))
      case Rev3 => Ok(V3(HeaderV3.DecodeV3(b)))
      case Rev4 => Ok(V4(HeaderV4.DecodeV4(b)))
  }

  /**
   * ParseHeader: checks the 12-byte preamble (length, "FSPH", reserved bytes
   * 8-9 zero, revision byte 11 in 1..4), then decodes the revision's whole
   * struct from offset 0.
   */
  function ParseHeader(b: Bytes): (r: Result<InfoHeader>)
    ensures r.Ok? <==>
      && |b| >= FixedInfoHeaderLength
      && b[..4] == FspHeaderSignature
      && b[8] == 0 && b[9] == 0
      && 1 <= b[11] <= 4
      && |b| >= (if b[11] == 1 then HeaderFsp1Length else HeaderFsp2Length)
    ensures |b| < FixedInfoHeaderLength ==> r == Err(TooShort)
    ensures |b| >= FixedInfoHeaderLength && b[..4] != FspHeaderSignature ==> r == Err(BadSignature)
    ensures |b| >= FixedInfoHeaderLength && b[..4] == FspHeaderSignature && (b[8] != 0 || b[9] != 0) ==>
      r == Err(ReservedNonzero)
    ensures (|b| >= FixedInfoHeaderLength && b[..4] == FspHeaderSignature && b[8] == 0 && b[9] == 0
             && !(1 <= b[11] <= 4)) ==> r == Err(UnknownRevision)
    ensures (|b| >= FixedInfoHeaderLength && b[..4] == FspHeaderSignature && b[8] == 0 && b[9] == 0
             && 1 <= b[11] <= 4 && r.Err?) ==> r.error == ShortRead
    ensures r.Ok? ==> r.value.CommonHeader() == DecodeCommon(b)
    ensures r.Ok? ==> RevisionNumber(r.value.Layout()) == b[11] && r.value.WellFormed()
  {
    if |b| < FixedInfoHeaderLength then Err(TooShort)
    else
      var f := DecodeCommon(b);
      if f.signature != FspHeaderSignature then Err(BadSignature)
      else if f.reserved1 != 0 then Err(ReservedNonzero)
      else match GetHeader(f.headerRevision)
        case Err(e) => Err(e)
        case Ok(rev) => ReadHeader(rev, b)
  }

  /** Parsing what a conformant producer wrote gives the header back, whatever follows it. */
  lemma ParseEncodedHeader(h: InfoHeader, tail: Bytes)
    requires h.WellFormed()
    ensures ParseHeader(h.Encode() + tail) == Ok(h)
  {
    var b := h.Encode() + tail;
    match h
    case V1(x) => HeaderV1.DecodeEncodeV1(x, tail);
    case V2(x) => HeaderV2.DecodeEncodeV2(x, tail);
    case V3(x) => HeaderV3.DecodeEncodeV3(x, tail);
    case V4(x) => HeaderV3.DecodeEncodeV3(x.base, tail);
  }

  /** A parsed header accounts for every byte of its fixed layout: re-encoding it gives them back. */
  lemma ParsedHeaderEncodes(b: Bytes)
    requires ParseHeader(b).Ok?
    ensures ParseHeader(b).value.Encode() == b[..FixedLength(ParseHeader(b).value.Layout())]
  {
    match ParseHeader(b).value
    case V1(_) => HeaderV1.EncodeDecodeV1(b);
    case V2(_) => HeaderV2.EncodeDecodeV2(b);
    case V3(_) => HeaderV3.EncodeDecodeV3(b);
    case V4(_) => HeaderV3.EncodeDecodeV3(b);
  }

  /**
   * The capability set by revision, read from the bytes: every revision
   * reports the u32 at bytes 24-27 as its image size; image attributes are
   * absent only for revision 1, graphics support is bit 0 of byte 32, and
   * dispatch mode (bit 1) is reported only by revision 4; component
   * attributes are reported by revisions 3 and 4 only.
   */
  lemma Capabilities(b: Bytes)
    requires ParseHeader(b).Ok?
    ensures var h := ParseHeader(b).value;
      && h.GetImageSize() == LE32(b, 24)
      && (h.GetImageAttributes().None? <==> b[11] == 1)
      && (h.GetImageAttributes().Some? ==>
            h.GetImageAttributes().value.graphicsSupport == Some(b[32] % 2 == 1))
      && (h.GetImageAttributes().Some? ==>
            h.GetImageAttributes().value.dispatchModeSupport ==
              (if b[11] == 4 then Some((b[32] / 2) % 2 == 1) else None))
      && (h.GetComponentAttributes().Some? <==> b[11] >= 3)
  {
    match ParseHeader(b).value
    case V1(x) =>
      assert x == HeaderV1.DecodeV1(b);
      HeaderV1.AccessorsV1(b);
    case V2(x) =>
      assert x == HeaderV2.DecodeV2(b);
      HeaderV2.AccessorsV2(b);
    case V3(x) =>
      assert x == HeaderV3.DecodeV3(b);
      HeaderV3.AccessorsV3(b);
    case V4(x) =>
      assert x == HeaderV4.DecodeV4(b);
      HeaderV3.AccessorsV3(b);
      assert LE16(b, 32) % 2 == b[32] % 2;
      assert (LE16(b, 32) / 2) % 2 == (b[32] / 2) % 2;
  }
}
