/**
 * extHeader.go: the FSP_INFO_EXTENDED_HEADER ("FSPE"), a 24-byte fixed
 * prefix followed by FspProducerDataSize bytes of producer data.
 *
 * Two decoders live here. ParseExtendedHeaderAsWritten is the Go function
 * as it stands: its binary.Read fills the input slice instead of the
 * struct, so it never succeeds; ValidateAsWritten is its remaining checks
 * on a given prefix, with the payload taken from byte 20 and the length
 * guard computed in uint32. ParseExtendedHeader is the decoder the table
 * layout calls for, and is the one the record builder uses.
 */
module ExtHeader {
  import opened Wrappers
  import opened Binary
  import opened Common

  /** BinaryExtendedFSPHeader, field by field in wire order, with no padding. */
  datatype BinaryExtendedHeader = BinaryExtendedHeader(
    signature: Bytes4,          // bytes 0-3
    headerLength: u32,          // bytes 4-7
    revision: byte,             // byte 8
    reserved1: byte,            // byte 9
    fspProducerId: Bytes6,      // bytes 10-15
    fspProducerRevision: u32,   // bytes 16-19
    fspProducerDataSize: u32)   // bytes 20-23

  /** The size of BinaryExtendedHeader on the wire. */
  const BinaryExtendedHeaderLength := 24

  /** ExtendedFSPHeader: the fixed prefix and the producer data it announces. */
  datatype ExtendedHeader = ExtendedHeader(bin: BinaryExtendedHeader, fspProducerData: Bytes)
  {
    /** What a conformant producer writes: right magic, zero reserved byte, data of the announced size. */
    predicate WellFormed()
    {
      && bin.signature == FspExtHeaderSignature
      && bin.reserved1 == 0
      && |fspProducerData| == bin.fspProducerDataSize
    }
  }

  /** binary.Read of a BinaryExtendedHeader from the start of b. */
  function DecodeBinaryExtended(b: Bytes): BinaryExtendedHeader
    requires |b| >= BinaryExtendedHeaderLength
  {
    BinaryExtendedHeader(b[0..4], LE32(b, 4), b[8], b[9], b[10..16], LE32(b, 16), LE32(b, 20))
  }

  /** The 24 bytes a conformant producer writes for h. */
  function EncodeBinaryExtended(h: BinaryExtendedHeader): (r: Bytes)
    ensures |r| == BinaryExtendedHeaderLength
  {
    h.signature + E32(h.headerLength) + [h.revision, h.reserved1] + h.fspProducerId
      + E32(h.fspProducerRevision) + E32(h.fspProducerDataSize)
  }

  /** The zero value of the struct, which is all binHeader ever holds in the Go function. */
  const ZeroBinaryExtended := BinaryExtendedHeader([0, 0, 0, 0], 0, 0, 0, [0, 0, 0, 0, 0, 0], 0, 0)

  /**
   * The guard of extHeader.go:44, true when it lets the input through:
   * uint32(len(b)) against 20 + FspProducerDataSize, both wrapping at 2^32.
   */
  predicate PayloadGuardPasses(len: nat, size: u32)
  {
    len % 0x1_0000_0000 >= (FixedExtendedInfoHeaderLength + size) % 0x1_0000_0000
  }

  /**
   * extHeader.go:36-50 as written, on the prefix bin: magic, reserved byte,
   * the uint32 guard, then the payload sliced from byte 20. When the guard
   * passes on a wrapped sum the slice bounds are inverted and Go panics,
   * which the second requires rules out.
   */
  function ValidateAsWritten(b: Bytes, bin: BinaryExtendedHeader): (r: Result<ExtendedHeader>)
    requires |b| >= FixedExtendedInfoHeaderLength
    requires PayloadGuardPasses(|b|, bin.fspProducerDataSize) ==>
      FixedExtendedInfoHeaderLength + bin.fspProducerDataSize < 0x1_0000_0000
    ensures |b| < 0x1_0000_0000 ==> (r.Ok? <==>
      && bin.signature == FspExtHeaderSignature
      && bin.reserved1 == 0
      && FixedExtendedInfoHeaderLength + bin.fspProducerDataSize <= |b|)
    ensures bin.signature != FspExtHeaderSignature ==> r == Err(BadSignature)
    ensures bin.signature == FspExtHeaderSignature && bin.reserved1 != 0 ==> r == Err(ReservedNonzero)
    ensures (bin.signature == FspExtHeaderSignature && bin.reserved1 == 0
             && !PayloadGuardPasses(|b|, bin.fspProducerDataSize)) ==> r == Err(TruncatedPayload)
    ensures r.Ok? ==> r.value.bin == bin && |r.value.fspProducerData| == bin.fspProducerDataSize
    ensures r.Ok? ==>
      r.value.fspProducerData == b[FixedExtendedInfoHeaderLength .. FixedExtendedInfoHeaderLength + bin.fspProducerDataSize]
  {
    if bin.signature != FspExtHeaderSignature then Err(BadSignature)
    else if bin.reserved1 != 0 then Err(ReservedNonzero)
    else if !PayloadGuardPasses(|b|, bin.fspProducerDataSize) then Err(TruncatedPayload)
    else
      var end := FixedExtendedInfoHeaderLength + bin.fspProducerDataSize;
      Ok(ExtendedHeader(bin, b[FixedExtendedInfoHeaderLength .. end]))
  }

  /**
   * ParseExtendedHeader exactly as the Go code is written. binary.Read at
   * extHeader.go:32 is handed &b, a *[]byte: it reads len(b) bytes back into
   * the slice and succeeds, leaving binHeader all zero. The zero signature
   * then fails the "FSPE" check on every input long enough to get there.
   */
  function ParseExtendedHeaderAsWritten(b: Bytes): (r: Result<ExtendedHeader>)
    ensures r == Err(if |b| < FixedExtendedInfoHeaderLength then TooShort else BadSignature)
  {
    if |b| < FixedExtendedInfoHeaderLength then Err(TooShort)
    else ValidateAsWritten(b, ZeroBinaryExtended)
  }

  /**
   * With the prefix decoded as intended but the payload still taken from
   * byte 20, the "producer data" of a conformant header starts with the
   * four bytes of FspProducerDataSize and drops the last four data bytes.
   */
  lemma PayloadOverlapsSizeField(b: Bytes)
    requires |b| >= BinaryExtendedHeaderLength
    requires DecodeBinaryExtended(b).signature == FspExtHeaderSignature
    requires DecodeBinaryExtended(b).reserved1 == 0
    requires 4 <= LE32(b, 20) && BinaryExtendedHeaderLength + LE32(b, 20) <= |b| < 0x1_0000_0000
    ensures var size := LE32(b, 20);
      && ValidateAsWritten(b, DecodeBinaryExtended(b)).Ok?
      && ValidateAsWritten(b, DecodeBinaryExtended(b)).value.fspProducerData
           == E32(size) + b[BinaryExtendedHeaderLength .. FixedExtendedInfoHeaderLength + size]
  {
    var size := LE32(b, 20);
    E32OfLE32(b, 20);
    assert b[20 .. 20 + size] == b[20 .. 24] + b[24 .. 20 + size];
  }

  /**
   * A 24-byte buffer announcing 0xFFFFFFFF bytes of data gets past the
   * uint32 guard: 20 + 0xFFFFFFFF wraps to 19, and the slice [20:19] panics.
   * This is exactly the input ValidateAsWritten's second requires excludes:
   * the guard passes, yet the unwrapped end of the slice is 2^32 or more.
   */
  lemma GuardAdmitsWrappedSize()
    ensures PayloadGuardPasses(24, 0xFFFF_FFFF)
    ensures (FixedExtendedInfoHeaderLength + 0xFFFF_FFFF) % 0x1_0000_0000 < FixedExtendedInfoHeaderLength
    ensures !(PayloadGuardPasses(24, 0xFFFF_FFFF) ==>
              FixedExtendedInfoHeaderLength + 0xFFFF_FFFF < 0x1_0000_0000)
  {
  }

  /**
   * ParseExtendedHeader as the table lays the header out: the 24-byte
   * prefix decoded into the struct, the "FSPE" and reserved-byte checks,
   * and FspProducerDataSize bytes of payload right after the prefix, with
   * lengths compared without wrap-around.
   */
  function ParseExtendedHeader(b: Bytes): (r: Result<ExtendedHeader>)
    ensures r.Ok? <==>
      && |b| >= BinaryExtendedHeaderLength
      && b[..4] == FspExtHeaderSignature
      && b[9] == 0
      && |b| >= BinaryExtendedHeaderLength + LE32(b, 20)
    ensures |b| < BinaryExtendedHeaderLength ==> r == Err(TooShort)
    ensures |b| >= BinaryExtendedHeaderLength && b[..4] != FspExtHeaderSignature ==> r == Err(BadSignature)
    ensures (|b| >= BinaryExtendedHeaderLength && b[..4] == FspExtHeaderSignature && b[9] != 0) ==>
      r == Err(ReservedNonzero)
    ensures (|b| >= BinaryExtendedHeaderLength && b[..4] == FspExtHeaderSignature && b[9] == 0
             && |b| < BinaryExtendedHeaderLength + LE32(b, 20)) ==> r == Err(TruncatedPayload)
    ensures r.Ok? ==> r.value.bin == DecodeBinaryExtended(b) && r.value.WellFormed()
    ensures r.Ok? ==> r.value.fspProducerData == b[BinaryExtendedHeaderLength .. BinaryExtendedHeaderLength + LE32(b, 20)]
  {
    if |b| < BinaryExtendedHeaderLength then Err(TooShort)
    else
      var bin := DecodeBinaryExtended(b);
      if bin.signature != FspExtHeaderSignature then Err(BadSignature)
      else if bin.reserved1 != 0 then Err(ReservedNonzero)
      else if |b| < BinaryExtendedHeaderLength + bin.fspProducerDataSize then Err(TruncatedPayload)
      else
        var end := BinaryExtendedHeaderLength + bin.fspProducerDataSize;
        Ok(ExtendedHeader(bin, b[BinaryExtendedHeaderLength .. end]))
  }

  /** The bytes a conformant producer writes for e: the prefix, then the data. */
  function EncodeExtended(e: ExtendedHeader): Bytes
  {
    EncodeBinaryExtended(e.bin) + e.fspProducerData
  }

  /** Parsing what a conformant producer wrote gives the header back, whatever follows it. */
  lemma ParseEncodedExtended(e: ExtendedHeader, tail: Bytes)
    requires e.WellFormed()
    ensures ParseExtendedHeader(EncodeExtended(e) + tail) == Ok(e)
  {
    var h := e.bin;
    var b := EncodeExtended(e) + tail;
    var pre := h.signature + E32(h.headerLength) + [h.revision, h.reserved1] + h.fspProducerId;
    LE32Of(h.signature, h.headerLength, b[8..]);
    assert b == h.signature + E32(h.headerLength) + b[8..];
    LE32Of(pre, h.fspProducerRevision, b[20..]);
    assert b == pre + E32(h.fspProducerRevision) + b[20..];
    LE32Of(pre + E32(h.fspProducerRevision), h.fspProducerDataSize, e.fspProducerData + tail);
    assert b == pre + E32(h.fspProducerRevision) + E32(h.fspProducerDataSize) + (e.fspProducerData + tail);
    assert DecodeBinaryExtended(b) == h;
    assert b[BinaryExtendedHeaderLength .. BinaryExtendedHeaderLength + h.fspProducerDataSize] == e.fspProducerData;
  }

  /** The Go decoder rejects every header a conformant producer writes, which the intended one accepts. */
  lemma AsWrittenRejectsConformant(e: ExtendedHeader, tail: Bytes)
    requires e.WellFormed()
    ensures ParseExtendedHeaderAsWritten(EncodeExtended(e) + tail) == Err(BadSignature)
    ensures ParseExtendedHeader(EncodeExtended(e) + tail) == Ok(e)
  {
    ParseEncodedExtended(e, tail);
  }
}
