# intelfsp in Dafny

A model of the decoding core of `intelfsp`, a Go package that finds and
decodes Intel Firmware Support Package (FSP) information headers in a
firmware image. The model covers:

- the "FSPH" info header in its four revisions:
  - a common 12-byte preamble;
  - a 64-byte layout for revision 1 and a 72-byte layout for revisions 2, 3 and 4;
  - the accessors for image size, image attributes and component attributes;
- the optional "FSPE" extended header and its producer data;
- `Parse`, which builds one `IntelFSP` record from the bytes at a header;
- `FindAndParse`, which scans a buffer for every header;
- the text renderings of the attribute records and of the packed spec version.

Layout of the model:

- Bytes are `seq<byte>`. Multi-byte fields are decoded little-endian by `Binary.LE16` and `Binary.LE32`. Each decoder has an encoder beside it (`E16`, `E32`, `EncodeV1`, …), and round-trip lemmas tie the two together.
- Go errors are the `Result` datatype. Its `Error` kinds are:
  - `TooShort`: a length check;
  - `ShortRead`: a failed `binary.Read`;
  - `BadSignature`, `ReservedNonzero`, `UnknownRevision`;
  - `TruncatedPayload`.
- A nil pointer is `None`.
- The `BinaryFSPHeader` interface is the closed sum `Header.InfoHeader`, with one variant per revision.
- Revision 4 embeds revision 3, as it does in Go.
- `FindAndParse` keeps its loop: it is a `method` with loop invariants.
- The rest of the core is pure, so it is modelled as functions and lemmas.

Modules, one per source file:

| module | source |
|---|---|
| `Common` | header.go: declarations, renderings, spec version |
| `Header` | header.go: `GetHeader`, `ParseHeader` |
| `HeaderV1` … `HeaderV4` | headerV1.go … headerV4.go |
| `ExtHeader` | extHeader.go |
| `Fsp` | intelfsp.go |

`Binary`, `Text` and `Wrappers` hold the helpers: byte decoding, `bytes.Index`, `strings.Join`/`Split`, "%d", `Option` and `Result`.

Several functions do not do what the surrounding code evidently means them to do (see "## Findings"):

- `ParseExtendedHeader` never decodes an extended header. The FSP_INFO_EXTENDED_HEADER layout of the FSP specification puts FspProducerData at offset 24, after FspProducerDataSize.
- The `Raw` capture in `Parse` tests the wrong way round.
- `Parse` slices `b[72:]` even when a revision 1 header leaves fewer than 72 bytes, and panics.
- `FindAndParse` stops advancing at an occurrence whose pre-check fails, and loops forever.

Each one is modelled twice: once as written, with lemmas that exhibit the discrepancy, and once as intended.

- `Fsp.ParseAsWritten` is the Go `Parse`, and `Fsp.ParseAsWrittenVsParse` compares it with the intended `Fsp.Parse`.
- `Fsp.FindAndParse` is the Go loop, under a precondition that excludes the stall. `Fsp.FindAndParseAdvancing` is the intended loop.
- Both loops build their records with the intended `Fsp.Parse`.

The extended-header probe keeps the fixed offset 72, whatever the revision. For a revision 1 header this lands eight bytes past the header's end.

## Model

| member | source | states |
|---|---|---|
| Binary.IndexOf | intelfsp.go:27 | `bytes.Index`: the result is -1 exactly when the pattern occurs nowhere; otherwise the pattern occurs there and at no earlier index |
| Binary.IncreasingCard | intelfsp.go:33-39 | the offsets the scan visits strictly increase (each step resumes one byte after an occurrence), so none repeats: there are as many as the set they form |
| Text.FieldsJoin | header.go:43 | splitting a `strings.Join` of non-empty, separator-free labels on the separator gives the labels back; the empty list included |
| Common.ImageAttributesString | header.go:28-44 | the rendered string is the join, on the pipe character, of exactly `ImageLabels(ia)`: the graphics label when graphics is present, then "Dispatch Mode Supported" or "Not Supported" |
| Common.ImageLabelsMeaning | header.go:31-41 | each label appears iff its field has the matching value; "Dispatch Mode Not Supported" depends on the graphics field being present and false; an absent field adds nothing; at most two labels |
| Common.ComponentAttributesString | header.go:54-70 | the rendering splits back into exactly three parts, in order: build kind, release kind, type name |
| Common.DecodeEncodeCommon | header.go:79-85 | the 12-byte preamble decodes to the record that was encoded, whatever bytes follow |
| Common.EncodeDecodeCommon | header.go:79-85 | the preamble has no padding: re-encoding a decoded preamble reproduces its 12 bytes |
| Common.SpecVersionNibbles | header.go:109-111 | the major digit `(sv>>4)&0x0f` and the minor digit `sv&0x0f` are both below 16 and pack back into `sv` |
| Common.SpecVersionStringRoundTrip | header.go:105-111 | the "%d.%d" rendering of the packed version is lossless: parsing it back gives the same byte |
| Header.GetHeader | header.go:90-103 | a layout is chosen iff the revision byte is 1 to 4, and it is the layout of that revision; any other byte gives an unknown-revision error |
| Header.ParseHeader | header.go:132-164 | succeeds iff all of these hold: at least 12 bytes; "FSPH" at 0; bytes 8-9 zero; revision 1-4; enough bytes for that revision's layout (64 or 72). Each failure has its own error kind, in the order the checks run. On success the preamble is the decoded first 12 bytes and the header's variant matches byte 11 |
| Header.ParseEncodedHeader | header.go:132-164 | a well-formed header of any revision, encoded and followed by any bytes, parses back to itself |
| Header.ParsedHeaderEncodes | header.go:159-163 | a parsed header accounts for every byte of its fixed layout: re-encoding it gives those bytes |
| Header.Capabilities | header.go:72-77 | read from the bytes:<br>- image size is the u32 at 24;<br>- image attributes are absent iff the revision is 1;<br>- graphics is bit 0 of byte 32;<br>- dispatch mode is bit 1, reported by revision 4 only;<br>- component attributes exist iff the revision is 3 or 4 |
| HeaderV1.DecodeEncodeV1 | headerV1.go:7-21 | the 64-byte revision 1 layout decodes to the record that was encoded, whatever follows |
| HeaderV1.EncodeDecodeV1 | headerV1.go:7-21 | the revision 1 layout has no padding: re-encoding a decode reproduces the 64 bytes |
| HeaderV1.AccessorsV1 | headerV1.go:45-50 | image size is the u32 at bytes 24-27; the u32 at 32 is decoded but no image or component attributes are reported |
| HeaderV2.DecodeEncodeV2 | headerV2.go:9-25 | the 72-byte revision 2 layout decodes to the record that was encoded, whatever follows |
| HeaderV2.EncodeDecodeV2 | headerV2.go:9-25 | the revision 2 layout has no padding: re-encoding a decode reproduces the 72 bytes |
| HeaderV2.ImageAttributesV2 | headerV2.go:56-61 | an attribute word with graphics flag g in bit 0 reads back as exactly g, whatever bits 1-31 hold; dispatch mode is absent |
| HeaderV2.AccessorsV2 | headerV2.go:52-62 | image size is the u32 at 24; graphics support is bit 0 of byte 32; no component attributes |
| HeaderV3.DecodeEncodeV3 | headerV3.go:7-24 | the 72-byte revision 3 layout, with its two u16 attribute words, decodes to the record that was encoded |
| HeaderV3.EncodeDecodeV3 | headerV3.go:7-24 | the revision 3 layout has no padding: re-encoding a decode reproduces the 72 bytes |
| HeaderV3.ValidateType | headerV3.go:73-78 | the result always has a name in the type map; it equals the input code iff that code has a name |
| HeaderV3.ValidateTypeCodes | headerV3.go:73-78 | the codes kept are exactly 0, 1, 2, 3 and 8; every other code becomes the reserved type 0 |
| HeaderV3.ValidateTypeIdempotent | headerV3.go:73-78 | validating an already validated type changes nothing |
| HeaderV3.GetComponentAttributes | headerV3.go:61-71 | always present; the type is one with a map entry, and the type name is that entry: non-empty and free of the pipe character |
| HeaderV3.ComponentAttributesV3 | headerV3.go:61-71 | bits 0 and 1 and the type code in bits 12-15 are recovered exactly, and an unassigned code reads as reserved; bits 2-11 play no part |
| HeaderV3.ImageAttributesV3 | headerV3.go:54-59 | graphics flag g in bit 0 reads back as exactly g whatever bits 1-15 hold; dispatch mode is absent |
| HeaderV3.AccessorsV3 | headerV3.go:50-59 | image size is the u32 at 24; graphics support is bit 0 of byte 32; the component attribute word is the u16 at 34 |
| HeaderV4.ImageAttributesV4 | headerV4.go:7-14 | graphics flag g in bit 0 and dispatch flag d in bit 1 read back as exactly g and d, both present, whatever bits 2-15 hold |
| HeaderV4.BothBitsSet | headerV4.go:7-14 | attribute word 0b0011 reports graphics and dispatch mode both supported |
| HeaderV4.InheritsV3 | headerV4.go:3-5 | revision 4 has the revision 3 layout byte for byte, and the image size and component attributes of the same bytes read as revision 3 |
| ExtHeader.ParseExtendedHeaderAsWritten | extHeader.go:25-53 | as written, the function fails on every input: short inputs are too short, and all others have a bad signature, because `binary.Read` fills the input slice and leaves the struct zero |
| ExtHeader.ValidateAsWritten | extHeader.go:36-50 | the checks after the read, applied to a given prefix, with the uint32 length guard:<br>- below 2^32 bytes, success iff the magic is "FSPE", the reserved byte is zero and 20 + data size ≤ length;<br>- a wrong magic gives BadSignature, then a nonzero reserved byte ReservedNonzero, then a failed guard TruncatedPayload;<br>- on success the payload is `b[20 .. 20 + size]` |
| ExtHeader.PayloadOverlapsSizeField | extHeader.go:47-50 | slicing the payload from byte 20 over a conformant 24-byte prefix yields the four bytes of FspProducerDataSize followed by only the first size-4 data bytes |
| ExtHeader.GuardAdmitsWrappedSize | extHeader.go:44-49 | a data size of 0xFFFFFFFF passes the uint32 guard on a 24-byte input, because 20 + size wraps below 20; the slice bounds are then inverted. This is the input `ValidateAsWritten`'s precondition excludes |
| ExtHeader.ParseExtendedHeader | extHeader.go:25-53 | the intended decoder succeeds iff all of these hold: at least 24 bytes; "FSPE" at 0; reserved byte 9 zero; the announced data present after the prefix. Each failure has its own error kind. On success the prefix is the decoded 24 bytes and the data is exactly the bytes after it |
| ExtHeader.ParseEncodedExtended | extHeader.go:15-23 | a well-formed extended header, encoded and followed by any bytes, parses back to itself |
| ExtHeader.AsWrittenRejectsConformant | extHeader.go:31-38 | on every conformant extended header the as-written function reports a bad signature, while the intended decoder returns the header |
| Fsp.RawAsWritten | intelfsp.go:62-65 | as written: a slice is captured exactly when uint32(len(b)) < imageSize; below 2^32 bytes, exactly when len(b) < imageSize. It is then imageSize bytes long, strictly extends b, and its bytes past len(b) are those of the backing store |
| Fsp.RawAsWrittenInverted | intelfsp.go:62-65 | an image lying wholly inside b is never captured as written, but is captured by the intended definition |
| Fsp.RawImage | intelfsp.go:62-65 | the intended capture is present iff imageSize ≤ len(b), and it is then the first imageSize bytes of b |
| Fsp.Parse | intelfsp.go:45-67 | the intended aggregator. Fails iff `ParseHeader` fails, with its error. On success:<br>- the record holds the header and its two attribute accessors;<br>- the extended header is present iff b reaches byte 72 and the intended decoder succeeds there, and is then that decode;<br>- the raw image is present iff it fits in b, and is then its prefix |
| Fsp.ParseAsWritten | intelfsp.go:45-67 | the Go function. Fails iff `ParseHeader` fails, with its error. On success:<br>- header and attributes are as in `Parse`;<br>- the extended header is never set;<br>- Raw is present iff uint32(len(b)) < imageSize, and is then the first imageSize bytes of the backing store |
| Fsp.ParseAsWrittenVsParse | intelfsp.go:57-65 | the Go and intended functions succeed on the same buffers and agree on header and attributes. The Go one reports no extended header. Below 4 GiB, it captures Raw exactly when the intended one does not |
| Fsp.ParseEncodedImage | intelfsp.go:45-60 | a well-formed header, padding up to byte 72, then a well-formed extended header: `Parse` returns both back |
| Fsp.ProbeOutOfRange | intelfsp.go:57 | a revision 1 image ending right after its 64-byte header parses as a header, yet is shorter than the fixed probe offset 72, so Go's `b[72:]` panics; the intended `Parse` returns its record without an extended header |
| Fsp.ScanStallsOnNonzeroReserved | intelfsp.go:26-40 | "FSPH" with a nonzero byte 8 is found at offset 0, fails the pre-check and leaves the offset unchanged, so the loop never ends; the precondition excludes it |
| Fsp.NextSignature | intelfsp.go:27 | `bytes.Index` on `bts[offset:]`, restated on `bts`: the first occurrence at or after offset, or none there |
| Fsp.OccurrenceInScan | intelfsp.go:29-30 | under the Go loop's precondition, the pre-check reads in bounds and passes at every occurrence |
| Fsp.PreCheckOfHeader | intelfsp.go:29-30 | wherever a header parses, bytes +8 and +9 exist and are zero, so the pre-check never rejects a header that `Parse` would accept |
| Fsp.SkipOccurrence | intelfsp.go:32-35 | an occurrence where no header parses is passed over without missing any parsing header before it |
| Fsp.TakeOccurrence | intelfsp.go:36-39 | after an occurrence is taken, no parsing header at or before it is missing |
| Fsp.AppendRecord | intelfsp.go:36-39 | appending the record parsed at the new occurrence keeps the records in increasing offset order, each the parse at its offset |
| Fsp.CountRecords | intelfsp.go:22-43 | offsets that increase strictly, each holding a record `Parse` decoded there, and that miss no parsing header, are exactly the header offsets; so there is one record per header |
| Fsp.ScanDone | intelfsp.go:26-42 | once no occurrence is left past the offset, the collected records are in increasing offset order, each the parse at its offset, and they cover every header offset: one record per header |
| Fsp.FindAndParse | intelfsp.go:22-43 | the records come in strictly increasing offset order, each being `Parse` of the buffer at an "FSPH" occurrence that passed the pre-check; every occurrence at which a header parses is among them, so the number of records is the number of such occurrences |
| Fsp.FindAndParseAdvancing | intelfsp.go:22-43 | the intended loop, which passes over an occurrence failing the pre-check: with no precondition, it returns the same records as `FindAndParse` promises |

## Left out

- The `Summary()` methods of every header and of `IntelFSP`, and the command-line tool, are presentation. cmd/fsputil.go is not part of this model.
- Error message text is left out. Errors are reduced to their kind.
- `binary.Read`'s reflection is written out field by field as the decode functions. The `io.ErrUnexpectedEOF` it returns on a short buffer is the single kind `ShortRead`.
- `bytes.Index` is specified, not implemented: `Binary.IndexOf` is a recursive reference definition, not Go's search algorithm.
- Pointer identity is left out: `*BinaryFSPHeader` and `*ImageAttributes` are modelled as values, and `hdr != nil` after a successful `Parse` always holds.
- Fsp.Parse: is the intended aggregator, not the Go function. It uses the intended extended-header decoder and Raw capture, and treats a buffer that ends before byte 72 as a failed probe. The Go function never sets ExtendedInfo, captures Raw only when uint32(len(b)) < imageSize, and panics on such a buffer. `Fsp.ParseAsWritten` models the Go function and states this.
- Fsp.ParseAsWritten: its preconditions rule out the two panics, `b[72:]` on a buffer shorter than 72 bytes and `b[:imageSize]` past the backing store. The panics themselves are not modelled.
- Fsp.FindAndParse: the precondition `ScanTerminates` rules out two behaviours that are not modelled. The first is an "FSPH" occurrence whose pre-check fails, where the Go loop never advances and runs forever (`Fsp.ScanStallsOnNonzeroReserved` shows one). The second is an occurrence within nine bytes of the end, where the pre-check panics. The loop builds its records with the intended `Fsp.Parse`. The `offsets` result is ghost: it records positions the Go function does not return.
- Fsp.RawImage: compares the full length of b with imageSize. The `uint32(len(b))` truncation of buffers of 4 GiB or more is not modelled for the intended capture.
- Fsp.RawAsWritten: promises that the capture extends b only for buffers shorter than 2^32 bytes. The capacity of a Go slice is modelled by passing its backing store explicitly.
- ExtHeader.ValidateAsWritten: states the if-and-only-if only for inputs shorter than 2^32 bytes. Above that, the uint32 truncation of `len(b)` decides. A guard passed by a wrapped sum panics in Go, and the precondition rules that out.
- ExtHeader.ParseExtendedHeader: compares lengths without wrap-around, where the code wraps at 2^32 bytes.
- Common.ComponentAttributesString: promises the three-part split only when the type name has no "|". Every name in the type map satisfies this (`HeaderV3.GetComponentAttributes`).

## Findings

| source | as written | input that shows it | evidently intended | confidence | as-written member | corrected member |
|---|---|---|---|---|---|---|
| extHeader.go:32 | `binary.Read` is given `&b`, the input slice, instead of `&binHeader`, so the struct stays zero | any well-formed "FSPE" header of at least 20 bytes: the signature check sees four zero bytes and fails | read the prefix into `binHeader` | high; not executed | ExtHeader.AsWrittenRejectsConformant | ExtHeader.ParseExtendedHeader |
| extHeader.go:47-50 | the producer data is sliced from byte 20 (`FixedExtendedInfoHeaderLength`), but the fixed struct is 24 bytes long | a conformant header with FspProducerDataSize = 4: the "data" is the four size bytes themselves | slice from byte 24, after FspProducerDataSize | high; not executed | ExtHeader.PayloadOverlapsSizeField | ExtHeader.ParseExtendedHeader |
| extHeader.go:44-49 | the guard compares in uint32, so 20 + FspProducerDataSize can wrap | a 24-byte header with FspProducerDataSize = 0xFFFFFFFF passes the guard and then slices `[20:19]` | compare without wrap-around and reject the truncated payload | medium; not executed | ExtHeader.GuardAdmitsWrappedSize | ExtHeader.ParseExtendedHeader |
| intelfsp.go:57 | the extended header is probed at `b[72:]` whatever the revision | a 64-byte buffer holding a well-formed revision 1 header: the header parses, then the slice panics | treat a buffer ending before byte 72 as a failed probe, so the record has no extended header | high; not executed | Fsp.ProbeOutOfRange | Fsp.Parse |
| intelfsp.go:29-40 | when the +8/+9 pre-check fails, neither branch advances `offset` | "FSPH" followed by four zero bytes and a 1: the same occurrence is found on every iteration and the loop never ends | pass over the occurrence, as for a failed parse | high; not executed | Fsp.ScanStallsOnNonzeroReserved | Fsp.FindAndParseAdvancing |
| intelfsp.go:63 | `Raw` is captured when `uint32(len(b)) < imageSize` | an image of imageSize bytes inside a longer buffer gets no `Raw`; a shorter buffer gets a slice past its length, or a panic | capture `b[:imageSize]` when imageSize ≤ len(b) | high; not executed | Fsp.RawAsWrittenInverted | Fsp.RawImage |
