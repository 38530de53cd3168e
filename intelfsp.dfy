/**
 * intelfsp.go: the IntelFSP record, Parse (one header and what hangs off
 * it) and FindAndParse (every header in a buffer).
 */
module Fsp {
  import opened Wrappers
  import opened Binary
  import opened Common
  import opened Header
  import opened ExtHeader

  /** IntelFSP: one decoded image. None stands for a nil pointer or a nil slice. */
  datatype IntelFsp = IntelFsp(
    info: InfoHeader,
    imageAttributes: Option<ImageAttributes>,
    componentAttribute: Option<ComponentAttributes>,
    extendedInfo: Option<ExtendedHeader>,
    raw: Option<Bytes>)

  /** Parse probes for the extended header at this offset, whatever the revision. */
  const ExtendedProbeOffset := 72

  /**
   * intelfsp.go:62-65 as written: Raw is set when uint32(len(b)) < imageSize.
   * Go lets b[:n] reach past len(b) up to cap(b), so the slice is modelled by
   * its whole backing store, `backing`, of which the first `len` bytes are b;
   * a slice past the backing store panics, which the requires rules out.
   */
  function RawAsWritten(backing: Bytes, len: nat, imageSize: u32): (raw: Option<Bytes>)
    requires len <= |backing|
    requires len % 0x1_0000_0000 < imageSize ==> imageSize <= |backing|
    ensures raw.Some? <==> len % 0x1_0000_0000 < imageSize
    ensures len < 0x1_0000_0000 ==> (raw.Some? <==> len < imageSize)
    ensures raw.Some? ==> |raw.value| == imageSize
    ensures raw.Some? && len < 0x1_0000_0000 ==>
      backing[..len] < raw.value && raw.value[len..] == backing[len .. imageSize]
  {
    if len % 0x1_0000_0000 < imageSize then Some(backing[..imageSize]) else None
  }

  /**
   * The inverted test in action: an image that lies wholly inside b is never
   * captured, where the intended definition captures it.
   */
  lemma RawAsWrittenInverted(backing: Bytes, len: nat, imageSize: u32)
    requires imageSize <= len <= |backing| && len < 0x1_0000_0000
    ensures RawAsWritten(backing, len, imageSize) == None
    ensures RawImage(backing[..len], imageSize) == Some(backing[..imageSize])
  {
    assert backing[..len][..imageSize] == backing[..imageSize];
  }

  /** The image payload as the record is meant to carry it: the first imageSize bytes, when b holds them all. */
  function RawImage(b: Bytes, imageSize: u32): (raw: Option<Bytes>)
    ensures raw.Some? <==> imageSize <= |b|
    ensures raw.Some? ==> |raw.value| == imageSize && raw.value <= b
  {
    if imageSize <= |b| then Some(b[..imageSize]) else None
  }

  /**
   * Parse as the record is meant to be built: decodes the header at the
   * start of b, takes its attributes from the header's accessors, probes for
   * an extended header at byte 72 (a failed probe, or a buffer that ends
   * before byte 72, leaves it absent) and captures the image bytes when b
   * holds them all. It fails exactly when ParseHeader does.
   */
  function Parse(b: Bytes): (r: Result<IntelFsp>)
    ensures r.Ok? <==> ParseHeader(b).Ok?
    ensures r.Err? ==> r.error == ParseHeader(b).error
    ensures r.Ok? ==>
      var h := ParseHeader(b).value;
      && r.value.info == h
      && r.value.imageAttributes == h.GetImageAttributes()
      && r.value.componentAttribute == h.GetComponentAttributes()
      && (r.value.extendedInfo.Some? <==>
            |b| >= ExtendedProbeOffset && ParseExtendedHeader(b[ExtendedProbeOffset..]).Ok?)
      && (r.value.extendedInfo.Some? ==>
            r.value.extendedInfo.value == ParseExtendedHeader(b[ExtendedProbeOffset..]).value)
      && (r.value.raw.Some? <==> h.GetImageSize() <= |b|)
      && (r.value.raw.Some? ==> r.value.raw.value == b[..h.GetImageSize()])
  {
    match ParseHeader(b)
    case Err(e) => Err(e)
    case Ok(info) =>
      var extInfo :=
        if |b| < ExtendedProbeOffset then None
        else match ParseExtendedHeader(b[ExtendedProbeOffset..])
          case Ok(ext) => Some(ext)
          case Err(_) => None;
      Ok(IntelFsp(info, info.GetImageAttributes(), info.GetComponentAttributes(), extInfo,
        RawImage(b, info.GetImageSize())))
  }

  /**
   * Parse exactly as the Go function is written, on a slice b of the first
   * len bytes of its backing store. The extended header comes from the Go
   * ParseExtendedHeader, so it is never set; Raw is captured under the
   * inverted test and may reach past len(b). The requires rule out the two
   * panics: b[72:] on a buffer shorter than 72 bytes, and b[:imageSize]
   * past the backing store.
   */
  function ParseAsWritten(backing: Bytes, len: nat): (r: Result<IntelFsp>)
    requires len <= |backing|
    requires ParseHeader(backing[..len]).Ok? ==>
      && len >= ExtendedProbeOffset
      && (len % 0x1_0000_0000 < ParseHeader(backing[..len]).value.GetImageSize() ==>
            ParseHeader(backing[..len]).value.GetImageSize() <= |backing|)
    ensures r.Ok? <==> ParseHeader(backing[..len]).Ok?
    ensures r.Err? ==> r.error == ParseHeader(backing[..len]).error
    ensures r.Ok? ==>
      var h := ParseHeader(backing[..len]).value;
      && r.value.info == h
      && r.value.imageAttributes == h.GetImageAttributes()
      && r.value.componentAttribute == h.GetComponentAttributes()
      && r.value.extendedInfo == None
      && (r.value.raw.Some? <==> len % 0x1_0000_0000 < h.GetImageSize())
      && (r.value.raw.Some? ==> r.value.raw.value == backing[..h.GetImageSize()])
  {
    var b := backing[..len];
    match ParseHeader(b)
    case Err(e) => Err(e)
    case Ok(info) =>
      var extInfo := match ParseExtendedHeaderAsWritten(b[ExtendedProbeOffset..])
        case Ok(ext) => Some(ext)
        case Err(_) => None;
      Ok(IntelFsp(info, info.GetImageAttributes(), info.GetComponentAttributes(), extInfo,
        RawAsWritten(backing, len, info.GetImageSize())))
  }

  /**
   * The Go function and the intended one agree on the header and its
   * attributes; the Go one never reports an extended header, and for any
   * buffer below 4 GiB it captures Raw exactly when the intended one does not.
   */
  lemma ParseAsWrittenVsParse(backing: Bytes, len: nat)
    requires len <= |backing|
    requires ParseHeader(backing[..len]).Ok? ==>
      && len >= ExtendedProbeOffset
      && (len % 0x1_0000_0000 < ParseHeader(backing[..len]).value.GetImageSize() ==>
            ParseHeader(backing[..len]).value.GetImageSize() <= |backing|)
    ensures var w, p := ParseAsWritten(backing, len), Parse(backing[..len]);
      && (w.Ok? <==> p.Ok?)
      && (w.Ok? ==>
            && w.value.info == p.value.info
            && w.value.imageAttributes == p.value.imageAttributes
            && w.value.componentAttribute == p.value.componentAttribute
            && w.value.extendedInfo == None)
      && (w.Ok? && len < 0x1_0000_0000 ==> (w.value.raw.Some? <==> p.value.raw.None?))
  {
  }

  /**
   * A conformant image parses back to what was written: a header, the gap
   * up to byte 72 (eight bytes after a 64-byte revision 1 header, none
   * otherwise), then an extended header.
   */
  lemma ParseEncodedImage(h: InfoHeader, gap: Bytes, e: ExtendedHeader, tail: Bytes)
    requires h.WellFormed() && e.WellFormed()
    requires |h.Encode()| + |gap| == ExtendedProbeOffset
    ensures var b := h.Encode() + (gap + EncodeExtended(e) + tail);
      && Parse(b).Ok?
      && Parse(b).value.info == h
      && Parse(b).value.extendedInfo == Some(e)
  {
    var b := h.Encode() + (gap + EncodeExtended(e) + tail);
    ParseEncodedHeader(h, gap + EncodeExtended(e) + tail);
    ProbeOfImage(h.Encode(), gap, EncodeExtended(e), tail);
    ParseEncodedExtended(e, tail);
    ParseParts(b, h, e);
  }

  /** The probe at byte 72 lands right after the header and the gap. */
  lemma ProbeOfImage(header: Bytes, gap: Bytes, ext: Bytes, tail: Bytes)
    requires |header| + |gap| == ExtendedProbeOffset
    ensures (header + (gap + ext + tail))[ExtendedProbeOffset..] == ext + tail
  {
    assert header + (gap + ext + tail) == (header + gap) + (ext + tail);
  }

  /** Parse assembled from its two decoders' results. */
  lemma ParseParts(b: Bytes, h: InfoHeader, e: ExtendedHeader)
    requires ParseHeader(b) == Ok(h) && |b| >= ExtendedProbeOffset
    requires ParseExtendedHeader(b[ExtendedProbeOffset..]) == Ok(e)
    ensures Parse(b).Ok? && Parse(b).value.info == h && Parse(b).value.extendedInfo == Some(e)
  {
  }

  /**
   * A revision 1 image that ends right after its 64-byte header parses as a
   * header, yet is shorter than the fixed probe offset: Go's b[72:] panics
   * on it. Parse, which treats the missing bytes as a failed probe, returns
   * the record without an extended header.
   */
  lemma ProbeOutOfRange(h: InfoHeader)
    requires h.V1? && h.WellFormed()
    ensures ParseHeader(h.Encode()).Ok?
    ensures |h.Encode()| < ExtendedProbeOffset
    ensures Parse(h.Encode()).Ok? && Parse(h.Encode()).value.extendedInfo == None
  {
    ParseEncodedHeader(h, []);
    assert h.Encode() + [] == h.Encode();
  }

  /** The FSPH signature starts at offset o of bts. */
  predicate SignatureAt(bts: Bytes, o: int)
  {
    MatchAt(bts, FspHeaderSignature, o)
  }

  /**
   * The buffers on which FindAndParse returns. At every occurrence of the
   * signature the pre-check reads bytes +8 and +9, which must exist; when
   * either is nonzero the loop does not advance and finds the same
   * occurrence again forever.
   */
  ghost predicate ScanTerminates(bts: Bytes)
  {
    forall o | SignatureAt(bts, o) :: o + 9 < |bts| && bts[o + 8] == 0 && bts[o + 9] == 0
  }

  /**
   * "FSPH" followed by a nonzero byte 8: bytes.Index finds the occurrence at
   * offset 0, the pre-check fails, offset stays 0, and the Go loop runs
   * forever. ScanTerminates excludes exactly such buffers.
   */
  lemma ScanStallsOnNonzeroReserved()
    ensures var bts := FspHeaderSignature + [0, 0, 0, 0, 1, 0];
      && IndexOf(bts, FspHeaderSignature) == 0
      && bts[8] != 0
      && !ScanTerminates(bts)
  {
    var bts := FspHeaderSignature + [0, 0, 0, 0, 1, 0];
    assert SignatureAt(bts, 0) by { assert bts[0..4] == FspHeaderSignature; }
  }

  /** bytes.Index on the part of bts from offset on, in terms of bts. */
  lemma NextSignature(bts: Bytes, offset: nat)
    requires offset <= |bts|
    ensures var i := IndexOf(bts[offset..], FspHeaderSignature);
      && (i >= 0 ==> SignatureAt(bts, offset + i))
      && (i >= 0 ==> forall o :: offset <= o < offset + i ==> !SignatureAt(bts, o))
      && (i < 0 ==> forall o :: offset <= o ==> !SignatureAt(bts, o))
  {
    forall o | offset <= o
      ensures SignatureAt(bts, o) <==> MatchAt(bts[offset..], FspHeaderSignature, o - offset)
    {
      MatchAtSuffix(bts, FspHeaderSignature, offset, o - offset);
    }
  }

  /** What ScanTerminates guarantees at one occurrence: the pre-check reads in bounds and passes. */
  lemma OccurrenceInScan(bts: Bytes, at: nat)
    requires ScanTerminates(bts) && SignatureAt(bts, at)
    ensures at + 9 < |bts| && bts[at + 8] == 0 && bts[at + 9] == 0
  {
  }

  /** Where a header parses, the pre-check reads in bounds and passes. */
  lemma PreCheckOfHeader(bts: Bytes, at: nat)
    requires at <= |bts|
    ensures ParseHeader(bts[at..]).Ok? ==> at + 9 < |bts| && bts[at + 8] == 0 && bts[at + 9] == 0
  {
    if ParseHeader(bts[at..]).Ok? {
      assert bts[at..][8] == bts[at + 8] && bts[at..][9] == bts[at + 9];
    }
  }

  /** The offsets in bts at which a header parses. */
  ghost function HeaderOffsets(bts: Bytes): set<nat>
  {
    set o: nat | o <= |bts| && SignatureAt(bts, o) && ParseHeader(bts[o..]).Ok?
  }

  /** rec is what Parse makes of the header at o, an occurrence that passes the pre-check. */
  ghost predicate DecodedAt(bts: Bytes, o: nat, rec: IntelFsp)
  {
    && SignatureAt(bts, o)
    && o + 9 < |bts|
    && bts[o + 8] == 0 && bts[o + 9] == 0
    && Parse(bts[o..]) == Ok(rec)
  }

  /**
   * The records the scan has collected once the search has passed offset:
   * one per offset, offsets increasing and below offset, each record
   * decoded at its offset.
   */
  ghost predicate RecordsFound(bts: Bytes, offset: nat, fsp: seq<IntelFsp>, offsets: seq<nat>)
  {
    && offset <= |bts|
    && |offsets| == |fsp|
    && (forall i, j :: 0 <= i < j < |offsets| ==> offsets[i] < offsets[j])
    && (forall i :: 0 <= i < |offsets| ==> offsets[i] < offset)
    && (forall i :: 0 <= i < |offsets| ==> DecodedAt(bts, offsets[i], fsp[i]))
  }

  /** Every occurrence below offset at which a header parses is among offsets. */
  ghost predicate NoneMissed(bts: Bytes, offset: nat, offsets: seq<nat>)
  {
    forall o :: o in HeaderOffsets(bts) && o < offset ==> o in offsets
  }

  /** An occurrence where no header parses is passed over. */
  lemma SkipOccurrence(bts: Bytes, offset: nat, at: nat, offsets: seq<nat>)
    requires NoneMissed(bts, offset, offsets)
    requires offset <= at < |bts|
    requires forall o :: offset <= o < at ==> !SignatureAt(bts, o)
    requires ParseHeader(bts[at..]).Err?
    ensures NoneMissed(bts, at + 1, offsets)
  {
    forall o | o in HeaderOffsets(bts) && o < at + 1
      ensures o in offsets
    {
      assert o != at;
    }
  }

  /** An occurrence whose header parses is taken, so none is missed up to it. */
  lemma TakeOccurrence(bts: Bytes, offset: nat, at: nat, offsets: seq<nat>)
    requires NoneMissed(bts, offset, offsets)
    requires offset <= at
    requires forall o :: offset <= o < at ==> !SignatureAt(bts, o)
    ensures NoneMissed(bts, at + 1, offsets + [at])
  {
    forall o | o in HeaderOffsets(bts) && o < at + 1
      ensures o in offsets + [at]
    {
      if o < offset {
        assert o in offsets;
      } else {
        assert o == at;
      }
    }
  }

  /** The record decoded at the occurrence is appended, with its offset. */
  lemma AppendRecord(bts: Bytes, offset: nat, at: nat, rec: IntelFsp, fsp: seq<IntelFsp>, offsets: seq<nat>)
    requires RecordsFound(bts, offset, fsp, offsets)
    requires offset <= at < |bts|
    requires DecodedAt(bts, at, rec)
    ensures RecordsFound(bts, at + 1, fsp + [rec], offsets + [at])
  {
    var fsp', offsets' := fsp + [rec], offsets + [at];
    forall i | 0 <= i < |offsets'|
      ensures offsets'[i] < at + 1 && DecodedAt(bts, offsets'[i], fsp'[i])
    {
      if i < |offsets| {
        assert offsets'[i] == offsets[i] && fsp'[i] == fsp[i];
      }
    }
    forall i, j | 0 <= i < j < |offsets'|
      ensures offsets'[i] < offsets'[j]
    {
      assert offsets'[i] == offsets[i];
      if j < |offsets| {
        assert offsets'[j] == offsets[j];
        assert offsets[i] < offsets[j];
      } else {
        assert offsets[i] < offset <= at == offsets'[j];
      }
    }
  }

  /**
   * The offsets FindAndParse reports are exactly the header offsets, so
   * there is one record per occurrence at which a header parses.
   */
  lemma CountRecords(bts: Bytes, fsp: seq<IntelFsp>, offsets: seq<nat>)
    requires |offsets| == |fsp|
    requires forall i, j :: 0 <= i < j < |offsets| ==> offsets[i] < offsets[j]
    requires forall i :: 0 <= i < |offsets| ==> DecodedAt(bts, offsets[i], fsp[i])
    requires forall o :: o in HeaderOffsets(bts) ==> o in offsets
    ensures Elems(offsets) == HeaderOffsets(bts)
    ensures |fsp| == |HeaderOffsets(bts)|
  {
    forall o | o in offsets
      ensures o in HeaderOffsets(bts)
    {
      var i :| 0 <= i < |offsets| && offsets[i] == o;
      assert DecodedAt(bts, o, fsp[i]);
    }
    IncreasingCard(offsets);
  }

  /** When no occurrence is left past offset, the collected records are all there are. */
  lemma ScanDone(bts: Bytes, offset: nat, fsp: seq<IntelFsp>, offsets: seq<nat>)
    requires RecordsFound(bts, offset, fsp, offsets)
    requires NoneMissed(bts, offset, offsets)
    requires forall o :: offset <= o ==> !SignatureAt(bts, o)
    ensures |offsets| == |fsp|
    ensures forall i, j :: 0 <= i < j < |offsets| ==> offsets[i] < offsets[j]
    ensures forall i :: 0 <= i < |offsets| ==> DecodedAt(bts, offsets[i], fsp[i])
    ensures forall o :: o in HeaderOffsets(bts) ==> o in offsets
    ensures |fsp| == |HeaderOffsets(bts)|
  {
    forall o | o in HeaderOffsets(bts)
      ensures o in offsets
    {
      assert SignatureAt(bts, o);
    }
    CountRecords(bts, fsp, offsets);
  }

  /**
   * FindAndParse: searches for "FSPH", pre-checks bytes +8/+9, parses there
   * and resumes the search one byte after the occurrence, whether or not the
   * parse succeeded. The records come back in increasing order of the
   * offsets they were parsed at (the ghost `offsets`), every one of them an
   * occurrence whose parse succeeded, and every such occurrence is among
   * them: nothing inside a decoded header is skipped.
   */
  method FindAndParse(bts: Bytes) returns (fsp: seq<IntelFsp>, ghost offsets: seq<nat>)
    requires ScanTerminates(bts)
    ensures |offsets| == |fsp|
    ensures forall i, j :: 0 <= i < j < |offsets| ==> offsets[i] < offsets[j]
    ensures forall i :: 0 <= i < |offsets| ==> DecodedAt(bts, offsets[i], fsp[i])
    ensures forall o :: o in HeaderOffsets(bts) ==> o in offsets
    ensures |fsp| == |HeaderOffsets(bts)|
  {
    fsp := [];
    offsets := [];
    var index := 0;
    var offset := 0;
    while index >= 0
      invariant RecordsFound(bts, offset, fsp, offsets)
      invariant NoneMissed(bts, offset, offsets)
      invariant index < 0 ==> forall o :: offset <= o ==> !SignatureAt(bts, o)
      decreases |bts| - offset + (if index >= 0 then 1 else 0)
    {
      index := IndexOf(bts[offset..], FspHeaderSignature);
      NextSignature(bts, offset);
      if index >= 0 {
        var at := offset + index;
        OccurrenceInScan(bts, at);
        if bts[at + 8] == 0 && bts[at + 9] == 0 {
          var hdr := Parse(bts[at..]);
          if hdr.Err? {
            SkipOccurrence(bts, offset, at, offsets);
          } else {
            TakeOccurrence(bts, offset, at, offsets);
            AppendRecord(bts, offset, at, hdr.value, fsp, offsets);
            fsp := fsp + [hdr.value];
            offsets := offsets + [at];
          }
          offset := at + 1;
        } else {
          // Under ScanTerminates every occurrence passes the pre-check; the
          // Go loop would find this occurrence again on every iteration.
          assert false;
        }
      }
    }
    ScanDone(bts, offset, fsp, offsets);
  }

  /**
   * FindAndParse as intended: an occurrence that fails the pre-check, or
   * lies too close to the end for it, is passed over like one whose parse
   * fails, so the search always moves on. It needs no precondition and
   * promises the same records.
   */
  method FindAndParseAdvancing(bts: Bytes) returns (fsp: seq<IntelFsp>, ghost offsets: seq<nat>)
    ensures |offsets| == |fsp|
    ensures forall i, j :: 0 <= i < j < |offsets| ==> offsets[i] < offsets[j]
    ensures forall i :: 0 <= i < |offsets| ==> DecodedAt(bts, offsets[i], fsp[i])
    ensures forall o :: o in HeaderOffsets(bts) ==> o in offsets
    ensures |fsp| == |HeaderOffsets(bts)|
  {
    fsp := [];
    offsets := [];
    var index := 0;
    var offset := 0;
    while index >= 0
      invariant RecordsFound(bts, offset, fsp, offsets)
      invariant NoneMissed(bts, offset, offsets)
      invariant index < 0 ==> forall o :: offset <= o ==> !SignatureAt(bts, o)
      decreases |bts| - offset + (if index >= 0 then 1 else 0)
    {
      index := IndexOf(bts[offset..], FspHeaderSignature);
      NextSignature(bts, offset);
      if index >= 0 {
        var at := offset + index;
        if at + 9 < |bts| && bts[at + 8] == 0 && bts[at + 9] == 0 {
          var hdr := Parse(bts[at..]);
          if hdr.Ok? {
            TakeOccurrence(bts, offset, at, offsets);
            AppendRecord(bts, offset, at, hdr.value, fsp, offsets);
            fsp := fsp + [hdr.value];
            offsets := offsets + [at];
          } else {
            SkipOccurrence(bts, offset, at, offsets);
          }
        } else {
          PreCheckOfHeader(bts, at);
          SkipOccurrence(bts, offset, at, offsets);
        }
        offset := at + 1;
      }
    }
    ScanDone(bts, offset, fsp, offsets);
  }
}
