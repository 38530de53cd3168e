/** headerV4.go: revision 4 reuses the revision 3 layout and reads one more attribute bit. */
module HeaderV4 {
  import opened Wrappers
  import opened Binary
  import opened Common
  import HeaderV3

  /** InfoHeaderV4 embeds InfoHeaderV3: same 72 bytes, same fields. */
  datatype InfoHeaderV4 = InfoHeaderV4(base: HeaderV3.InfoHeaderV3)

  /** binary.Read of an InfoHeaderV4: the embedded revision 3 struct. */
  function DecodeV4(b: Bytes): InfoHeaderV4
    requires |b| >= HeaderFsp4Length
  {
    InfoHeaderV4(HeaderV3.DecodeV3(b))
  }

  /** The 72 bytes a conformant producer writes for h. */
  function EncodeV4(h: InfoHeaderV4): (r: Bytes)
    ensures |r| == HeaderFsp4Length
  {
    HeaderV3.EncodeV3(h.base)
  }

  /** GetImageSize, inherited from the embedded revision 3 header. */
  function GetImageSize(h: InfoHeaderV4): u32
  {
    HeaderV3.GetImageSize(h.base)
  }

  /** GetImageAttributes: graphics is ImageAttribute & 0b0001, dispatch mode & 0b0010, both always present. */
  function GetImageAttributes(h: InfoHeaderV4): Option<ImageAttributes>
  {
    Some(ImageAttributes(
      Some(h.base.imageAttribute % 2 == 1),
      Some((h.base.imageAttribute / 2) % 2 == 1)))
  }

  /** GetComponentAttributes, inherited from the embedded revision 3 header. */
  function GetComponentAttributes(h: InfoHeaderV4): Option<ComponentAttributes>
  {
    HeaderV3.GetComponentAttributes(h.base)
  }

  /**
   * An ImageAttribute written with graphics flag g in bit 0, dispatch flag d
   * in bit 1 and anything in bits 2-15 reads back as exactly those flags.
   */
  lemma ImageAttributesV4(h: InfoHeaderV4, g: bool, d: bool, rest: nat)
    requires h.base.imageAttribute == (if g then 1 else 0) + (if d then 2 else 0) + 4 * rest
    ensures GetImageAttributes(h) == Some(ImageAttributes(Some(g), Some(d)))
  {
    var x := h.base.imageAttribute;
    assert x == (if g then 1 else 0) + 2 * ((if d then 1 else 0) + 2 * rest);
  }

  /** ImageAttribute 0b0011 reports graphics and dispatch mode both supported. */
  lemma BothBitsSet(h: InfoHeaderV4)
    requires h.base.imageAttribute == 0x3
    ensures GetImageAttributes(h) == Some(ImageAttributes(Some(true), Some(true)))
  {
    ImageAttributesV4(h, true, true, 0);
  }

  /** Size and component attributes are those of the same bytes read as revision 3. */
  lemma InheritsV3(b: Bytes)
    requires |b| >= HeaderFsp4Length
    ensures EncodeV4(DecodeV4(b)) == b[..HeaderFsp4Length]
    ensures GetImageSize(DecodeV4(b)) == HeaderV3.GetImageSize(HeaderV3.DecodeV3(b))
    ensures GetComponentAttributes(DecodeV4(b)) == HeaderV3.GetComponentAttributes(HeaderV3.DecodeV3(b))
  {
    HeaderV3.EncodeDecodeV3(b);
  }
}
