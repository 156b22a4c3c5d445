/**
 * A container (flash_header_v3_t): its 16-byte fixed header, its six image slots, its
 * signature block and padding quantum; the value-level effect of set_container and
 * set_image_array_entry on it; and the two-pass flattening of the containers in use into
 * one byte string (flatten_container_header), with the layout lemmas that describe it.
 */
module Container {
  import opened LittleEndian
  import opened Wrappers
  import opened Alignment
  import opened ImageEntry

  const U8: nat := 0x100
  const U16: nat := 0x1_0000

  const MaxNumImgs: nat := 6
  const MaxNumOfContainer: nat := 2
  const HeaderImgArrayOffset: nat := 0x10
  const IvtHeaderTagB0: nat := 0x87
  const IvtVersionB0: nat := 0x00
  const ContainerAlignment: nat := 0x400

  /** The first 16 bytes of a container, in the order they are emitted. */
  datatype FixedHeader = FixedHeader(
    version: nat,       // u8
    length: nat,        // u16
    tag: nat,           // u8
    flags: nat,         // u32
    swVersion: nat,     // u16
    fuseVersion: nat,   // u8
    numImages: nat,     // u8
    sigBlkOffset: nat,  // u16
    reserved: nat)      // u16
  {
    predicate Valid() {
      version < U8 && length < U16 && tag < U8 && flags < U32 && swVersion < U16
      && fuseVersion < U8 && numImages < U8 && sigBlkOffset < U16 && reserved < U16
    }
  }

  datatype FlashHeader = FlashHeader(
    hdr: FixedHeader,
    img: seq<BootImage>,  // MaxNumImgs slots; the first hdr.numImages are in use
    sigblk: seq<Byte>,    // signature block (sigblk, sigblk_size)
    padding: nat)         // u32 alignment quantum of the serialized container
  {
    predicate Valid() {
      && hdr.Valid() && hdr.numImages <= MaxNumImgs
      && |img| == MaxNumImgs
      && img[0].Valid() && img[1].Valid() && img[2].Valid()
      && img[3].Valid() && img[4].Valid() && img[5].Valid()
      && |sigblk| < U32 && padding < U32
    }
  }

  lemma SlotValid(c: FlashHeader, j: nat)
    requires c.Valid() && j < MaxNumImgs
    ensures c.img[j].Valid()
  {
    if j == 0 {} else if j == 1 {} else if j == 2 {} else if j == 3 {} else if j == 4 {}
  }

  lemma SlotsValid(c: FlashHeader)
    requires c.Valid()
    ensures forall j :: 0 <= j < MaxNumImgs ==> c.img[j].Valid()
  {
    forall j | 0 <= j < MaxNumImgs ensures c.img[j].Valid() {
      SlotValid(c, j);
    }
  }

  /** A container as left by the memset of the whole header: every field zero, no signature. */
  function ZeroContainer(): (c: FlashHeader)
    ensures c.Valid() && c.hdr.numImages == 0
    ensures forall j :: 0 <= j < MaxNumImgs ==> c.img[j] == ZeroImage()
  {
    FlashHeader(FixedHeader(0, 0, 0, 0, 0, 0, 0, 0, 0), [ZeroImage(), ZeroImage(), ZeroImage(), ZeroImage(), ZeroImage(), ZeroImage()], [], 0)
  }

  // ---------------------------------------------------------------- the 16-byte header

  function EncodeHeader(h: FixedHeader): (r: seq<Byte>)
    requires h.Valid()
    ensures |r| == HeaderImgArrayOffset
  {
    Pow256Widths();
    Le(h.version, 1) + Le(h.length, 2) + Le(h.tag, 1) + Le(h.flags, 4) + Le(h.swVersion, 2)
    + Le(h.fuseVersion, 1) + Le(h.numImages, 1) + Le(h.sigBlkOffset, 2) + Le(h.reserved, 2)
  }

  function DecodeHeader(s: seq<Byte>): (h: FixedHeader)
    requires |s| == HeaderImgArrayOffset
    ensures h.Valid()
  {
    Pow256Widths();
    FixedHeader(FromLe(s[0..1]), FromLe(s[1..3]), FromLe(s[3..4]), FromLe(s[4..8]),
                FromLe(s[8..10]), FromLe(s[10..11]), FromLe(s[11..12]), FromLe(s[12..14]),
                FromLe(s[14..16]))
  }

  /** Where each field lies in the 16-byte header. */
  lemma {:induction false} EncodeHeaderFields(h: FixedHeader)
    requires h.Valid()
    ensures Pow256(1) == U8 && Pow256(2) == U16 && Pow256(4) == U32
    ensures var s := EncodeHeader(h);
      && s[0..1] == Le(h.version, 1) && s[1..3] == Le(h.length, 2) && s[3..4] == Le(h.tag, 1)
      && s[4..8] == Le(h.flags, 4) && s[8..10] == Le(h.swVersion, 2)
      && s[10..11] == Le(h.fuseVersion, 1) && s[11..12] == Le(h.numImages, 1)
      && s[12..14] == Le(h.sigBlkOffset, 2) && s[14..16] == Le(h.reserved, 2)
  {
    Pow256Widths();
    var s := EncodeHeader(h);
    var x1 := Le(h.version, 1);
    var x2 := x1 + Le(h.length, 2);
    var x3 := x2 + Le(h.tag, 1);
    var x4 := x3 + Le(h.flags, 4);
    var x5 := x4 + Le(h.swVersion, 2);
    var x6 := x5 + Le(h.fuseVersion, 1);
    var x7 := x6 + Le(h.numImages, 1);
    var x8 := x7 + Le(h.sigBlkOffset, 2);
    assert s[..16] == x8 + Le(h.reserved, 2);
    LastField(s, x8, Le(h.reserved, 2));
    LastField(s, x7, Le(h.sigBlkOffset, 2));
    LastField(s, x6, Le(h.numImages, 1));
    LastField(s, x5, Le(h.fuseVersion, 1));
    LastField(s, x4, Le(h.swVersion, 2));
    LastField(s, x3, Le(h.flags, 4));
    LastField(s, x2, Le(h.tag, 1));
    LastField(s, x1, Le(h.length, 2));
    LastField(s, [], x1);
  }

  lemma {:induction false} DecodeEncodeHeader(h: FixedHeader)
    requires h.Valid()
    ensures DecodeHeader(EncodeHeader(h)) == h
  {
    EncodeHeaderFields(h);
    FromLeLe(h.version, 1);
    FromLeLe(h.length, 2);
    FromLeLe(h.tag, 1);
    FromLeLe(h.flags, 4);
    FromLeLe(h.swVersion, 2);
    FromLeLe(h.fuseVersion, 1);
    FromLeLe(h.numImages, 1);
    FromLeLe(h.sigBlkOffset, 2);
    FromLeLe(h.reserved, 2);
  }

  lemma {:induction false} EncodeDecodeHeader(s: seq<Byte>)
    requires |s| == HeaderImgArrayOffset
    ensures EncodeHeader(DecodeHeader(s)) == s
  {
    var h := DecodeHeader(s);
    var e := EncodeHeader(h);
    EncodeHeaderFields(h);
    LeFromLe(s[0..1]);
    LeFromLe(s[1..3]);
    LeFromLe(s[3..4]);
    LeFromLe(s[4..8]);
    LeFromLe(s[8..10]);
    LeFromLe(s[10..11]);
    LeFromLe(s[11..12]);
    LeFromLe(s[12..14]);
    LeFromLe(s[14..16]);
    SameOn(e, s, 0, 1);
    SameOn(e, s, 1, 3);
    SameOn(e, s, 3, 4);
    SameOn(e, s, 4, 8);
    SameOn(e, s, 8, 10);
    SameOn(e, s, 10, 11);
    SameOn(e, s, 11, 12);
    SameOn(e, s, 12, 14);
    SameOn(e, s, 14, 16);
  }

  /** Every container of cs is well formed. */
  predicate AllValid(cs: seq<FlashHeader>)
    decreases |cs|
  {
    cs == [] || (cs[0].Valid() && AllValid(cs[1..]))
  }

  /** Both containers of the header are well formed. */
  predicate HeadersValid(fhdr: seq<FlashHeader>)
    ensures HeadersValid(fhdr) ==> |fhdr| == MaxNumOfContainer
  {
    if |fhdr| == MaxNumOfContainer && AllValid(fhdr) then
      AllValidAt(fhdr, 0);
      AllValidAt(fhdr, 1);
      true
    else
      false
  }

  lemma {:induction false} AllValidAt(cs: seq<FlashHeader>, ci: nat)
    requires AllValid(cs) && ci < |cs|
    ensures cs[ci].Valid()
    decreases |cs|
  {
    if ci > 0 {
      AllValidAt(cs[1..], ci - 1);
    }
  }

  lemma {:induction false} AllValidUpdate(cs: seq<FlashHeader>, ci: nat, c: FlashHeader)
    requires AllValid(cs) && ci < |cs| && c.Valid()
    ensures AllValid(cs[ci := c])
    decreases |cs|
  {
    if ci > 0 {
      AllValidUpdate(cs[1..], ci - 1, c);
      assert cs[ci := c][1..] == cs[1..][ci - 1 := c];
    } else {
      assert cs[ci := c][1..] == cs[1..];
    }
  }

  lemma HeaderValid(fhdr: seq<FlashHeader>, ci: nat)
    requires HeadersValid(fhdr) && ci < MaxNumOfContainer
    ensures fhdr[ci].Valid()
  {
    AllValidAt(fhdr, ci);
  }

  /** Container ci of a well-formed header, which is itself well formed. */
  function Header(fhdr: seq<FlashHeader>, ci: nat): (c: FlashHeader)
    requires HeadersValid(fhdr) && ci < MaxNumOfContainer
    ensures c == fhdr[ci] && c.Valid()
  {
    HeaderValid(fhdr, ci);
    fhdr[ci]
  }

  /** As HeadersUpdate, with the new container's well-formedness given as AllValid([c]). */
  lemma HeadersPut(fhdr: seq<FlashHeader>, ci: nat, c: FlashHeader)
    requires HeadersValid(fhdr) && ci < MaxNumOfContainer && AllValid([c])
    ensures HeadersValid(fhdr[ci := c])
  {
    AllValidAt([c], 0);
    HeadersUpdate(fhdr, ci, c);
  }

  /** Replacing one container by a well-formed one keeps the header well formed. */
  lemma HeadersUpdate(fhdr: seq<FlashHeader>, ci: nat, c: FlashHeader)
    requires HeadersValid(fhdr) && ci < MaxNumOfContainer && c.Valid()
    ensures HeadersValid(fhdr[ci := c])
  {
    AllValidUpdate(fhdr, ci, c);
  }

  // ---------------------------------------------------------------- set_imx_hdr_v3, set_container

  /** set_imx_hdr_v3: stamps the B0 tag and version; nothing else changes. */
  function StampHeader(c: FlashHeader): (r: FlashHeader)
    ensures c.Valid() ==> r.Valid()
    ensures r.hdr.tag == IvtHeaderTagB0 && r.hdr.version == IvtVersionB0
    ensures r.hdr.(tag := c.hdr.tag, version := c.hdr.version) == c.hdr
    ensures r.img == c.img && r.sigblk == c.sigblk && r.padding == c.padding
  {
    c.(hdr := c.hdr.(tag := IvtHeaderTagB0, version := IvtVersionB0))
  }

  /**
   * set_container: software version, padding quantum and fuse version; the u32 arguments
   * are truncated to the u16 and u8 header fields.
   */
  function SetContainer(c: FlashHeader, swVersion: nat, alignment: nat, fuseVersion: nat): (r: FlashHeader)
    requires c.Valid() && alignment < U32
    ensures r.Valid()
    ensures r.hdr.swVersion == swVersion % U16 && r.padding == alignment
    ensures r.hdr.fuseVersion == fuseVersion % U8
    ensures r.hdr.(swVersion := c.hdr.swVersion, fuseVersion := c.hdr.fuseVersion) == c.hdr
    ensures r.img == c.img && r.sigblk == c.sigblk
  {
    c.(hdr := c.hdr.(swVersion := swVersion % U16, fuseVersion := fuseVersion % U8),
       padding := alignment)
  }

  // ---------------------------------------------------------------- set_image_array_entry

  /** How many slots a directive of this kind fills: SCFW brings its DCD entry along. */
  function EntriesFor(kind: OptionType): nat {
    if kind == Scfw then 2 else 1
  }

  /**
   * What set_image_array_entry needs of its caller; neither it nor read_dcd_offset checks
   * any of it.
   */
  predicate CanSetImage(c: FlashHeader, kind: OptionType, offset: nat, size: nat, entry: nat,
                        file: seq<Byte>, imagePadding: nat)
  {
    && c.Valid() && c.hdr.numImages + EntriesFor(kind) <= MaxNumImgs
    && offset < U32 && size < U32 && entry < U64
    && (kind == Scfw ==>
          |file| >= DcdEntryAddrInScfw + 4 && imagePadding > 0
          && Align(offset + size, imagePadding) < U32)
  }

  /**
   * set_image_array_entry on a container value: fills slot numImages (and, for SCFW, the
   * synthetic DCD entry in the next slot) and counts them. The digest of the image file and
   * that of the empty file (/dev/null) come from the hasher. The dst argument is ignored.
   */
  function SetImageArrayEntry(c: FlashHeader, kind: OptionType, offset: nat, size: nat,
                              dst: nat, entry: nat, file: seq<Byte>, imagePadding: nat,
                              hasher: Hasher): (r: Result<FlashHeader, Error>)
    requires CanSetImage(c, kind, offset, size, entry, file, imagePadding)
    ensures r.Failure? <==> !IsImageKind(kind)
    ensures r.Failure? ==> r.error == UnrecognizedImageType(kind)
    ensures r.Success? ==> var n, d := c.hdr.numImages, r.value;
      && d.Valid()
      && d.hdr == c.hdr.(numImages := n + EntriesFor(kind))
      && d.sigblk == c.sigblk && d.padding == c.padding
      && (forall j :: 0 <= j < MaxNumImgs && !(n <= j < n + EntriesFor(kind)) ==> d.img[j] == c.img[j])
      && d.img[n] == FillEntry(c.img[n], kind, offset, size, entry, hasher(ImageHashAlgoDefault, file))
      && (kind == Scfw ==>
            d.img[n + 1] == DcdCompanion(c.img[n + 1], offset, size, imagePadding, file,
                                         hasher(ImageHashAlgoDefault, [])))
  {
    if !IsImageKind(kind) then Failure(UnrecognizedImageType(kind))
    else
      var n := c.hdr.numImages;
      var first := FillEntry(c.img[n], kind, offset, size, entry, hasher(ImageHashAlgoDefault, file));
      var img :=
        if kind == Scfw then
          c.img[n := first][n + 1 := DcdCompanion(c.img[n + 1], offset, size, imagePadding, file,
                                                  hasher(ImageHashAlgoDefault, []))]
        else c.img[n := first];
      Success(c.(hdr := c.hdr.(numImages := n + EntriesFor(kind)), img := img))
  }

  /** A slot nobody has written yet. */
  predicate FreeFrom(c: FlashHeader, from: nat) {
    |c.img| == MaxNumImgs && forall j :: from <= j < MaxNumImgs ==> c.img[j] == ZeroImage()
  }

  /**
   * An SCFW directive on fresh slots yields two consecutive entries: the firmware, bound to
   * the SCU and loaded at 0x1ffe0000, then a DCD entry whose offset is the end of the firmware
   * rounded up to the image padding and whose entry is the address stored at byte 0x240 of
   * the firmware, with destination one below it; both with the SHA-384 selector.
   */
  lemma {:induction false} ScfwTwoEntries(c: FlashHeader, offset: nat, size: nat, dst: nat, entry: nat,
                       file: seq<Byte>, imagePadding: nat, hasher: Hasher)
    requires CanSetImage(c, Scfw, offset, size, entry, file, imagePadding)
    requires FreeFrom(c, c.hdr.numImages)
    ensures c.hdr.numImages + 2 <= MaxNumImgs
    ensures var r := SetImageArrayEntry(c, Scfw, offset, size, dst, entry, file, imagePadding, hasher);
      r.Success? && r.value.Valid() && r.value.hdr.numImages == c.hdr.numImages + 2
    ensures var fw := SetImageArrayEntry(c, Scfw, offset, size, dst, entry, file, imagePadding, hasher)
                        .value.img[c.hdr.numImages];
      && fw.offset == offset && fw.size == size
      && fw.dst == ScfwLoadAddr && fw.entry == ScfwLoadAddr
      && ImgTypeField(fw.habFlags) == ImgTypeExec
      && CoreField(fw.habFlags) == CoreSc
      && HashTypeOf(fw.habFlags) == ImageHashAlgoDefault
    ensures var dcd := SetImageArrayEntry(c, Scfw, offset, size, dst, entry, file, imagePadding, hasher)
                         .value.img[c.hdr.numImages + 1];
      && dcd.offset == Align(offset + size, imagePadding) && dcd.size == 0
      && dcd.entry == ReadDcdOffset(file) && dcd.dst == Dec64(dcd.entry)
      && ImgTypeField(dcd.habFlags) == ImgTypeDcdDdr
      && CoreField(dcd.habFlags) == CoreSc
      && HashTypeOf(dcd.habFlags) == ImageHashAlgoDefault
  {
    var n := c.hdr.numImages;
    assert c.img[n] == ZeroImage() && c.img[n + 1] == ZeroImage();
    assert c.img[n].habFlags == 0 && c.img[n + 1].habFlags == 0;
    EntryFlagsDecode(Scfw);
    EntryFlagsDecode(Dcd);
  }

  /**
   * The per-type table for a directive other than SCFW on a fresh slot: one entry, whose
   * flags decode to the kind's image type and core and to SHA-384, with addresses and
   * metadata as the kind prescribes.
   */
  lemma {:induction false} SingleEntryTable(c: FlashHeader, kind: OptionType, offset: nat, size: nat, dst: nat,
                         entry: nat, file: seq<Byte>, imagePadding: nat, hasher: Hasher)
    requires IsImageKind(kind) && kind != Scfw
    requires CanSetImage(c, kind, offset, size, entry, file, imagePadding)
    requires FreeFrom(c, c.hdr.numImages)
    ensures var r := SetImageArrayEntry(c, kind, offset, size, dst, entry, file, imagePadding, hasher);
      var n := c.hdr.numImages;
      && r.Success? && r.value.hdr.numImages == n + 1
      && var m := r.value.img[n];
      && m.offset == offset && m.size == size
      && ImgTypeField(m.habFlags) == ImgTypeOf(kind)
      && CoreField(m.habFlags) == CoreOf(kind)
      && HashTypeOf(m.habFlags) == ImageHashAlgoDefault
      && m.dst == (if kind == Dcd then Dec64(entry) else if kind == Seco then 0 else entry)
      && m.entry == (if kind == Seco then 0 else entry)
      && m.meta == (if kind == Ap then ApMeta else 0)
  {
    var n := c.hdr.numImages;
    assert c.img[n] == ZeroImage();
    assert c.img[n].habFlags == 0;
    EntryFlagsDecode(kind);
  }

  // ---------------------------------------------------------------- flattening: pass one

  /** The unaligned length of a container: header, entries in use, signature block. */
  function ContainerLength(c: FlashHeader): nat {
    HeaderImgArrayOffset + ImgArrayEntrySize * c.hdr.numImages + |c.sigblk|
  }

  /** What pass one needs of a container: valid, a positive padding quantum, a u16 length. */
  predicate Sizable(c: FlashHeader) {
    c.Valid() && c.padding > 0 && ContainerLength(c) < U16
  }

  /** Pass one on one container: the signature block offset and the length are computed. */
  function Sized(c: FlashHeader): (r: FlashHeader)
    requires Sizable(c)
    ensures Sizable(r)
    ensures r.hdr.sigBlkOffset == HeaderImgArrayOffset + ImgArrayEntrySize * c.hdr.numImages
    ensures r.hdr.length == r.hdr.sigBlkOffset + |c.sigblk| == ContainerLength(c)
    ensures r.hdr.(sigBlkOffset := c.hdr.sigBlkOffset, length := c.hdr.length) == c.hdr
    ensures r.img == c.img && r.sigblk == c.sigblk && r.padding == c.padding
  {
    var sig := HeaderImgArrayOffset + c.hdr.numImages * ImgArrayEntrySize;
    c.(hdr := c.hdr.(sigBlkOffset := sig, length := sig + |c.sigblk|))
  }

  /** The space a container takes in the flattened region. */
  function AlignedLength(c: FlashHeader): (n: nat)
    requires Sizable(c)
    ensures n % c.padding == 0 && ContainerLength(c) <= n < ContainerLength(c) + c.padding
  {
    Align(ContainerLength(c), c.padding)
  }

  /** The first n containers can be sized. */
  predicate SizableUpTo(cs: seq<FlashHeader>, n: nat)
    decreases n
  {
    n <= |cs| && (n > 0 ==> SizableUpTo(cs, n - 1) && Sizable(cs[n - 1]))
  }

  lemma {:induction false} SizableUpToAt(cs: seq<FlashHeader>, n: nat, i: nat)
    requires SizableUpTo(cs, n) && i <= n
    ensures SizableUpTo(cs, i) && (i < n ==> Sizable(cs[i]))
    decreases n
  {
    if i < n - 1 {
      SizableUpToAt(cs, n - 1, i);
    }
  }

  /** Where container i starts in the flattened region: the aligned lengths before it. */
  function Start(cs: seq<FlashHeader>, i: nat): nat
    requires SizableUpTo(cs, i)
  {
    if i == 0 then 0 else Start(cs, i - 1) + AlignedLength(cs[i - 1])
  }

  lemma {:induction false} StartMono(cs: seq<FlashHeader>, i: nat, j: nat)
    requires SizableUpTo(cs, j) && i <= j
    ensures SizableUpTo(cs, i) && Start(cs, i) <= Start(cs, j)
    decreases j
  {
    if i < j {
      StartMono(cs, i, j - 1);
    }
  }

  /**
   * The size pass one computes is the sum of the aligned lengths; every container starts at
   * a multiple of its own padding quantum when all quanta divide one another in order.
   */
  lemma {:induction false} StartAligned(cs: seq<FlashHeader>, i: nat, q: nat)
    requires SizableUpTo(cs, i) && q > 0
    requires forall k :: 0 <= k < i ==> cs[k].padding % q == 0
    ensures Start(cs, i) % q == 0
  {
    if i > 0 {
      StartAligned(cs, i - 1, q);
      var k := i - 1;
      var a := AlignedLength(cs[k]);
      assert a % cs[k].padding == 0 && cs[k].padding % q == 0;
      ModTransitive(a, cs[k].padding, q);
      ModAdd(Start(cs, k), a, q);
    }
  }

  // ---------------------------------------------------------------- flattening: pass two

  /** The image offsets in use are at least base, so rebasing does not underflow. */
  predicate OffsetsFrom(c: FlashHeader, base: nat) {
    c.Valid() && forall j :: 0 <= j < c.hdr.numImages ==> c.img[j].offset >= base
  }

  /** The first k entries of imgs with their offsets made relative to base. */
  function RebaseImages(imgs: seq<BootImage>, k: nat, base: nat): (r: seq<BootImage>)
    requires k <= |imgs| && forall j :: 0 <= j < k ==> imgs[j].offset >= base
    ensures |r| == |imgs|
    decreases k
  {
    if k == 0 then imgs
    else
      var m := imgs[k - 1];
      RebaseImages(imgs, k - 1, base)[k - 1 := m.(offset := m.offset - base)]
  }

  /** Entry j after rebasing: moved down by base if it is one of the first k, else unchanged. */
  lemma {:induction false} RebaseImagesAt(imgs: seq<BootImage>, k: nat, base: nat, j: nat)
    requires k <= |imgs| && forall j :: 0 <= j < k ==> imgs[j].offset >= base
    requires j < |imgs|
    ensures RebaseImages(imgs, k, base)[j]
            == if j < k then imgs[j].(offset := imgs[j].offset - base) else imgs[j]
    decreases k
  {
    if k > 0 && j != k - 1 {
      RebaseImagesAt(imgs, k - 1, base, j);
    }
  }

  lemma RebasedValid(c: FlashHeader, base: nat)
    requires OffsetsFrom(c, base)
    ensures c.(img := RebaseImages(c.img, c.hdr.numImages, base)).Valid()
  {
    RebasedSlotValid(c, base, 0);
    RebasedSlotValid(c, base, 1);
    RebasedSlotValid(c, base, 2);
    RebasedSlotValid(c, base, 3);
    RebasedSlotValid(c, base, 4);
    RebasedSlotValid(c, base, 5);
  }

  lemma RebasedSlotValid(c: FlashHeader, base: nat, j: nat)
    requires OffsetsFrom(c, base) && j < MaxNumImgs
    ensures RebaseImages(c.img, c.hdr.numImages, base)[j].Valid()
  {
    SlotValid(c, j);
    RebaseImagesAt(c.img, c.hdr.numImages, base, j);
  }

  /** Each image offset in use made relative to base (u32 subtraction, no underflow). */
  function Rebased(c: FlashHeader, base: nat): (r: FlashHeader)
    requires OffsetsFrom(c, base)
    ensures r.Valid() && r.hdr == c.hdr && r.sigblk == c.sigblk && r.padding == c.padding
  {
    RebasedValid(c, base);
    c.(img := RebaseImages(c.img, c.hdr.numImages, base))
  }

  /**
   * Rebasing moves each entry in use down by base and leaves the rest of the container as
   * it was.
   */
  lemma RebasedAt(c: FlashHeader, base: nat, j: nat)
    requires OffsetsFrom(c, base) && j < MaxNumImgs
    ensures Rebased(c, base).img[j]
            == if j < c.hdr.numImages then c.img[j].(offset := c.img[j].offset - base) else c.img[j]
  {
    RebaseImagesAt(c.img, c.hdr.numImages, base, j);
  }

  /** The entries of a container, one 128-byte record after the other. */
  function EncodeImages(imgs: seq<BootImage>): (r: seq<Byte>)
    requires forall j :: 0 <= j < |imgs| ==> imgs[j].Valid()
    ensures |r| == ImgArrayEntrySize * |imgs|
  {
    if imgs == [] then []
    else EncodeImages(imgs[..|imgs| - 1]) + EncodeImage(imgs[|imgs| - 1])
  }

  lemma {:induction false} EncodeImagesAt(imgs: seq<BootImage>, j: nat)
    requires forall k :: 0 <= k < |imgs| ==> imgs[k].Valid()
    requires j < |imgs|
    ensures EncodeImages(imgs)[ImgArrayEntrySize * j .. ImgArrayEntrySize * (j + 1)]
            == EncodeImage(imgs[j])
  {
    var p, last := imgs[..|imgs| - 1], imgs[|imgs| - 1];
    var a, b := EncodeImages(p), EncodeImage(last);
    var e := EncodeImages(imgs);
    assert e == a + b;
    if j < |p| {
      EncodeImagesAt(p, j);
      SliceLeft(e, a, b, ImgArrayEntrySize * j, ImgArrayEntrySize * (j + 1));
    } else {
      assert e[..|a| + |b|] == a + b;
      LastField(e, a, b);
    }
  }

  /**
   * One serialized container: its header, its entries in use, its signature block verbatim,
   * then zero bytes up to its aligned length.
   */
  function Serialize(c: FlashHeader): (r: seq<Byte>)
    requires c.Valid() && c.padding > 0 && c.hdr.length == ContainerLength(c)
    ensures |r| == Align(c.hdr.length, c.padding)
  {
    EncodeHeader(c.hdr) + EncodeImages(c.img[..c.hdr.numImages]) + c.sigblk
    + Zeros(Align(c.hdr.length, c.padding) - c.hdr.length)
  }

  /**
   * What flattening the first n containers needs: each can be sized, and each image offset
   * in use is at or past the position of its container in the file.
   */
  predicate Layable(cs: seq<FlashHeader>, fileOffset: nat, n: nat)
    decreases n
  {
    && SizableUpTo(cs, n)
    && (n > 0 ==> Layable(cs, fileOffset, n - 1)
                  && OffsetsFrom(cs[n - 1], Start(cs, n - 1) + fileOffset))
  }

  lemma {:induction false} LayableAt(cs: seq<FlashHeader>, fileOffset: nat, n: nat, i: nat)
    requires Layable(cs, fileOffset, n) && i < n
    ensures Layable(cs, fileOffset, i + 1)
    ensures OffsetsFrom(cs[i], Start(cs, i) + fileOffset)
    decreases n
  {
    if i < n - 1 {
      LayableAt(cs, fileOffset, n - 1, i);
    }
  }

  /** The container emitted for cs[i]: sized, then rebased to its position in the file. */
  function Emitted(cs: seq<FlashHeader>, fileOffset: nat, i: nat): (c: FlashHeader)
    requires Layable(cs, fileOffset, i + 1)
    ensures c.Valid() && c.padding > 0 && c.hdr.length == ContainerLength(c)
    ensures |Serialize(c)| == AlignedLength(cs[i])
  {
    Rebased(Sized(cs[i]), Start(cs, i) + fileOffset)
  }

  /** Entry j of an emitted container is the caller's entry with its offset made relative. */
  lemma {:induction false} EmittedImage(cs: seq<FlashHeader>, fileOffset: nat, i: nat, j: nat)
    requires Layable(cs, fileOffset, i + 1) && j < cs[i].hdr.numImages
    ensures cs[i].img[j].offset >= Start(cs, i) + fileOffset
    ensures Emitted(cs, fileOffset, i).img[j]
            == cs[i].img[j].(offset := cs[i].img[j].offset - (Start(cs, i) + fileOffset))
  {
    RebasedAt(Sized(cs[i]), Start(cs, i) + fileOffset, j);
  }

  /**
   * The flattened header region for the first n containers, written at fileOffset in the
   * file: the emitted containers one after the other, each filling the space pass one
   * reserved for it.
   */
  function Flat(cs: seq<FlashHeader>, fileOffset: nat, n: nat): (r: seq<Byte>)
    requires Layable(cs, fileOffset, n)
    ensures |r| == Start(cs, n)
    decreases n
  {
    if n == 0 then []
    else Flat(cs, fileOffset, n - 1) + Serialize(Emitted(cs, fileOffset, n - 1))
  }

  // ---------------------------------------------------------------- layout of the flattened region

  lemma {:induction false} SliceLeft(f: seq<Byte>, a: seq<Byte>, b: seq<Byte>, x: nat, y: nat)
    requires f == a + b && x <= y <= |a|
    ensures f[x..y] == a[x..y]
  {
  }

  lemma {:induction false} SubSlice(f: seq<Byte>, w: seq<Byte>, st: nat, len: nat, lo: nat, hi: nat)
    requires st + len <= |f| && lo <= hi <= len && w == f[st .. st + len]
    ensures f[st + lo .. st + hi] == w[lo..hi]
  {
    forall k | 0 <= k < hi - lo ensures f[st + lo .. st + hi][k] == w[lo..hi][k] {
      assert w[lo + k] == f[st + lo + k];
    }
  }

  /** The serialization of container c lies at st in f. */
  predicate SerializedAt(f: seq<Byte>, st: nat, c: FlashHeader) {
    && c.Valid() && c.padding > 0 && c.hdr.length == ContainerLength(c)
    && st + |Serialize(c)| <= |f| && f[st .. st + |Serialize(c)|] == Serialize(c)
  }

  lemma {:induction false} SerializedAtPrefix(f: seq<Byte>, g: seq<Byte>, st: nat, c: FlashHeader)
    requires g <= f && SerializedAt(g, st, c)
    ensures SerializedAt(f, st, c)
  {
    SliceLeft(f, g, f[|g|..], st, st + |Serialize(c)|);
  }

  lemma {:induction false} SerializedAtEnd(g: seq<Byte>, st: nat, c: FlashHeader)
    requires c.Valid() && c.padding > 0 && c.hdr.length == ContainerLength(c) && st == |g|
    ensures SerializedAt(g + Serialize(c), st, c)
  {
  }

  /** The region for i + 1 containers is the region for i followed by container i. */
  lemma {:induction false} FlatSnoc(cs: seq<FlashHeader>, fileOffset: nat, n: nat, i: nat)
    requires Layable(cs, fileOffset, n) && i + 1 == n
    ensures Layable(cs, fileOffset, i)
    ensures Flat(cs, fileOffset, n) == Flat(cs, fileOffset, i) + Serialize(Emitted(cs, fileOffset, i))
  {
  }

  /** Container i, as emitted, is exactly as long as the space pass one reserved for it. */
  lemma {:induction false} EmittedSpan(cs: seq<FlashHeader>, fileOffset: nat, n: nat, i: nat)
    requires Layable(cs, fileOffset, n) && i < n
    ensures Layable(cs, fileOffset, i + 1) && SizableUpTo(cs, i)
    ensures Start(cs, i) + |Serialize(Emitted(cs, fileOffset, i))| == Start(cs, i + 1)
  {
    LayableAt(cs, fileOffset, n, i);
  }

  /** The last of n = m + 1 containers lies at the end of their region. */
  lemma {:induction false} FlatLast(cs: seq<FlashHeader>, fileOffset: nat, n: nat, m: nat)
    requires n == m + 1 && Layable(cs, fileOffset, n)
    ensures SerializedAt(Flat(cs, fileOffset, n), Start(cs, m), Emitted(cs, fileOffset, m))
  {
    FlatSnoc(cs, fileOffset, n, m);
    SerializedAtEnd(Flat(cs, fileOffset, m), Start(cs, m), Emitted(cs, fileOffset, m));
  }

  /** The region for m containers is a prefix of the region for any n >= m. */
  lemma {:induction false} FlatPrefix(cs: seq<FlashHeader>, fileOffset: nat, n: nat, m: nat)
    requires Layable(cs, fileOffset, n) && Layable(cs, fileOffset, m) && m <= n
    ensures Flat(cs, fileOffset, m) <= Flat(cs, fileOffset, n)
    decreases n
  {
    if m < n {
      FlatSnoc(cs, fileOffset, n, n - 1);
      FlatPrefix(cs, fileOffset, n - 1, m);
    }
  }

  /** Container i lies at its start in the region for any n containers past it. */
  lemma {:induction false} FlatIn(cs: seq<FlashHeader>, fileOffset: nat, n: nat, i: nat)
    requires Layable(cs, fileOffset, n) && Layable(cs, fileOffset, i + 1) && i < n
    ensures SerializedAt(Flat(cs, fileOffset, n), Start(cs, i), Emitted(cs, fileOffset, i))
  {
    FlatLast(cs, fileOffset, i + 1, i);
    FlatPrefix(cs, fileOffset, n, i + 1);
    SerializedAtPrefix(Flat(cs, fileOffset, n), Flat(cs, fileOffset, i + 1), Start(cs, i), Emitted(cs, fileOffset, i));
  }

  /** Container i, as emitted, occupies [Start(cs, i), Start(cs, i + 1)) of the region. */
  lemma {:induction false} FlatAt(cs: seq<FlashHeader>, fileOffset: nat, n: nat, i: nat)
    requires Layable(cs, fileOffset, n) && i < n
    ensures Layable(cs, fileOffset, i + 1)
    ensures SerializedAt(Flat(cs, fileOffset, n), Start(cs, i), Emitted(cs, fileOffset, i))
    ensures Start(cs, i) + |Serialize(Emitted(cs, fileOffset, i))| == Start(cs, i + 1)
  {
    EmittedSpan(cs, fileOffset, n, i);
    FlatIn(cs, fileOffset, n, i);
  }

  /** Each of four concatenated pieces lies at the offset the pieces before it add up to. */
  lemma {:induction false} Pieces(a: seq<Byte>, b: seq<Byte>, c: seq<Byte>, d: seq<Byte>)
    ensures var s := a + b + c + d;
      && s[..|a|] == a
      && s[|a| .. |a| + |b|] == b
      && s[|a| + |b| .. |a| + |b| + |c|] == c
      && s[|a| + |b| + |c| ..] == d
  {
  }

  /** A serialized container starts with its 16-byte header. */
  lemma {:induction false} SerializeHeader(c: FlashHeader)
    requires c.Valid() && c.padding > 0 && c.hdr.length == ContainerLength(c)
    ensures Serialize(c)[0 .. HeaderImgArrayOffset] == EncodeHeader(c.hdr)
  {
    var imgs := c.img[..c.hdr.numImages];
    Pieces(EncodeHeader(c.hdr), EncodeImages(imgs), c.sigblk,
           Zeros(Align(c.hdr.length, c.padding) - c.hdr.length));
    assert Serialize(c)[0 .. HeaderImgArrayOffset] == Serialize(c)[..HeaderImgArrayOffset];
  }

  /** Entry j in use of a serialized container follows the header and the entries before it. */
  lemma {:induction false} SerializeImage(c: FlashHeader, j: nat)
    requires c.Valid() && c.padding > 0 && c.hdr.length == ContainerLength(c)
    requires j < c.hdr.numImages
    ensures Serialize(c)[HeaderImgArrayOffset + ImgArrayEntrySize * j
                         .. HeaderImgArrayOffset + ImgArrayEntrySize * (j + 1)]
            == EncodeImage(c.img[j])
  {
    var imgs := c.img[..c.hdr.numImages];
    var e := EncodeImages(imgs);
    var r := Serialize(c);
    Pieces(EncodeHeader(c.hdr), e, c.sigblk, Zeros(Align(c.hdr.length, c.padding) - c.hdr.length));
    EncodeImagesAt(imgs, j);
    SubSlice(r, e, HeaderImgArrayOffset, |e|, ImgArrayEntrySize * j, ImgArrayEntrySize * (j + 1));
  }

  /** After the entries in use comes the signature block, then zeros to the aligned length. */
  lemma {:induction false} SerializeSignature(c: FlashHeader)
    requires c.Valid() && c.padding > 0 && c.hdr.length == ContainerLength(c)
    ensures Serialize(c)[HeaderImgArrayOffset + ImgArrayEntrySize * c.hdr.numImages .. c.hdr.length]
            == c.sigblk
    ensures forall k :: c.hdr.length <= k < |Serialize(c)| ==> Serialize(c)[k] == 0
  {
    var imgs := c.img[..c.hdr.numImages];
    var z := Zeros(Align(c.hdr.length, c.padding) - c.hdr.length);
    var r := Serialize(c);
    Pieces(EncodeHeader(c.hdr), EncodeImages(imgs), c.sigblk, z);
    forall k | c.hdr.length <= k < |r| ensures r[k] == 0 {
      assert r[k] == r[c.hdr.length..][k - c.hdr.length];
    }
  }

  /** A serialized container found at st in f: what its header reads back as. */
  lemma {:induction false} ReadHeader(f: seq<Byte>, st: nat, c: FlashHeader)
    requires SerializedAt(f, st, c)
    ensures DecodeHeader(f[st .. st + HeaderImgArrayOffset]) == c.hdr
  {
    var r := Serialize(c);
    SerializeHeader(c);
    SubSlice(f, r, st, |r|, 0, HeaderImgArrayOffset);
    DecodeEncodeHeader(c.hdr);
  }

  /** A serialized container found at st in f: what its entry j reads back as. */
  lemma {:induction false} ReadImage(f: seq<Byte>, st: nat, c: FlashHeader, j: nat)
    requires SerializedAt(f, st, c)
    requires j < c.hdr.numImages
    ensures st + (HeaderImgArrayOffset + ImgArrayEntrySize * (j + 1)) <= |f|
    ensures DecodeImage(f[st + (HeaderImgArrayOffset + ImgArrayEntrySize * j)
                          .. st + (HeaderImgArrayOffset + ImgArrayEntrySize * (j + 1))])
            == c.img[j]
  {
    var r := Serialize(c);
    SerializeImage(c, j);
    SubSlice(f, r, st, |r|, HeaderImgArrayOffset + ImgArrayEntrySize * j,
             HeaderImgArrayOffset + ImgArrayEntrySize * (j + 1));
    DecodeEncodeImage(c.img[j]);
  }

  /** A serialized container found at st in f: its signature block and the zeros after it. */
  lemma {:induction false} ReadSignature(f: seq<Byte>, st: nat, c: FlashHeader)
    requires SerializedAt(f, st, c)
    ensures f[st + (HeaderImgArrayOffset + ImgArrayEntrySize * c.hdr.numImages) .. st + c.hdr.length]
            == c.sigblk
    ensures forall k :: st + c.hdr.length <= k < st + |Serialize(c)| ==> f[k] == 0
  {
    var r := Serialize(c);
    SerializeSignature(c);
    SubSlice(f, r, st, |r|, HeaderImgArrayOffset + ImgArrayEntrySize * c.hdr.numImages, c.hdr.length);
    forall k | st + c.hdr.length <= k < st + |r| ensures f[k] == 0 {
      assert f[k] == r[k - st];
    }
  }

}


