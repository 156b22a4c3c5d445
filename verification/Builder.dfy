/**
 * The builder's working state, imx_header_v3_t, as an object whose operations change it in
 * place: the stamping and setup of the two container headers, set_image_hash and
 * set_image_array_entry on an image slot, the two passes of flatten_container_header into a
 * zero-initialised buffer, and the first directive loop of build_container_qx_b0. Each
 * operation is proved to leave the state that the value-level definitions of the other
 * modules describe.
 */
module Builder {
  import opened LittleEndian
  import opened Wrappers
  import opened Alignment
  import opened ImageEntry
  import opened Container
  import opened Directives

  /** A container with slot j replaced. */
  function WithSlot(c: FlashHeader, j: nat, m: BootImage): (r: FlashHeader)
    requires c.Valid() && j < MaxNumImgs && m.Valid()
    ensures r.Valid() && r.hdr == c.hdr && r.sigblk == c.sigblk && r.padding == c.padding
    ensures r.img == c.img[j := m]
  {
    var r := c.(img := c.img[j := m]);
    assert r.img[j] == m;
    SlotsValid(c);
    r
  }

  /** A container with num_images set to k. */
  function WithCount(c: FlashHeader, k: nat): (r: FlashHeader)
    requires c.Valid() && k <= MaxNumImgs
    ensures r.Valid() && r.hdr == c.hdr.(numImages := k)
    ensures r.img == c.img && r.sigblk == c.sigblk && r.padding == c.padding
  {
    c.(hdr := c.hdr.(numImages := k))
  }

  /**
   * The state set_image_array_entry reaches step by step (slot n filled and counted; for
   * SCFW, counted, the next slot filled, counted again) is the value SetImageArrayEntry
   * describes.
   */
  lemma SetImageArraySteps(c: FlashHeader, kind: OptionType, offset: nat, size: nat, dst: nat,
                           entry: nat, file: seq<Byte>, imagePadding: nat, hasher: Hasher)
    requires CanSetImage(c, kind, offset, size, entry, file, imagePadding) && IsImageKind(kind)
    ensures var n := c.hdr.numImages;
      var w := WithSlot(c, n, FillEntry(c.img[n], kind, offset, size, entry, hasher(ImageHashAlgoDefault, file)));
      var r := Container.SetImageArrayEntry(c, kind, offset, size, dst, entry, file, imagePadding, hasher).value;
      && (kind != Scfw ==> r == WithCount(w, n + 1))
      && (kind == Scfw ==>
            r == WithCount(WithSlot(WithCount(w, n + 1), n + 1,
                                    DcdCompanion(w.img[n + 1], offset, size, imagePadding, file,
                                                 hasher(ImageHashAlgoDefault, []))), n + 2))
  {
    var n := c.hdr.numImages;
    var first := FillEntry(c.img[n], kind, offset, size, entry, hasher(ImageHashAlgoDefault, file));
    var w := WithSlot(c, n, first);
    var r := Container.SetImageArrayEntry(c, kind, offset, size, dst, entry, file, imagePadding, hasher).value;
    if kind == Scfw {
      assert w.img[n + 1] == c.img[n + 1];
      var d := DcdCompanion(c.img[n + 1], offset, size, imagePadding, file, hasher(ImageHashAlgoDefault, []));
      assert r.img == c.img[n := first][n + 1 := d];
    } else {
      assert r.img == c.img[n := first];
    }
  }

  /** Writing a slot twice keeps the second value. */
  lemma WithSlotTwice(c: FlashHeader, j: nat, a: BootImage, b: BootImage)
    requires c.Valid() && j < MaxNumImgs && a.Valid() && b.Valid()
    ensures WithSlot(WithSlot(c, j, a), j, b) == WithSlot(c, j, b)
  {
    assert WithSlot(WithSlot(c, j, a), j, b).img == WithSlot(c, j, b).img;
  }

  lemma UpdateTwice<T>(s: seq<T>, i: nat, x: T, y: T)
    requires i < |s|
    ensures s[i := x][i := y] == s[i := y]
  {
    assert s[i := x][i := y] == s[i := y];
  }

  /** The steps of an accepted case of the switch, then the hash, build FillEntry. */
  lemma FillEntrySteps(m: BootImage, kind: OptionType, offset: nat, size: nat, entry: nat,
                       digest: seq<Byte>)
    requires m.Valid() && IsImageKind(kind) && offset < U32 && size < U32 && entry < U64
    ensures var e := m.(offset := offset, size := size);
      HashedEntry(e.(habFlags := KindFlags(e.habFlags, kind), dst := DstOf(kind, e.dst, entry),
                     entry := EntryOf(kind, e.entry, entry), meta := MetaOf(kind, e.meta)),
                  ImageHashAlgoDefault, digest)
      == FillEntry(m, kind, offset, size, entry, digest)
  {
  }

  /**
   * Writing offset and size into slot num_images before the switch does not change what an
   * accepted kind produces: the fill writes them again.
   */
  lemma EarlyWrite(c: FlashHeader, kind: OptionType, offset: nat, size: nat, dst: nat,
                   entry: nat, file: seq<Byte>, imagePadding: nat, hasher: Hasher)
    requires CanSetImage(c, kind, offset, size, entry, file, imagePadding) && IsImageKind(kind)
    ensures var n := c.hdr.numImages;
      var pre := WithSlot(c, n, c.img[n].(offset := offset, size := size));
      && CanSetImage(pre, kind, offset, size, entry, file, imagePadding)
      && Container.SetImageArrayEntry(pre, kind, offset, size, dst, entry, file, imagePadding, hasher)
         == Container.SetImageArrayEntry(c, kind, offset, size, dst, entry, file, imagePadding, hasher)
  {
    var n := c.hdr.numImages;
    SlotValid(c, n);
    var pre := WithSlot(c, n, c.img[n].(offset := offset, size := size));
    var digest := hasher(ImageHashAlgoDefault, file);
    var first := FillEntry(c.img[n], kind, offset, size, entry, digest);
    assert FillEntry(pre.img[n], kind, offset, size, entry, digest) == first;
    assert pre.img[n := first] == c.img[n := first];
    assert pre.(img := c.img) == c;
    if kind == Scfw {
      assert pre.img[n + 1] == c.img[n + 1];
    }
  }

  /** The steps of the SCFW case on the second slot build DcdCompanion. */
  lemma DcdCompanionSteps(m: BootImage, offset: nat, size: nat, imagePadding: nat,
                          scfw: seq<Byte>, emptyDigest: seq<Byte>)
    requires m.Valid() && imagePadding > 0 && |scfw| >= DcdEntryAddrInScfw + 4
    requires Align(offset + size, imagePadding) < U32
    ensures var h := HashedEntry(m.(habFlags := KindFlags(m.habFlags, Dcd)), ImageHashAlgoDefault, emptyDigest);
      h.(offset := Align(offset + size, imagePadding), entry := ReadDcdOffset(scfw),
         dst := Dec64(ReadDcdOffset(scfw)))
      == DcdCompanion(m, offset, size, imagePadding, scfw, emptyDigest)
  {
  }

  /** The containers after i iterations of pass one: the first i sized, the rest as they were. */
  function SizedPrefix(cs: seq<FlashHeader>, i: nat): (r: seq<FlashHeader>)
    requires SizableUpTo(cs, i)
    ensures |r| == |cs|
    decreases i
  {
    if i == 0 then cs else SizedPrefix(cs, i - 1)[i - 1 := Sized(cs[i - 1])]
  }

  lemma {:induction false} SizedPrefixAt(cs: seq<FlashHeader>, i: nat, k: nat)
    requires SizableUpTo(cs, i) && k < |cs|
    ensures k < i ==> Sizable(cs[k])
    ensures SizedPrefix(cs, i)[k] == if k < i then Sized(cs[k]) else cs[k]
    decreases i
  {
    if k < i {
      SizableUpToAt(cs, i, k);
    }
    if i > 0 && k != i - 1 {
      SizedPrefixAt(cs, i - 1, k);
    }
  }

  // ---------------------------------------------------------------- the output buffer

  /** The append macro: memcpy of s at ptr, then the cursor moves past it. */
  method AppendBytes(buf: array<Byte>, ptr: nat, s: seq<Byte>) returns (next: nat)
    requires ptr + |s| <= buf.Length
    modifies buf
    ensures next == ptr + |s|
    ensures buf[..] == old(buf[..])[..ptr] + s + old(buf[..])[ptr + |s|..]
  {
    for k := 0 to |s|
      invariant forall t :: 0 <= t < buf.Length ==>
                  buf[t] == if ptr <= t < ptr + k then s[t - ptr] else old(buf[t])
    {
      buf[ptr + k] := s[k];
    }
    assert buf[..] == old(buf[..])[..ptr] + s + old(buf[..])[ptr + |s|..];
    next := ptr + |s|;
  }

  /** The buffer holds the bytes written so far and zeros (from calloc) after them. */
  predicate Holds(buf: seq<Byte>, written: seq<Byte>) {
    |written| <= |buf| && buf == written + Zeros(|buf| - |written|)
  }

  /** append on a buffer that holds written: it then holds written + s. */
  method AppendAt(buf: array<Byte>, ptr: nat, s: seq<Byte>, ghost written: seq<Byte>)
    returns (next: nat)
    requires Holds(buf[..], written) && |written| == ptr && ptr + |s| <= buf.Length
    modifies buf
    ensures Holds(buf[..], written + s) && next == ptr + |s|
  {
    ghost var before := buf[..];
    next := AppendBytes(buf, ptr, s);
    HoldsAppend(before, written, s);
  }

  /** Appending s to a buffer that holds written leaves it holding written + s. */
  lemma HoldsAppend(buf: seq<Byte>, written: seq<Byte>, s: seq<Byte>)
    requires Holds(buf, written) && |written| + |s| <= |buf|
    ensures Holds(buf[..|written|] + s + buf[|written| + |s|..], written + s)
  {
    var n := |written|;
    assert buf[..n] == written;
    assert buf[n + |s|..] == Zeros(|buf| - n - |s|);
  }

  /** Skipping k bytes of a buffer that holds written leaves k zeros written. */
  lemma HoldsSkip(buf: seq<Byte>, written: seq<Byte>, k: nat)
    requires Holds(buf, written) && |written| + k <= |buf|
    ensures Holds(buf, written + Zeros(k))
  {
    assert buf == written + Zeros(k) + Zeros(|buf| - |written| - k);
  }

  /**
   * Regrouping what a buffer holds. Stated here rather than asserted in the methods that write
   * the region, so that their proof obligations do not carry the sequence-concatenation axioms.
   */
  lemma Regroup(w: seq<Byte>, a: seq<Byte>, e: seq<Byte>)
    ensures (w + a) + e == w + (a + e)
  {}

  lemma Regroup4(w: seq<Byte>, a: seq<Byte>, b: seq<Byte>, c: seq<Byte>, d: seq<Byte>)
    ensures w + a + b + c + d == w + (a + b + c + d)
  {}

  /** The entries up to j + 1 are those up to j followed by entry j. */
  lemma EncodeImagesSnoc(imgs: seq<BootImage>, j: nat)
    requires j < |imgs| && forall k :: 0 <= k < |imgs| ==> imgs[k].Valid()
    ensures EncodeImages(imgs[..j + 1]) == EncodeImages(imgs[..j]) + EncodeImage(imgs[j])
  {
    assert imgs[..j + 1][..j] == imgs[..j];
  }

  /** Container i of a layable header after pass one. */
  function SizedAt(cs: seq<FlashHeader>, fileOffset: nat, i: nat): (c: FlashHeader)
    requires Layable(cs, fileOffset, i + 1)
    ensures Sizable(cs[i]) && c == Sized(cs[i])
  {
    Sized(cs[i])
  }

  /** The bytes pass two writes for container i. */
  function EmittedBytes(cs: seq<FlashHeader>, fileOffset: nat, i: nat): (r: seq<Byte>)
    requires Layable(cs, fileOffset, i + 1)
    ensures |r| == Start(cs, i + 1) - Start(cs, i)
  {
    Serialize(Emitted(cs, fileOffset, i))
  }

  /** Container i, once sized, has its offsets in use at or past its position in the file. */
  lemma SizedOffsets(cs: seq<FlashHeader>, fileOffset: nat, i: nat)
    requires Layable(cs, fileOffset, i + 1)
    ensures OffsetsFrom(SizedAt(cs, fileOffset, i), Start(cs, i) + fileOffset)
  {
    LayableAt(cs, fileOffset, i + 1, i);
  }

  /**
   * What one iteration of pass two relies on: the emitted container keeps the sized
   * container's header, signature block and padding, ends where container i + 1 starts, and
   * its bytes are its header, its entries in use, its signature block and zero padding.
   */
  lemma {:induction false} EmitShape(cs: seq<FlashHeader>, fileOffset: nat, i: nat)
    requires Layable(cs, fileOffset, i + 1)
    ensures var c := SizedAt(cs, fileOffset, i);
      var e := Emitted(cs, fileOffset, i);
      && e.hdr == c.hdr && e.sigblk == c.sigblk && e.padding == c.padding
      && c.hdr.length <= Align(c.hdr.length, c.padding)
      && Start(cs, i) + Align(c.hdr.length, c.padding) == Start(cs, i + 1)
      && EmittedBytes(cs, fileOffset, i)
         == EncodeHeader(e.hdr) + EncodeImages(e.img[..e.hdr.numImages]) + e.sigblk
            + Zeros(Align(c.hdr.length, c.padding) - c.hdr.length)
  {
    LayableAt(cs, fileOffset, i + 1, i);
  }

  /** The region for i + 1 containers is the region for i followed by container i. */
  lemma {:induction false} EmitStep(cs: seq<FlashHeader>, fileOffset: nat, n: nat, i: nat)
    requires Layable(cs, fileOffset, n) && i < n
    ensures Layable(cs, fileOffset, i + 1) && Start(cs, i + 1) <= Start(cs, n)
    ensures Flat(cs, fileOffset, i + 1) == Flat(cs, fileOffset, i) + EmittedBytes(cs, fileOffset, i)
  {
    LayableAt(cs, fileOffset, n, i);
    StartMono(cs, i + 1, n);
    FlatSnoc(cs, fileOffset, i + 1, i);
  }

  /** The containers after i iterations of pass two, from the state pass one left. */
  function EmittedPrefix(cs: seq<FlashHeader>, fileOffset: nat, i: nat, sized: seq<FlashHeader>)
    : (r: seq<FlashHeader>)
    requires Layable(cs, fileOffset, i) && i <= |sized|
    ensures |r| == |sized|
    decreases i
  {
    if i == 0 then sized
    else EmittedPrefix(cs, fileOffset, i - 1, sized)[i - 1 := Emitted(cs, fileOffset, i - 1)]
  }

  lemma {:induction false} EmittedPrefixAt(cs: seq<FlashHeader>, fileOffset: nat, i: nat,
                                           sized: seq<FlashHeader>, k: nat)
    requires Layable(cs, fileOffset, i) && i <= |sized| && k < |sized|
    ensures k < i ==> Layable(cs, fileOffset, k + 1)
    ensures EmittedPrefix(cs, fileOffset, i, sized)[k]
            == if k < i then Emitted(cs, fileOffset, k) else sized[k]
    decreases i
  {
    if i > 0 {
      var before := EmittedPrefix(cs, fileOffset, i - 1, sized);
      assert EmittedPrefix(cs, fileOffset, i, sized)
             == before[i - 1 := Emitted(cs, fileOffset, i - 1)];
      if k == i - 1 {
        LayableAt(cs, fileOffset, i, k);
      } else {
        EmittedPrefixAt(cs, fileOffset, i - 1, sized, k);
        assert EmittedPrefix(cs, fileOffset, i, sized)[k] == before[k];
        if k < i {
          LayableAt(cs, fileOffset, i, k);
        }
      }
    }
  }

  /** The containers flatten_container_header leaves behind: the first n emitted. */
  function Flattened(cs: seq<FlashHeader>, fileOffset: nat, n: nat): (r: seq<FlashHeader>)
    requires Layable(cs, fileOffset, n)
    ensures |r| == |cs|
  {
    EmittedPrefix(cs, fileOffset, n, SizedPrefix(cs, n))
  }

  /**
   * After flattening, each of the first n containers is the emitted one (sized, with image
   * offsets relative to its position in the file) and the others are untouched.
   */
  lemma FlattenedAt(cs: seq<FlashHeader>, fileOffset: nat, n: nat, k: nat)
    requires Layable(cs, fileOffset, n) && k < |cs|
    ensures k < n ==> Layable(cs, fileOffset, k + 1)
    ensures Flattened(cs, fileOffset, n)[k] == if k < n then Emitted(cs, fileOffset, k) else cs[k]
  {
    EmittedPrefixAt(cs, fileOffset, n, SizedPrefix(cs, n), k);
    SizedPrefixAt(cs, n, k);
  }

  /** The loop over the entries in use of container i: each offset moves down by base. */
  method RebaseEntries(ghost cs: seq<FlashHeader>, fileOffset: nat, i: nat,
                       c: FlashHeader, base: nat) returns (r: FlashHeader)
    requires Layable(cs, fileOffset, i + 1)
    requires c == SizedAt(cs, fileOffset, i) && base == Start(cs, i) + fileOffset
    ensures AllValid([r]) && r == Emitted(cs, fileOffset, i)
  {
    SizedOffsets(cs, fileOffset, i);
    var imgs := RebaseOffsets(c.img, c.hdr.numImages, base);
    r := c.(img := imgs);
    assert r == Rebased(c, base);
    assert [r][1..] == [];
  }

  /** The rebasing loop over the first n entries: offset -= base, one entry at a time. */
  method RebaseOffsets(imgs: seq<BootImage>, n: nat, base: nat) returns (r: seq<BootImage>)
    requires n <= |imgs| && forall j :: 0 <= j < n ==> imgs[j].offset >= base
    ensures r == RebaseImages(imgs, n, base)
  {
    r := imgs;
    for j := 0 to n
      invariant r == RebaseImages(imgs, j, base)
    {
      RebaseImagesAt(imgs, j, base, j);
      var m := r[j];
      m := m.(offset := m.offset - base);
      r := r[j := m];
    }
  }

  class ImxHeader {
    /** fhdr[MAX_NUM_OF_CONTAINER]; the DCD table of the structure is not used by this builder. */
    var fhdr: seq<FlashHeader>

    predicate Valid()
      reads this
    {
      HeadersValid(fhdr)
    }

    /** The header as the memset leaves it: both containers zero. */
    constructor ()
      ensures Valid() && fhdr == [ZeroContainer(), ZeroContainer()]
    {
      var z := [ZeroContainer(), ZeroContainer()];
      assert z[1..][1..] == [];
      fhdr := z;
    }

    /** set_imx_hdr_v3: stamps tag and version of container contId and nothing else. */
    method SetImxHdrV3(contId: nat)
      requires Valid() && contId < MaxNumOfContainer
      modifies this
      ensures Valid()
      ensures fhdr == old(fhdr)[contId := StampHeader(old(fhdr)[contId])]
    {
      HeaderValid(fhdr, contId);
      var c := fhdr[contId];
      c := c.(hdr := c.hdr.(tag := IvtHeaderTagB0));
      c := c.(hdr := c.hdr.(version := IvtVersionB0));
      HeadersUpdate(fhdr, contId, c);
      fhdr := fhdr[contId := c];
    }

    /** set_container on container contId: sw_version, padding and fuse_version. */
    method SetContainer(contId: nat, swVersion: nat, alignment: nat, fuseVersion: nat)
      requires Valid() && contId < MaxNumOfContainer && alignment < U32
      modifies this
      ensures Valid()
      ensures fhdr == old(fhdr)[contId := Container.SetContainer(Header(old(fhdr), contId),
                                                                  swVersion, alignment, fuseVersion)]
    {
      HeaderValid(fhdr, contId);
      var c := fhdr[contId];
      c := c.(hdr := c.hdr.(swVersion := swVersion % U16));
      c := c.(padding := alignment);
      c := c.(hdr := c.hdr.(fuseVersion := fuseVersion % U8));
      HeadersUpdate(fhdr, contId, c);
      fhdr := fhdr[contId := c];
    }

    /**
     * set_image_hash on slot j of container ci: the selector is OR-ed into the flags, the 64
     * hash bytes are zeroed, then the first hash_type/8 digest bytes are copied in. An
     * unsupported algorithm is rejected before anything is written.
     */
    method SetImageHash(ci: nat, j: nat, file: seq<Byte>, hashType: nat, hasher: Hasher)
      returns (err: Option<Error>)
      requires Valid() && ci < MaxNumOfContainer && j < MaxNumImgs
      modifies this
      ensures Valid()
      ensures err.Some? <==> !SupportedHash(hashType)
      ensures err.Some? ==> err.value == WrongHashType(hashType) && fhdr == old(fhdr)
      ensures err.None? ==>
        var c := Header(old(fhdr), ci);
        fhdr == old(fhdr)[ci := WithSlot(c, j, HashedEntry(c.img[j], hashType, hasher(hashType, file)))]
    {
      if !SupportedHash(hashType) {
        return Some(WrongHashType(hashType));
      }
      HeaderValid(fhdr, ci);
      SlotValid(fhdr[ci], j);
      var img := fhdr[ci].img[j];
      img := img.(habFlags := OrFlags(img.habFlags, HashFlag(hashType)));
      var buf := new Byte[HashMaxLen](_ => 0);
      var digest := hasher(hashType, file);
      var k := if |digest| < hashType / 8 then |digest| else hashType / 8;
      for i := 0 to k
        invariant fhdr == old(fhdr)
        invariant forall t :: 0 <= t < HashMaxLen ==> buf[t] == if t < i then digest[t] else 0
      {
        buf[i] := digest[i];
      }
      assert buf[..] == DigestBuffer(hashType, digest);
      img := img.(hash := buf[..]);
      HeadersUpdate(fhdr, ci, WithSlot(fhdr[ci], j, img));
      fhdr := fhdr[ci := WithSlot(fhdr[ci], j, img)];
      return None;
    }

    /** Writes slot j of container ci. */
    method PutSlot(ci: nat, j: nat, m: BootImage)
      requires Valid() && ci < MaxNumOfContainer && j < MaxNumImgs && m.Valid()
      modifies this
      ensures Valid() && old(fhdr)[ci].Valid()
      ensures fhdr == old(fhdr)[ci := WithSlot(old(fhdr)[ci], j, m)]
    {
      HeaderValid(fhdr, ci);
      HeadersUpdate(fhdr, ci, WithSlot(fhdr[ci], j, m));
      fhdr := fhdr[ci := WithSlot(fhdr[ci], j, m)];
    }

    /**
     * set_image_array_entry on container ci: slot num_images gets offset and size, then the
     * type-dependent flags and addresses and the SHA-384 digest of the file; an SCFW image
     * also fills the next slot with the DCD entry read from the firmware; num_images counts
     * the slots written. An unrecognized kind stops the builder after offset and size were
     * written.
     */
    method SetImageArrayEntry(ci: nat, kind: OptionType, offset: nat, size: nat, dst: nat,
                              entry: nat, file: seq<Byte>, imagePadding: nat, hasher: Hasher)
      returns (err: Option<Error>)
      requires Valid() && ci < MaxNumOfContainer
      requires CanSetImage(fhdr[ci], kind, offset, size, entry, file, imagePadding)
      modifies this
      ensures Valid()
      ensures err.Some? <==> !IsImageKind(kind)
      ensures err.None? ==>
        fhdr == old(fhdr)[ci := Container.SetImageArrayEntry(old(fhdr)[ci], kind, offset, size,
                                                             dst, entry, file, imagePadding, hasher).value]
      ensures err.Some? ==> var c := old(fhdr)[ci];
        && err.value == UnrecognizedImageType(kind)
        && fhdr == old(fhdr)[ci := WithSlot(c, c.hdr.numImages,
                                            c.img[c.hdr.numImages].(offset := offset, size := size))]
    {
      ghost var c0 := fhdr[ci];
      assert kind == Scfw ==> |file| >= DcdEntryAddrInScfw + 4 && imagePadding > 0
                              && Align(offset + size, imagePadding) < U32;
      var n := fhdr[ci].hdr.numImages;
      SlotValid(fhdr[ci], n);
      var img := fhdr[ci].img[n];
      img := img.(offset := offset);
      img := img.(size := size);
      PutSlot(ci, n, img);
      if !IsImageKind(kind) {
        return Some(UnrecognizedImageType(kind));
      }
      FillAccepted(ci, kind, offset, size, dst, entry, file, imagePadding, hasher);
      EarlyWrite(c0, kind, offset, size, dst, entry, file, imagePadding, hasher);
      UpdateTwice(old(fhdr), ci, WithSlot(c0, n, img),
                  Container.SetImageArrayEntry(c0, kind, offset, size, dst, entry, file, imagePadding, hasher).value);
      return None;
    }

    /**
     * set_image_array_entry for an accepted kind, from the point where offset and size are in
     * slot num_images.
     */
    method FillAccepted(ci: nat, kind: OptionType, offset: nat, size: nat, dst: nat,
                        entry: nat, file: seq<Byte>, imagePadding: nat, hasher: Hasher)
      requires Valid() && ci < MaxNumOfContainer && IsImageKind(kind)
      requires CanSetImage(fhdr[ci], kind, offset, size, entry, file, imagePadding)
      requires fhdr[ci].img[fhdr[ci].hdr.numImages].offset == offset
      requires fhdr[ci].img[fhdr[ci].hdr.numImages].size == size
      modifies this
      ensures Valid()
      ensures fhdr == old(fhdr)[ci := Container.SetImageArrayEntry(old(fhdr)[ci], kind, offset, size,
                                                                   dst, entry, file, imagePadding, hasher).value]
    {
      ghost var c0 := fhdr[ci];
      var n := fhdr[ci].hdr.numImages;
      assert kind == Scfw ==> n + 1 < MaxNumImgs && |file| >= DcdEntryAddrInScfw + 4
                              && imagePadding > 0 && Align(offset + size, imagePadding) < U32;
      ghost var r := Container.SetImageArrayEntry(c0, kind, offset, size, dst, entry, file,
                                                  imagePadding, hasher).value;
      SetImageArraySteps(c0, kind, offset, size, dst, entry, file, imagePadding, hasher);
      FirstSlot(ci, n, kind, entry, file, hasher);
      ghost var w := WithSlot(c0, n, FillEntry(c0.img[n], kind, offset, size, entry,
                                               hasher(ImageHashAlgoDefault, file)));
      assert fhdr == old(fhdr)[ci := w];
      if kind == Scfw {
        ScfwCompanion(ci, n, offset, size, imagePadding, file, hasher);
      } else {
        SetNumImages(ci, n + 1);
      }
      UpdateTwice(old(fhdr), ci, w, r);
    }

    /**
     * The accepted case of the switch on slot n, then the SHA-384 digest of the file, with
     * the offset and size already in the slot.
     */
    method FirstSlot(ci: nat, n: nat, kind: OptionType, entry: nat, file: seq<Byte>, hasher: Hasher)
      requires Valid() && ci < MaxNumOfContainer && n < MaxNumImgs
      requires IsImageKind(kind) && entry < U64
      modifies this
      ensures Valid() && old(fhdr)[ci].Valid() && old(fhdr)[ci].img[n].Valid()
      ensures var m := old(fhdr)[ci].img[n];
        fhdr == old(fhdr)[ci := WithSlot(old(fhdr)[ci], n, FillEntry(m, kind, m.offset, m.size, entry,
                                                                     hasher(ImageHashAlgoDefault, file)))]
    {
      HeaderValid(fhdr, ci);
      SlotValid(fhdr[ci], n);
      ghost var c := fhdr[ci];
      ghost var m := fhdr[ci].img[n];
      TypeSlot(ci, n, kind, entry);
      ghost var typed := m.(habFlags := KindFlags(m.habFlags, kind), dst := DstOf(kind, m.dst, entry),
                            entry := EntryOf(kind, m.entry, entry), meta := MetaOf(kind, m.meta));
      var err := SetImageHash(ci, n, file, ImageHashAlgoDefault, hasher);
      ghost var filled := FillEntry(m, kind, m.offset, m.size, entry, hasher(ImageHashAlgoDefault, file));
      FillEntrySteps(m, kind, m.offset, m.size, entry, hasher(ImageHashAlgoDefault, file));
      assert m.(offset := m.offset, size := m.size) == m;
      WithSlotTwice(c, n, typed, filled);
      UpdateTwice(old(fhdr), ci, WithSlot(c, n, typed), WithSlot(c, n, filled));
    }

    /**
     * The rest of the SCFW case after the firmware slot n: num_images moves past it, slot n+1
     * becomes the DCD entry, and the final increment counts that one too.
     */
    method ScfwCompanion(ci: nat, n: nat, offset: nat, size: nat, imagePadding: nat,
                         file: seq<Byte>, hasher: Hasher)
      requires Valid() && ci < MaxNumOfContainer && n + 1 < MaxNumImgs
      requires imagePadding > 0 && |file| >= DcdEntryAddrInScfw + 4
      requires Align(offset + size, imagePadding) < U32
      modifies this
      ensures Valid() && old(fhdr)[ci].Valid()
      ensures var c := old(fhdr)[ci];
        fhdr == old(fhdr)[ci := WithCount(WithSlot(WithCount(c, n + 1), n + 1,
                                                   DcdCompanion(c.img[n + 1], offset, size, imagePadding,
                                                                file, hasher(ImageHashAlgoDefault, []))), n + 2)]
    {
      ghost var c := fhdr[ci];
      SetNumImages(ci, n + 1);
      ghost var w1 := WithCount(c, n + 1);
      DcdSlot(ci, n + 1, offset, size, imagePadding, file, hasher);
      SlotValid(c, n + 1);
      ghost var w2 := WithSlot(w1, n + 1, DcdCompanion(c.img[n + 1], offset, size, imagePadding,
                                                       file, hasher(ImageHashAlgoDefault, [])));
      UpdateTwice(old(fhdr), ci, w1, w2);
      SetNumImages(ci, n + 2);
      UpdateTwice(old(fhdr), ci, w2, WithCount(w2, n + 2));
    }

    /** The type-dependent cases of the switch of set_image_array_entry on slot n. */
    method TypeSlot(ci: nat, n: nat, kind: OptionType, entry: nat)
      requires Valid() && ci < MaxNumOfContainer && n < MaxNumImgs
      requires IsImageKind(kind) && entry < U64
      modifies this
      ensures Valid() && old(fhdr)[ci].Valid()
      ensures var m := old(fhdr)[ci].img[n];
        fhdr == old(fhdr)[ci := WithSlot(old(fhdr)[ci], n,
                                         m.(habFlags := KindFlags(m.habFlags, kind),
                                            dst := DstOf(kind, m.dst, entry),
                                            entry := EntryOf(kind, m.entry, entry),
                                            meta := MetaOf(kind, m.meta)))]
    {
      HeaderValid(fhdr, ci);
      SlotValid(fhdr[ci], n);
      var img := fhdr[ci].img[n];
      Pow2Values();
      match kind {
        case Seco =>
          img := img.(habFlags := OrFlags(img.habFlags, ImgTypeSeco));
          img := img.(habFlags := OrFlags(img.habFlags, CoreSc * Pow2(BootImgFlagsCoreShift)));
        case Dcd =>
          img := img.(habFlags := OrFlags(img.habFlags, ImgTypeDcdDdr));
          img := img.(habFlags := OrFlags(img.habFlags, CoreSc * Pow2(BootImgFlagsCoreShift)));
          img := img.(entry := entry);
          img := img.(dst := Dec64(entry));
        case Ap =>
          img := img.(habFlags := OrFlags(img.habFlags, ImgTypeExec));
          img := img.(habFlags := OrFlags(img.habFlags, CoreCa35 * Pow2(BootImgFlagsCoreShift)));
          img := img.(dst := entry);
          img := img.(entry := entry);
          img := img.(meta := ApMeta);
        case M4 =>
          img := img.(habFlags := OrFlags(img.habFlags, ImgTypeExec));
          img := img.(habFlags := OrFlags(img.habFlags, CoreCm40 * Pow2(BootImgFlagsCoreShift)));
          img := img.(dst := entry);
          img := img.(entry := entry);
        case Scfw =>
          img := img.(habFlags := OrFlags(img.habFlags, ImgTypeExec));
          img := img.(habFlags := OrFlags(img.habFlags, CoreSc * Pow2(BootImgFlagsCoreShift)));
          img := img.(dst := ScfwLoadAddr);
          img := img.(entry := ScfwLoadAddr);
      }
      PutSlot(ci, n, img);
    }

    /**
     * The second slot an SCFW image fills: DCD type on the SCU, the SHA-384 digest of the
     * empty file, offset at the end of the firmware rounded up to the image padding, entry
     * read from the firmware and destination one below it.
     */
    method DcdSlot(ci: nat, j: nat, offset: nat, size: nat, imagePadding: nat,
                   file: seq<Byte>, hasher: Hasher)
      requires Valid() && ci < MaxNumOfContainer && j < MaxNumImgs
      requires imagePadding > 0 && |file| >= DcdEntryAddrInScfw + 4
      requires Align(offset + size, imagePadding) < U32
      modifies this
      ensures Valid() && old(fhdr)[ci].Valid()
      ensures fhdr == old(fhdr)[ci := WithSlot(old(fhdr)[ci], j,
                                               DcdCompanion(old(fhdr)[ci].img[j], offset, size, imagePadding,
                                                            file, hasher(ImageHashAlgoDefault, [])))]
    {
      HeaderValid(fhdr, ci);
      SlotValid(fhdr[ci], j);
      ghost var c0 := fhdr[ci];
      ghost var m0 := fhdr[ci].img[j];
      var dcd := fhdr[ci].img[j];
      Pow2Values();
      dcd := dcd.(habFlags := OrFlags(dcd.habFlags, ImgTypeDcdDdr));
      dcd := dcd.(habFlags := OrFlags(dcd.habFlags, CoreSc * Pow2(BootImgFlagsCoreShift)));
      ghost var flagged := m0.(habFlags := KindFlags(m0.habFlags, Dcd));
      assert dcd == flagged;
      PutSlot(ci, j, dcd);
      var err := SetImageHash(ci, j, [], ImageHashAlgoDefault, hasher);
      ghost var hashed := HashedEntry(flagged, ImageHashAlgoDefault, hasher(ImageHashAlgoDefault, []));
      dcd := fhdr[ci].img[j];
      dcd := dcd.(offset := Align(offset + size, imagePadding));
      dcd := dcd.(entry := ReadDcdOffset(file));
      dcd := dcd.(dst := Dec64(dcd.entry));
      DcdCompanionSteps(m0, offset, size, imagePadding, file, hasher(ImageHashAlgoDefault, []));
      PutSlot(ci, j, dcd);
      WithSlotTwice(c0, j, flagged, hashed);
      WithSlotTwice(c0, j, hashed, dcd);
      UpdateTwice(old(fhdr), ci, WithSlot(c0, j, flagged), WithSlot(c0, j, hashed));
      UpdateTwice(old(fhdr), ci, WithSlot(c0, j, hashed), WithSlot(c0, j, dcd));
    }

    /** num_images of container ci, nothing else. */
    method SetNumImages(ci: nat, n: nat)
      requires Valid() && ci < MaxNumOfContainer && n <= MaxNumImgs
      modifies this
      ensures Valid()
      ensures old(fhdr)[ci].Valid() && fhdr == old(fhdr)[ci := WithCount(old(fhdr)[ci], n)]
    {
      HeaderValid(fhdr, ci);
      HeadersUpdate(fhdr, ci, fhdr[ci].(hdr := fhdr[ci].hdr.(numImages := n)));
      fhdr := fhdr[ci := fhdr[ci].(hdr := fhdr[ci].hdr.(numImages := n))];
    }

    // -------------------------------------------------------------- flatten_container_header

    /**
     * Pass one of flatten_container_header on the first n containers: each gets its
     * signature block offset and its length, and the result is the sum of their aligned
     * lengths (the u16 size of flatten_container_header, which must not wrap).
     */
    method SizeContainers(n: nat) returns (size: nat)
      requires Valid() && n <= MaxNumOfContainer && SizableUpTo(fhdr, n) && Start(fhdr, n) < U16
      modifies this
      ensures Valid()
      ensures size == Start(old(fhdr), n)
      ensures fhdr == SizedPrefix(old(fhdr), n)
    {
      ghost var cs := fhdr;
      size := 0;
      for i := 0 to n
        invariant SizableUpTo(cs, i) && size == Start(cs, i)
        invariant fhdr == SizedPrefix(cs, i) && Valid()
      {
        SizableUpToAt(cs, n, i + 1);
        SizedPrefixAt(cs, i, i);
        var aligned := SizeContainer(i);
        size := size + aligned;
      }
    }

    /** One iteration of pass one: container i is sized; its aligned length is returned. */
    method SizeContainer(i: nat) returns (aligned: nat)
      requires Valid() && i < MaxNumOfContainer && Sizable(fhdr[i])
      modifies this
      ensures Valid()
      ensures fhdr == old(fhdr)[i := Sized(old(fhdr)[i])]
      ensures aligned == AlignedLength(old(fhdr)[i])
    {
      var c := fhdr[i];
      c := c.(hdr := c.hdr.(sigBlkOffset := HeaderImgArrayOffset + c.hdr.numImages * ImgArrayEntrySize));
      c := c.(hdr := c.hdr.(length := HeaderImgArrayOffset + ImgArrayEntrySize * c.hdr.numImages));
      c := c.(hdr := c.hdr.(length := c.hdr.length + |c.sigblk|));
      assert c == Sized(fhdr[i]);
      HeadersUpdate(fhdr, i, c);
      fhdr := fhdr[i := c];
      aligned := Align(c.hdr.length, c.padding);
    }

    /**
     * The in-place loop of pass two on container i: each image offset in use is made
     * relative to base = container_start_offset + file_offset.
     */
    method RebaseContainer(ghost cs: seq<FlashHeader>, fileOffset: nat, i: nat, base: nat)
      requires Valid() && i < MaxNumOfContainer && Layable(cs, fileOffset, i + 1)
      requires fhdr[i] == SizedAt(cs, fileOffset, i) && base == Start(cs, i) + fileOffset
      modifies this
      ensures Valid()
      ensures fhdr == old(fhdr)[i := Emitted(cs, fileOffset, i)]
    {
      var c := RebaseEntries(cs, fileOffset, i, fhdr[i], base);
      HeadersPut(fhdr, i, c);
      fhdr := fhdr[i := c];
    }

    /** The entries in use of container i, appended one by one at ptr. */
    method AppendEntries(i: nat, buf: array<Byte>, ptr: nat, ghost written: seq<Byte>)
      returns (next: nat)
      requires Valid() && i < MaxNumOfContainer
      requires Holds(buf[..], written) && |written| == ptr
      requires ptr + ImgArrayEntrySize * fhdr[i].hdr.numImages <= buf.Length
      modifies buf
      ensures Valid() && next == ptr + ImgArrayEntrySize * fhdr[i].hdr.numImages
      ensures var c := Header(fhdr, i); Holds(buf[..], written + EncodeImages(c.img[..c.hdr.numImages]))
    {
      HeaderValid(fhdr, i);
      SlotsValid(fhdr[i]);
      next := ptr;
      for j := 0 to fhdr[i].hdr.numImages
        invariant next == ptr + ImgArrayEntrySize * j
        invariant Holds(buf[..], written + EncodeImages(fhdr[i].img[..j]))
      {
        ghost var before := buf[..];
        var e := EncodeImage(fhdr[i].img[j]);
        next := AppendBytes(buf, next, e);
        HoldsAppend(before, written + EncodeImages(fhdr[i].img[..j]), e);
        EncodeImagesSnoc(fhdr[i].img, j);
        Regroup(written, EncodeImages(fhdr[i].img[..j]), e);
      }
    }

    /**
     * One iteration of pass two: container i, already sized, is written at ptr, the start of
     * its space: its header, then, after its image offsets are made relative to
     * ptr + fileOffset, its entries in use, its signature block, and the zero padding up to
     * its aligned length.
     */
    method EmitContainer(ghost cs: seq<FlashHeader>, fileOffset: nat, i: nat,
                         buf: array<Byte>, ptr: nat, ghost written: seq<Byte>) returns (next: nat)
      requires Valid() && i < MaxNumOfContainer && Layable(cs, fileOffset, i + 1)
      requires fhdr[i] == SizedAt(cs, fileOffset, i)
      requires ptr == Start(cs, i) && Start(cs, i + 1) <= buf.Length
      requires Holds(buf[..], written) && |written| == ptr
      modifies this, buf
      ensures Valid() && next == Start(cs, i + 1)
      ensures fhdr == old(fhdr)[i := Emitted(cs, fileOffset, i)]
      ensures Holds(buf[..], written + EmittedBytes(cs, fileOffset, i))
    {
      var containerStart := ptr;
      EmitShape(cs, fileOffset, i);
      ghost var em := Emitted(cs, fileOffset, i);
      var header := EncodeHeader(fhdr[i].hdr);
      var p := AppendAt(buf, ptr, header, written);
      RebaseContainer(cs, fileOffset, i, containerStart + fileOffset);
      p := AppendEntries(i, buf, p, written + header);
      SlotsValid(em);
      ghost var entries := EncodeImages(em.img[..em.hdr.numImages]);
      p := AppendAt(buf, p, fhdr[i].sigblk, written + header + entries);
      var pad := Align(fhdr[i].hdr.length, fhdr[i].padding) - fhdr[i].hdr.length;
      HoldsSkip(buf[..], written + header + entries + em.sigblk, pad);
      next := p + pad;
      Regroup4(written, header, entries, em.sigblk, Zeros(pad));
    }

    /**
     * Pass two of flatten_container_header over the first n containers, already sized: each
     * is emitted at its start in the region and rebased there.
     */
    method EmitContainers(ghost cs: seq<FlashHeader>, fileOffset: nat, n: nat, buf: array<Byte>)
      requires Valid() && n <= MaxNumOfContainer && Layable(cs, fileOffset, n)
      requires fhdr == SizedPrefix(cs, n) && buf.Length == Start(cs, n) && Holds(buf[..], [])
      modifies this, buf
      ensures Valid() && fhdr == Flattened(cs, fileOffset, n)
      ensures buf[..] == Flat(cs, fileOffset, n)
    {
      var ptr := 0;
      for i := 0 to n
        invariant Valid() && Layable(cs, fileOffset, i)
        invariant ptr == Start(cs, i) && Holds(buf[..], Flat(cs, fileOffset, i))
        invariant fhdr == EmittedPrefix(cs, fileOffset, i, SizedPrefix(cs, n))
      {
        EmitStep(cs, fileOffset, n, i);
        EmittedPrefixAt(cs, fileOffset, i, SizedPrefix(cs, n), i);
        SizedPrefixAt(cs, n, i);
        ptr := EmitContainer(cs, fileOffset, i, buf, ptr, Flat(cs, fileOffset, i));
      }
      assert buf[..] == Flat(cs, fileOffset, n) + Zeros(0);
    }

    /**
     * flatten_container_header: sizes the first n containers, allocates a zeroed region of
     * their total aligned size and emits them into it, each with its image offsets made
     * relative to its own position in the image file (the region starts at fileOffset).
     */
    method Flatten(n: nat, fileOffset: nat) returns (flat: array<Byte>, sizeOut: nat)
      requires Valid() && n <= MaxNumOfContainer && Layable(fhdr, fileOffset, n)
      requires Start(fhdr, n) < U16
      modifies this
      ensures Valid() && fresh(flat)
      ensures sizeOut == flat.Length == Start(old(fhdr), n)
      ensures flat[..] == Flat(old(fhdr), fileOffset, n)
      ensures fhdr == Flattened(old(fhdr), fileOffset, n)
    {
      ghost var cs := fhdr;
      var size := SizeContainers(n);
      flat := new Byte[size](_ => 0);
      assert flat[..] == [] + Zeros(size);
      sizeOut := size;
      EmitContainers(cs, fileOffset, n, flat);
    }

    /** The flags of container ci, as the loop sets them on NEW_CONTAINER. */
    method SetFlags(ci: nat, flags: nat)
      requires Valid() && ci < MaxNumOfContainer && flags < U32
      modifies this
      ensures Valid()
      ensures fhdr == old(fhdr)[ci := old(fhdr)[ci].(hdr := old(fhdr)[ci].hdr.(flags := flags))]
    {
      HeaderValid(fhdr, ci);
      var c := fhdr[ci];
      c := c.(hdr := c.hdr.(flags := flags));
      HeadersUpdate(fhdr, ci, c);
      fhdr := fhdr[ci := c];
    }

    /** An image directive of the loop: set_image_array_entry on the current container. */
    method PlaceImage(ghost st: LoopState, d: StackEntry, container: nat, fileOff: nat,
                      imagePadding: nat, hasher: Hasher)
      requires Valid() && st.Valid() && Fits(st, d) && IsLoopImage(d.option)
      requires st.hdrs == fhdr && st.container == container && st.fileOff == fileOff
      requires st.imagePadding == imagePadding
      modifies this
      ensures Valid() && fhdr == Register(st, d, hasher).hdrs
    {
      var err := SetImageArrayEntry(container, d.option, fileOff, |d.file|, d.dst, d.entry,
                                    d.file, imagePadding, hasher);
    }

    /** NEW_CONTAINER: set_container on the next container, then its flags. */
    method OpenContainer(ghost st: LoopState, d: StackEntry, container: nat)
      requires Valid() && st.Valid() && container == st.container + 1 < MaxNumOfContainer
      requires st.hdrs == fhdr
      modifies this
      ensures Valid() && fhdr == Open(st, d).hdrs
    {
      SetContainer(container, NewContainerSwVersion, ContainerAlignment, d.src);
      SetFlags(container, NewContainerFlags);
    }

    /**
     * The body of the loop of build_container_qx_b0 on directive idx of the stack, with the
     * loop variables passed in and their new values returned: it does what Step does (an image
     * directive gets src = file_off), and an unrecognised directive is reported instead of
     * ending the process. The run goes on from the state it returns.
     */
    method HandleDirective(stack: array<StackEntry>, idx: nat, ghost ds: seq<StackEntry>,
                           ghost st: LoopState, fileOff: nat, container: int,
                           imagePadding: nat, contImgCount: nat, hasher: Hasher)
      returns (err: Option<Error>, fileOff': nat, container': int, imagePadding': nat,
               contImgCount': nat, ghost st': LoopState)
      requires Valid() && st.Valid() && RunFits(st, ds, hasher) && !Stops(ds)
      requires idx < stack.Length && stack[idx] == ds[0]
      requires st == LoopState(fileOff, container, imagePadding, contImgCount, fhdr)
      modifies this, stack
      ensures Valid()
      ensures err.Some? <==> IsUnrecognized(ds[0].option)
      ensures err.Some? ==> err.value == UnrecognizedOption(ds[0].option)
      ensures err.Some? ==> Run(st, ds, hasher) == Failure(err.value)
      ensures err.None? ==>
        && st' == LoopState(fileOff', container', imagePadding', contImgCount', fhdr)
        && fileOff' == fileOff + Pad(ds[0])
        && Step(st, ds[0], hasher) == Success(st')
        && st'.Valid() && RunFits(st', ds[1..], hasher)
        && Run(st, ds, hasher) == Run(st', ds[1..], hasher)
        && stack[..] == old(stack[..])[idx := Handled(fileOff, ds[0])]
    {
      err, fileOff', container', imagePadding', contImgCount' :=
        None, fileOff, container, imagePadding, contImgCount;
      var d := stack[idx];
      match d.option {
        case Seco | M4 | Scfw | Ap =>
          fileOff', contImgCount', st' :=
            TakeImage(stack, idx, ds, st, fileOff, container, imagePadding, contImgCount, hasher);
        case NewContainer =>
          container', imagePadding', contImgCount', st' :=
            TakeNewContainer(stack, idx, ds, st, container, hasher);
        case Append =>
          st' := RunStep(st, ds, hasher);
        case _ =>
          return Some(UnrecognizedOption(d.option)), fileOff', container', imagePadding',
                 contImgCount', st;
      }
    }

    /** An image directive of the loop: its entry in the current container, src = file_off. */
    method TakeImage(stack: array<StackEntry>, idx: nat, ghost ds: seq<StackEntry>,
                     ghost st: LoopState, fileOff: nat, container: int,
                     imagePadding: nat, contImgCount: nat, hasher: Hasher)
      returns (fileOff': nat, contImgCount': nat, ghost st': LoopState)
      requires Valid() && st.Valid() && RunFits(st, ds, hasher) && !Stops(ds)
      requires IsLoopImage(ds[0].option)
      requires idx < stack.Length && stack[idx] == ds[0]
      requires st == LoopState(fileOff, container, imagePadding, contImgCount, fhdr)
      modifies this, stack
      ensures Valid()
      ensures st' == LoopState(fileOff', container, imagePadding, contImgCount', fhdr)
      ensures fileOff' == fileOff + Pad(ds[0]) && contImgCount' == contImgCount + 1
      ensures Step(st, ds[0], hasher) == Success(st')
      ensures st'.Valid() && RunFits(st', ds[1..], hasher)
      ensures Run(st, ds, hasher) == Run(st', ds[1..], hasher)
      ensures stack[..] == old(stack[..])[idx := Handled(fileOff, ds[0])]
    {
      var d := stack[idx];
      PlaceImage(st, d, container, fileOff, imagePadding, hasher);
      stack[idx] := d.(src := fileOff);
      fileOff' := fileOff + Align(|d.file|, imagePadding);
      contImgCount' := contImgCount + 1;
      st' := RunStep(st, ds, hasher);
    }

    /** NEW_CONTAINER in the loop: the next container opened, image_padding 0x1000. */
    method TakeNewContainer(stack: array<StackEntry>, idx: nat, ghost ds: seq<StackEntry>,
                            ghost st: LoopState, container: int, hasher: Hasher)
      returns (container': int, imagePadding': nat, contImgCount': nat, ghost st': LoopState)
      requires Valid() && st.Valid() && RunFits(st, ds, hasher) && !Stops(ds)
      requires idx < stack.Length && stack[idx] == ds[0] && ds[0].option == NewContainer
      requires st.hdrs == fhdr && st.container == container
      modifies this
      ensures Valid()
      ensures st' == LoopState(st.fileOff, container', imagePadding', contImgCount', fhdr)
      ensures container' == st.container + 1 && imagePadding' == ImagePaddingDefault
      ensures contImgCount' == 0
      ensures Step(st, ds[0], hasher) == Success(st')
      ensures st'.Valid() && RunFits(st', ds[1..], hasher)
      ensures Run(st, ds, hasher) == Run(st', ds[1..], hasher)
    {
      container' := container + 1;
      OpenContainer(st, stack[idx], container');
      imagePadding' := ImagePaddingDefault;
      contImgCount' := 0;
      st' := RunStep(st, ds, hasher);
    }

    /**
     * One round of the loop of build_container_qx_b0, the directive at idx: the loop's
     * invariant before it gives the invariant after it, or the error Run stops with.
     */
    method Advance(stack: array<StackEntry>, idx: nat, ghost ds: seq<StackEntry>,
                   ghost st0: LoopState, ghost st: LoopState, fileOff: nat, container: int,
                   imagePadding: nat, contImgCount: nat, hasher: Hasher)
      returns (err: Option<Error>, fileOff': nat, container': int, imagePadding': nat,
               contImgCount': nat, ghost st': LoopState)
      requires idx < stack.Length == |ds| && stack[idx].option != NoImg && Valid()
      requires stack[idx..] == ds[idx..]
      requires Trace(FileOffStart, ds) == stack[..idx] + Trace(fileOff, ds[idx..])
      requires st == LoopState(fileOff, container, imagePadding, contImgCount, fhdr)
      requires st.Valid() && RunFits(st, ds[idx..], hasher)
      requires st0.Valid() && RunFits(st0, ds, hasher)
      requires Run(st0, ds, hasher) == Run(st, ds[idx..], hasher)
      modifies this, stack
      ensures Valid()
      ensures err.Some? <==> IsUnrecognized(ds[idx].option)
      ensures err.Some? ==> Run(st0, ds, hasher) == Failure(err.value)
      ensures err.None? ==>
        && stack[idx + 1..] == ds[idx + 1..]
        && Trace(FileOffStart, ds) == stack[..idx + 1] + Trace(fileOff', ds[idx + 1..])
        && st' == LoopState(fileOff', container', imagePadding', contImgCount', fhdr)
        && st'.Valid() && RunFits(st', ds[idx + 1..], hasher)
        && Run(st0, ds, hasher) == Run(st', ds[idx + 1..], hasher)
    {
      assert ds[idx..][1..] == ds[idx + 1..];
      err, fileOff', container', imagePadding', contImgCount', st' :=
        HandleDirective(stack, idx, ds[idx..], st, fileOff, container, imagePadding,
                        contImgCount, hasher);
      if err.None? {
        TraceStep(ds, old(stack[..]), idx, fileOff, fileOff');
      }
    }

    /**
     * The loop of build_container_qx_b0 over the image stack, from the state st0 of the
     * header and the loop variables, up to the first NO_IMG (or the end of the stack): it does
     * what Run does from st0, and leaves each directive it reaches as Trace describes.
     */
    method GenerateHeaders(stack: array<StackEntry>, ghost st0: LoopState, hasher: Hasher)
      returns (err: Option<Error>, fileOff: nat, container: int)
      requires Valid() && st0 == LoopState(FileOffStart, -1, 0, 0, fhdr)
      requires st0.Valid() && RunFits(st0, stack[..], hasher)
      modifies this, stack
      ensures Valid()
      ensures var r := Run(st0, old(stack[..]), hasher);
        && (err.Some? <==> r.Failure?)
        && (err.Some? ==> err.value == r.error)
        && (err.None? ==>
              && fhdr == r.value.hdrs && fileOff == r.value.fileOff
              && container == r.value.container
              && stack[..] == Trace(FileOffStart, old(stack[..]))
                              + old(stack[..])[Reached(old(stack[..]))..])
    {
      ghost var ds := stack[..];
      fileOff, container := FileOffStart, -1;
      var imagePadding, contImgCount := 0, 0;
      ghost var st := st0;
      var idx := 0;
      while idx < stack.Length && stack[idx].option != NoImg
        invariant 0 <= idx <= stack.Length && Valid()
        invariant stack[idx..] == ds[idx..]
        invariant Trace(FileOffStart, ds) == stack[..idx] + Trace(fileOff, ds[idx..])
        invariant st == LoopState(fileOff, container, imagePadding, contImgCount, fhdr)
        invariant st.Valid() && RunFits(st, ds[idx..], hasher)
        invariant Run(st0, ds, hasher) == Run(st, ds[idx..], hasher)
        decreases stack.Length - idx
      {
        err, fileOff, container, imagePadding, contImgCount, st :=
          Advance(stack, idx, ds, st0, st, fileOff, container, imagePadding, contImgCount, hasher);
        if err.Some? {
          return;
        }
        idx := idx + 1;
      }
      Stopped(st0, st, ds, stack[..], idx, fileOff, hasher);
      err := None;
    }
  }

  /**
   * Where the loop stops (the end of the stack or a NO_IMG directive), the run from st0 has
   * ended in the current state and the stack holds the trace followed by what was not reached.
   */
  lemma Stopped(st0: LoopState, st: LoopState, ds: seq<StackEntry>, now: seq<StackEntry>,
                idx: nat, fileOff: nat, hasher: Hasher)
    requires idx <= |ds| == |now| && (idx == |now| || now[idx].option == NoImg)
    requires now[idx..] == ds[idx..]
    requires Trace(FileOffStart, ds) == now[..idx] + Trace(fileOff, ds[idx..])
    requires st0.Valid() && RunFits(st0, ds, hasher)
    requires st.Valid() && RunFits(st, ds[idx..], hasher)
    requires Run(st0, ds, hasher) == Run(st, ds[idx..], hasher)
    ensures Run(st0, ds, hasher) == Success(st)
    ensures now == Trace(FileOffStart, ds) + ds[Reached(ds)..]
  {
    assert idx < |now| ==> ds[idx..][0] == now[idx];
    assert Stops(ds[idx..]);
    assert now == now[..idx] + now[idx..];
  }

  /** The memset of the header and the two set_imx_hdr_v3 calls. */
  method NewHeader() returns (imx: ImxHeader)
    ensures fresh(imx) && imx.Valid() && imx.fhdr == Initial().hdrs
  {
    imx := new ImxHeader();
    imx.SetImxHdrV3(0);
    imx.SetImxHdrV3(1);
  }

  /**
   * The header-generation part of build_container_qx_b0: a zeroed header with both
   * containers stamped, then the loop over the image stack. It does what Build does: on
   * success the header, file_off and the container index are those of the run and each
   * directive reached is left as Trace describes (an image directive with src = its file
   * offset); an unrecognised directive stops it with that directive's error.
   */
  method BuildContainerQxB0(stack: array<StackEntry>, hasher: Hasher)
    returns (imx: ImxHeader, err: Option<Error>, fileOff: nat, container: int)
    requires RunFits(Initial(), stack[..], hasher)
    modifies stack
    ensures fresh(imx) && imx.Valid()
    ensures var r := Build(old(stack[..]), hasher);
      && (err.Some? <==> r.Failure?)
      && (err.Some? ==> err.value == r.error)
      && (err.None? ==>
            && imx.fhdr == r.value.hdrs && fileOff == r.value.fileOff
            && container == r.value.container
            && stack[..] == Trace(FileOffStart, old(stack[..]))
                            + old(stack[..])[Reached(old(stack[..]))..])
  {
    imx := NewHeader();
    err, fileOff, container := imx.GenerateHeaders(stack, Initial(), hasher);
  }
}
