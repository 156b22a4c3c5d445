/**
 * The first pass of build_container_qx_b0 over the image stack, as a pure state machine:
 * each directive either registers an image in the current container (at the running file
 * offset, which then advances by the padded image size), opens the next container, is
 * skipped (APPEND), or stops the build (anything else). The stack ends at its first NO_IMG.
 */
module Directives {
  import opened LittleEndian
  import opened Wrappers
  import opened Alignment
  import opened ImageEntry
  import opened Container

  const FileOffStart: nat := 0x6000        // file_off before the first image
  const ImagePaddingDefault: nat := 0x1000  // IMAGE_PADDING_DEFAULT
  const NewContainerSwVersion: nat := 0xCAFE
  const NewContainerFlags: nat := 0x12
  const IntLimit: nat := 0x8000_0000        // file_off is a signed 32-bit int

  /** One element of the image stack (image_t): directive, file contents and addresses. */
  datatype StackEntry = StackEntry(option: OptionType, file: seq<Byte>, src: nat, dst: nat, entry: nat)

  /** The image directives the loop hands to set_image_array_entry (DCD is not one of them). */
  predicate IsLoopImage(option: OptionType) {
    option == Seco || option == M4 || option == Scfw || option == Ap
  }

  /** Directives the loop rejects with "unrecognized option". */
  predicate IsUnrecognized(option: OptionType) {
    !IsLoopImage(option) && option != NewContainer && option != Append && option != NoImg
  }

  /**
   * The loop's variables: file_off, the container index (-1 before the first NEW_CONTAINER),
   * image_padding, cont_img_count and the two container headers. What the loop does to the
   * image stack itself is Trace, below.
   */
  datatype LoopState = LoopState(fileOff: nat, container: int, imagePadding: nat,
                                 contImgCount: nat, hdrs: seq<FlashHeader>)
  {
    /** What holds at every step: image_padding is 0 until a container is open, 0x1000 after. */
    predicate Valid() {
      && HeadersValid(hdrs)
      && -1 <= container < MaxNumOfContainer
      && (if container < 0 then imagePadding == 0 else imagePadding == ImagePaddingDefault)
    }
  }

  /** The state after the memset and the two set_imx_hdr_v3 calls, before the loop. */
  function Initial(): (st: LoopState)
    ensures st.Valid() && st.container == -1 && st.fileOff == FileOffStart
    ensures forall i :: 0 <= i < MaxNumOfContainer ==>
      st.hdrs[i] == StampHeader(ZeroContainer())
  {
    var z := StampHeader(ZeroContainer());
    assert [z, z][1..] == [z] && [z][1..] == [];
    assert AllValid([z]);
    LoopState(FileOffStart, -1, 0, 0, [z, z])
  }

  /**
   * What build_container_qx_b0 silently assumes of a directive: an image directive comes
   * after a NEW_CONTAINER and fits its container, and file_off stays a valid int; a
   * NEW_CONTAINER does not open a third container.
   */
  predicate Fits(st: LoopState, d: StackEntry)
    requires st.Valid()
  {
    && (IsLoopImage(d.option) ==>
          && 0 <= st.container
          && CanSetImage(st.hdrs[st.container], d.option, st.fileOff, |d.file|, d.entry,
                         d.file, st.imagePadding)
          && st.fileOff + Align(|d.file|, st.imagePadding) < IntLimit)
    && (d.option == NewContainer ==> st.container + 1 < MaxNumOfContainer)
  }

  /**
   * An image directive: set_image_array_entry on the current container at file_off, the
   * directive's src set to file_off, and file_off advanced by the image size padded to
   * image_padding.
   */
  function Register(st: LoopState, d: StackEntry, hasher: Hasher): (r: LoopState)
    requires st.Valid() && Fits(st, d) && IsLoopImage(d.option)
    ensures r.Valid() && r.container == st.container
    ensures r.fileOff == st.fileOff + Align(|d.file|, ImagePaddingDefault)
    ensures r.imagePadding == st.imagePadding && r.contImgCount == st.contImgCount + 1
    ensures var c, n := st.container, st.hdrs[st.container].hdr.numImages;
      && r.hdrs == st.hdrs[c := r.hdrs[c]]
      && r.hdrs[c] == SetImageArrayEntry(st.hdrs[c], d.option, st.fileOff, |d.file|, d.dst, d.entry,
                                         d.file, st.imagePadding, hasher).value
      && r.hdrs[c].hdr.numImages == n + EntriesFor(d.option)
      && r.hdrs[c].img[n].offset == st.fileOff && r.hdrs[c].img[n].size == |d.file|
  {
    var c := st.container;
    var h := SetImageArrayEntry(st.hdrs[c], d.option, st.fileOff, |d.file|, d.dst, d.entry,
                                d.file, st.imagePadding, hasher);
    assert h.Success? && h.value.Valid();
    HeadersUpdate(st.hdrs, c, h.value);
    var hdrs := st.hdrs[c := h.value];
    st.(fileOff := st.fileOff + Align(|d.file|, ImagePaddingDefault),
        contImgCount := st.contImgCount + 1, hdrs := hdrs)
  }

  /**
   * NEW_CONTAINER: the next container gets sw_version 0xCAFE, padding 0x400, fuse_version
   * src and flags 0x12; image_padding becomes 0x1000 and the image count restarts.
   */
  function Open(st: LoopState, d: StackEntry): (r: LoopState)
    requires st.Valid() && st.container + 1 < MaxNumOfContainer
    ensures r.Valid() && r.container == st.container + 1
    ensures r.fileOff == st.fileOff
    ensures r.imagePadding == ImagePaddingDefault && r.contImgCount == 0
    ensures var c := st.container + 1; var prev, h := st.hdrs[c], r.hdrs[c];
      && r.hdrs == st.hdrs[c := h]
      && h.hdr.swVersion == NewContainerSwVersion && h.padding == ContainerAlignment
      && h.hdr.fuseVersion == d.src % U8 && h.hdr.flags == NewContainerFlags
      && h.hdr.(swVersion := prev.hdr.swVersion, fuseVersion := prev.hdr.fuseVersion,
                flags := prev.hdr.flags) == prev.hdr
      && h.img == prev.img && h.sigblk == prev.sigblk
  {
    var c := st.container + 1;
    HeaderValid(st.hdrs, c);
    var h := SetContainer(st.hdrs[c], NewContainerSwVersion, ContainerAlignment, d.src);
    HeadersUpdate(st.hdrs, c, h.(hdr := h.hdr.(flags := NewContainerFlags)));
    st.(container := c, imagePadding := ImagePaddingDefault, contImgCount := 0,
        hdrs := st.hdrs[c := h.(hdr := h.hdr.(flags := NewContainerFlags))])
  }

  /** The file space a directive takes: its image size padded to 0x1000, or none. */
  function Pad(d: StackEntry): nat {
    if IsLoopImage(d.option) then Align(|d.file|, ImagePaddingDefault) else 0
  }

  /** A directive as the loop leaves it: an image directive gets src = file_off. */
  function Handled(fileOff: nat, d: StackEntry): StackEntry {
    if IsLoopImage(d.option) then d.(src := fileOff) else d
  }

  /** One iteration of the loop body on the directive d. */
  function Step(st: LoopState, d: StackEntry, hasher: Hasher): (r: Result<LoopState, Error>)
    requires st.Valid() && Fits(st, d) && d.option != NoImg
    ensures r.Failure? <==> IsUnrecognized(d.option)
    ensures r.Failure? ==> r.error == UnrecognizedOption(d.option)
    ensures r.Success? ==> r.value.Valid()
    ensures r.Success? ==> r.value.fileOff == st.fileOff + Pad(d)
    ensures r.Success? ==>
      r.value.container == st.container + (if d.option == NewContainer then 1 else 0)
    ensures IsLoopImage(d.option) ==> r == Success(Register(st, d, hasher))
    ensures d.option == NewContainer ==> r == Success(Open(st, d))
    ensures d.option == Append ==> r == Success(st)
  {
    if IsLoopImage(d.option) then Success(Register(st, d, hasher))
    else if d.option == NewContainer then Success(Open(st, d))
    else if d.option == Append then Success(st)
    else Failure(UnrecognizedOption(d.option))
  }

  /**
   * An image directive: the entry it registers in the current container lies at the file
   * offset the directive records as its src, where the image is later copied.
   */
  lemma RegisteredAtSrc(st: LoopState, d: StackEntry, hasher: Hasher)
    requires st.Valid() && Fits(st, d) && IsLoopImage(d.option)
    ensures var c, n := st.container, st.hdrs[st.container].hdr.numImages;
      Step(st, d, hasher).value.hdrs[c].img[n].offset == Handled(st.fileOff, d).src
  {
  }

  /** The loop stops at the first NO_IMG (or at the end of the stack). */
  predicate Stops(ds: seq<StackEntry>) {
    ds == [] || ds[0].option == NoImg
  }

  /** Every directive the loop reaches satisfies Fits in the state it is reached in. */
  predicate RunFits(st: LoopState, ds: seq<StackEntry>, hasher: Hasher)
    requires st.Valid()
    decreases |ds|
  {
    Stops(ds) ||
    (Fits(st, ds[0]) &&
     var r := Step(st, ds[0], hasher);
     r.Success? ==> RunFits(r.value, ds[1..], hasher))
  }

  /** The loop from state st over the directives ds. */
  function Run(st: LoopState, ds: seq<StackEntry>, hasher: Hasher): (r: Result<LoopState, Error>)
    requires st.Valid() && RunFits(st, ds, hasher)
    ensures r.Success? ==> r.value.Valid()
    decreases |ds|
  {
    if Stops(ds) then Success(st)
    else
      match Step(st, ds[0], hasher)
      case Failure(e) => Failure(e)
      case Success(next) => Run(next, ds[1..], hasher)
  }

  /** The whole loop: from the state before it over the image stack. */
  function Build(ds: seq<StackEntry>, hasher: Hasher): (r: Result<LoopState, Error>)
    requires RunFits(Initial(), ds, hasher)
    ensures r.Success? ==> r.value.Valid()
  {
    Run(Initial(), ds, hasher)
  }

  // ---------------------------------------------------------------- what a run does

  /** The directives the loop reaches: those before the first NO_IMG. */
  function Reached(ds: seq<StackEntry>): (r: nat)
    ensures r <= |ds|
    decreases |ds|
  {
    if Stops(ds) then 0 else 1 + Reached(ds[1..])
  }

  /** The space the image directives among ds take in the file, each padded to 0x1000. */
  function Span(ds: seq<StackEntry>): nat
    decreases |ds|
  {
    if ds == [] then 0 else Pad(ds[0]) + Span(ds[1..])
  }

  /** The NEW_CONTAINER directives among ds. */
  function NewContainers(ds: seq<StackEntry>): nat
    decreases |ds|
  {
    if ds == [] then 0
    else (if ds[0].option == NewContainer then 1 else 0) + NewContainers(ds[1..])
  }

  /** Some directive the loop reaches is rejected. */
  predicate HasUnrecognized(ds: seq<StackEntry>)
    decreases |ds|
  {
    !Stops(ds) && (IsUnrecognized(ds[0].option) || HasUnrecognized(ds[1..]))
  }

  /** The first rejected directive the loop reaches. */
  function FirstUnrecognized(ds: seq<StackEntry>): (o: OptionType)
    requires HasUnrecognized(ds)
    ensures IsUnrecognized(o)
    decreases |ds|
  {
    if IsUnrecognized(ds[0].option) then ds[0].option else FirstUnrecognized(ds[1..])
  }

  /**
   * The loop fails exactly when it reaches a directive it does not recognise, and reports
   * the first such directive.
   */
  lemma {:induction false} RunFails(st: LoopState, ds: seq<StackEntry>, hasher: Hasher)
    requires st.Valid() && RunFits(st, ds, hasher)
    ensures Run(st, ds, hasher).Failure? <==> HasUnrecognized(ds)
    ensures Run(st, ds, hasher).Failure? ==>
      Run(st, ds, hasher).error == UnrecognizedOption(FirstUnrecognized(ds))
    decreases |ds|
  {
    if !Stops(ds) && !IsUnrecognized(ds[0].option) {
      RunFails(Step(st, ds[0], hasher).value, ds[1..], hasher);
    }
  }

  /**
   * On success, file_off has advanced by the padded size of every image directive reached,
   * and the container index by the number of NEW_CONTAINER directives reached.
   */
  lemma {:induction false} RunCounters(st: LoopState, ds: seq<StackEntry>, hasher: Hasher)
    requires st.Valid() && RunFits(st, ds, hasher) && Run(st, ds, hasher).Success?
    ensures Run(st, ds, hasher).value.fileOff == st.fileOff + Span(ds[..Reached(ds)])
    ensures Run(st, ds, hasher).value.container == st.container + NewContainers(ds[..Reached(ds)])
    decreases |ds|
  {
    if Stops(ds) {
      assert ds[..Reached(ds)] == [];
    } else {
      var next := Step(st, ds[0], hasher).value;
      RunCounters(next, ds[1..], hasher);
      assert ds[..Reached(ds)][1..] == ds[1..][..Reached(ds[1..])];
    }
  }

  // ---------------------------------------------------------------- fresh slots

  /**
   * The table set_image_array_entry leaves for kind at slot n of img: one entry at offset
   * with the image's size, whose flags decode to the kind's image type and core and to
   * SHA-384; after SCFW a second entry, its DCD companion on the SCU, at the end of the
   * firmware rounded up to the image padding, entered at the address stored at byte 0x240.
   */
  predicate KindTable(img: seq<BootImage>, n: nat, kind: OptionType, offset: nat, size: nat,
                      file: seq<Byte>, imagePadding: nat)
    requires IsImageKind(kind)
  {
    && n < |img|
    && img[n].offset == offset && img[n].size == size
    && ImgTypeField(img[n].habFlags) == ImgTypeOf(kind)
    && CoreField(img[n].habFlags) == CoreOf(kind)
    && HashTypeOf(img[n].habFlags) == ImageHashAlgoDefault
    && (kind == Scfw ==>
          && n + 1 < |img| && imagePadding > 0 && |file| >= DcdEntryAddrInScfw + 4
          && ImgTypeField(img[n + 1].habFlags) == ImgTypeDcdDdr
          && CoreField(img[n + 1].habFlags) == CoreSc
          && img[n + 1].offset == Align(offset + size, imagePadding)
          && img[n + 1].entry == ReadDcdOffset(file))
  }

  /** On fresh slots, set_image_array_entry leaves the table of the kind. */
  lemma FreshTable(c: FlashHeader, kind: OptionType, offset: nat, size: nat, dst: nat,
                   entry: nat, file: seq<Byte>, imagePadding: nat, hasher: Hasher)
    requires IsImageKind(kind) && CanSetImage(c, kind, offset, size, entry, file, imagePadding)
    requires FreeFrom(c, c.hdr.numImages)
    ensures var r := SetImageArrayEntry(c, kind, offset, size, dst, entry, file, imagePadding, hasher);
      KindTable(r.value.img, c.hdr.numImages, kind, offset, size, file, imagePadding)
  {
    if kind == Scfw {
      ScfwTwoEntries(c, offset, size, dst, entry, file, imagePadding, hasher);
    } else {
      SingleEntryTable(c, kind, offset, size, dst, entry, file, imagePadding, hasher);
    }
  }


  /** Every slot past the ones in use is still zero, as the memset of imx_header left it. */
  predicate Fresh(st: LoopState) {
    forall c :: 0 <= c < |st.hdrs| ==> FreeFrom(st.hdrs[c], st.hdrs[c].hdr.numImages)
  }

  /** Before the loop no slot of either container is in use or written. */
  lemma InitialFresh()
    ensures Fresh(Initial())
  {
    var st := Initial();
    forall c | 0 <= c < |st.hdrs|
      ensures FreeFrom(st.hdrs[c], st.hdrs[c].hdr.numImages)
    {
      assert st.hdrs[c] == StampHeader(ZeroContainer());
    }
  }

  /**
   * One iteration keeps the slots past num_images zero: set_image_array_entry writes only
   * the slots it counts, and set_container and the flags leave the image array alone.
   */
  lemma StepFresh(st: LoopState, d: StackEntry, hasher: Hasher)
    requires st.Valid() && Fits(st, d) && d.option != NoImg && Fresh(st)
    ensures Step(st, d, hasher).Success? ==> Fresh(Step(st, d, hasher).value)
  {
    if IsLoopImage(d.option) {
      RegisterFresh(st, d, hasher);
    } else if d.option == NewContainer {
      OpenFresh(st, d);
    }
  }

  lemma RegisterFresh(st: LoopState, d: StackEntry, hasher: Hasher)
    requires st.Valid() && Fits(st, d) && IsLoopImage(d.option) && Fresh(st)
    ensures Fresh(Register(st, d, hasher))
  {
    var r := Register(st, d, hasher);
    var c, n := st.container, st.hdrs[st.container].hdr.numImages;
    assert FreeFrom(st.hdrs[c], n);
    forall j | n + EntriesFor(d.option) <= j < MaxNumImgs
      ensures r.hdrs[c].img[j] == ZeroImage()
    {
      assert r.hdrs[c].img[j] == st.hdrs[c].img[j];
    }
    assert FreeFrom(r.hdrs[c], r.hdrs[c].hdr.numImages);
    assert r.hdrs[1 - c] == st.hdrs[1 - c];
  }

  lemma OpenFresh(st: LoopState, d: StackEntry)
    requires st.Valid() && st.container + 1 < MaxNumOfContainer && Fresh(st)
    ensures Fresh(Open(st, d))
  {
    var r := Open(st, d);
    var c := st.container + 1;
    assert r.hdrs[c].img == st.hdrs[c].img;
    assert r.hdrs[c].hdr.numImages == st.hdrs[c].hdr.numImages;
    assert FreeFrom(st.hdrs[c], st.hdrs[c].hdr.numImages);
  }

  /** The whole loop keeps the slots past num_images zero. */
  lemma {:induction false} RunFresh(st: LoopState, ds: seq<StackEntry>, hasher: Hasher)
    requires st.Valid() && RunFits(st, ds, hasher) && Fresh(st)
    ensures Run(st, ds, hasher).Success? ==> Fresh(Run(st, ds, hasher).value)
    decreases |ds|
  {
    if !Stops(ds) {
      StepFresh(st, ds[0], hasher);
      if Step(st, ds[0], hasher).Success? {
        RunFresh(Step(st, ds[0], hasher).value, ds[1..], hasher);
      }
    }
  }

  /** The table an image directive registers from st, in the current container at num_images. */
  predicate RegistersTable(st: LoopState, d: StackEntry, hasher: Hasher)
    requires st.Valid() && Fits(st, d) && IsLoopImage(d.option)
  {
    var c := st.container;
    KindTable(Step(st, d, hasher).value.hdrs[c].img, st.hdrs[c].hdr.numImages, d.option,
              st.fileOff, |d.file|, d.file, ImagePaddingDefault)
  }

  /** From a state with fresh slots, an image directive registers the table of its kind. */
  lemma FreshRegisters(st: LoopState, d: StackEntry, hasher: Hasher)
    requires st.Valid() && Fresh(st) && Fits(st, d) && IsLoopImage(d.option)
    ensures RegistersTable(st, d, hasher)
  {
    var c := st.container;
    var h := st.hdrs[c];
    assert FreeFrom(h, h.hdr.numImages);
    assert st.imagePadding == ImagePaddingDefault;
    FreshTable(h, d.option, st.fileOff, |d.file|, d.dst, d.entry, d.file, ImagePaddingDefault, hasher);
    assert Step(st, d, hasher).value.hdrs[c]
        == SetImageArrayEntry(h, d.option, st.fileOff, |d.file|, d.dst, d.entry, d.file,
                              ImagePaddingDefault, hasher).value;
  }

  /**
   * Every image directive the loop reaches, after the directives pre, registers the table of
   * its kind: the per-kind tables hold of every header the loop builds.
   */
  lemma RegisteredTable(pre: seq<StackEntry>, d: StackEntry, hasher: Hasher)
    requires RunFits(Initial(), pre, hasher) && Run(Initial(), pre, hasher).Success?
    requires var st := Run(Initial(), pre, hasher).value; Fits(st, d) && IsLoopImage(d.option)
    ensures RegistersTable(Run(Initial(), pre, hasher).value, d, hasher)
  {
    InitialFresh();
    RunFresh(Initial(), pre, hasher);
    FreshRegisters(Run(Initial(), pre, hasher).value, d, hasher);
  }

  /** A directive the loop reaches and accepts: the run goes on from the state after it. */
  lemma RunStep(st: LoopState, ds: seq<StackEntry>, hasher: Hasher) returns (next: LoopState)
    requires st.Valid() && RunFits(st, ds, hasher) && !Stops(ds) && !IsUnrecognized(ds[0].option)
    ensures Fits(st, ds[0]) && Step(st, ds[0], hasher) == Success(next)
    ensures next.Valid() && RunFits(next, ds[1..], hasher)
    ensures Run(st, ds, hasher) == Run(next, ds[1..], hasher)
  {
    next := Step(st, ds[0], hasher).value;
  }

  /** The directives the loop reaches, as it leaves them, from file offset fileOff on. */
  function Trace(fileOff: nat, ds: seq<StackEntry>): (t: seq<StackEntry>)
    ensures |t| == Reached(ds)
    decreases |ds|
  {
    if Stops(ds) then [] else [Handled(fileOff, ds[0])] + Trace(fileOff + Pad(ds[0]), ds[1..])
  }

  /** Writing x at position i of a sequence: the part up to and including i, and the part after. */
  lemma {:induction false} Overwrite<T>(s: seq<T>, i: nat, x: T, rest: seq<T>)
    requires i < |s|
    ensures s[i := x][i + 1..] == s[i + 1..]
    ensures s[i := x][..i + 1] + rest == s[..i] + ([x] + rest)
  {
    assert s[i := x][..i + 1] == s[..i] + [x];
  }

  /**
   * One more directive handled: if the stack before position idx is the trace so far, the
   * stack with directive idx handled is the trace one directive further on.
   */
  lemma TraceStep(ds: seq<StackEntry>, before: seq<StackEntry>, idx: nat, fileOff: nat,
                  nextOff: nat)
    requires idx < |ds| == |before| && before[idx..] == ds[idx..]
    requires !Stops(ds[idx..]) && nextOff == fileOff + Pad(ds[idx])
    requires Trace(FileOffStart, ds) == before[..idx] + Trace(fileOff, ds[idx..])
    ensures var after := before[idx := Handled(fileOff, ds[idx])];
      && after[idx + 1..] == ds[idx + 1..]
      && Trace(FileOffStart, ds) == after[..idx + 1] + Trace(nextOff, ds[idx + 1..])
  {
    var rest := ds[idx..];
    assert rest[0] == ds[idx] && rest[1..] == ds[idx + 1..];
    assert Trace(fileOff, rest) == [Handled(fileOff, rest[0])] + Trace(nextOff, rest[1..]);
    Overwrite(before, idx, Handled(fileOff, ds[idx]), Trace(nextOff, ds[idx + 1..]));
  }

  /**
   * Entry k of the trace is directive k; an image directive has src set to the start offset
   * plus the space of the images before it.
   */
  lemma {:induction false} TraceAt(fileOff: nat, ds: seq<StackEntry>, k: nat)
    requires k < Reached(ds)
    ensures Trace(fileOff, ds)[k] == Handled(fileOff + Span(ds[..k]), ds[k])
    decreases k
  {
    if k == 0 {
      assert ds[..0] == [];
    } else {
      TraceAt(fileOff + Pad(ds[0]), ds[1..], k - 1);
      assert ds[..k][1..] == ds[1..][..k - 1];
    }
  }

  /** The space of a run of directives is a whole number of 0x1000 pages. */
  lemma {:induction false} SpanAligned(ds: seq<StackEntry>)
    ensures Span(ds) % ImagePaddingDefault == 0
    decreases |ds|
  {
    if ds != [] {
      SpanAligned(ds[1..]);
      ModAdd(Pad(ds[0]), Span(ds[1..]), ImagePaddingDefault);
    }
  }

  /**
   * From the page-aligned start 0x6000 on, every image is registered at a page boundary, and
   * the end of an image rounded up to the padding (where set_image_array_entry puts the DCD
   * entry of an SCFW image) is exactly file_off after that image.
   */
  lemma TraceAligned(fileOff: nat, ds: seq<StackEntry>, k: nat)
    requires fileOff % ImagePaddingDefault == 0
    requires k < Reached(ds) && IsLoopImage(ds[k].option)
    ensures Trace(fileOff, ds)[k].src % ImagePaddingDefault == 0
    ensures Align(Trace(fileOff, ds)[k].src + |ds[k].file|, ImagePaddingDefault)
            == Trace(fileOff, ds)[k].src + Pad(ds[k])
  {
    TraceAt(fileOff, ds, k);
    SpanAligned(ds[..k]);
    ModAdd(fileOff, Span(ds[..k]), ImagePaddingDefault);
    AlignShift(fileOff + Span(ds[..k]), |ds[k].file|, ImagePaddingDefault);
  }
}
