# i.MX8QXP B0 container header builder

This project models the part of `imx-mkimage` that builds the container headers of an
i.MX8QXP B0 boot image (`src/imx8qxb0.c`). It covers five things:

- The image array entry (`boot_img_t`) and how each image kind fills it. The kinds are SECO,
  DCD, AP, M4 and SCFW. An SCFW image also brings a synthetic DCD entry.
- `set_image_hash`: the hash selector in the flags word and the 64-byte digest buffer.
- `read_dcd_offset`.
- The container header (`flash_header_v3_t`): `set_imx_hdr_v3`, `set_container`, and
  `flatten_container_header`. Flattening has two passes:
  - pass one sizes every container;
  - pass two writes the containers into a zero-filled region with an `append` cursor. It
    rebases each image offset in use to the container's own place in the output file.
- The first directive loop of `build_container_qx_b0`. This loop walks the image stack,
  registers images at the running file offset, opens containers and rejects unknown
  directives.

The model is split into modules:

- `LittleEndian`: byte encoders.
- `Alignment`: `ALIGN`.
- `ImageEntry`: entries, flags and digests.
- `Container`: one container, the serialization and the flattening layout.
- `Directives`: the directive loop as a pure state machine (`Step`, `Run`, `Trace`).
- `Builder`: the class `ImxHeader`, whose methods change the header in place. Each method is
  proved to reach the state the value-level functions of the other modules describe.

`ALIGN` is defined in `mkimage_common.h`, which is not part of this model. It is modelled as
rounding up to a multiple of a positive quantum. The same header supplies the `IMG_TYPE_*`,
`CORE_*` and `BOOT_IMG_FLAGS_CORE_SHIFT` values, which are given their upstream values:

- EXEC 3, DCD_DDR 5, SECO 6;
- SC 1, CM4_0 2, CA35 4;
- a core shift of 4.

## Model

| member | source | states |
|---|---|---|
| ImageEntry.DecodeEncodeImage | src/imx8qxb0.c:48-57 | The packed 128-byte little-endian image array entry reads back as the entry that was written. |
| ImageEntry.EncodeDecodeImage | src/imx8qxb0.c:48-57 | Any 128 bytes, read as an entry and written back, are the same bytes. |
| ImageEntry.DigestBuffer | src/imx8qxb0.c:113-128 | The digest buffer is 64 bytes. Its first hash_type/8 bytes are the digest's, or fewer if the backend reported fewer. Every other byte is zero. |
| ImageEntry.HashedEntry | src/imx8qxb0.c:96-128 | A hashed entry differs from the input only in its flags and hash. The flags are the old flags OR the algorithm's selector. The hash is the digest buffer. |
| ImageEntry.SetImageHash | src/imx8qxb0.c:90-131 | It fails exactly when the algorithm is not SHA-256, SHA-384 or SHA-512, reporting the wrong hash type and leaving the entry untouched. Otherwise it yields the hashed entry. |
| ImageEntry.HashSelectorSet | src/imx8qxb0.c:96-107 | On a flags word with clear selector bits, the selector is added and no other bit changes. The word then selects exactly the requested algorithm. |
| ImageEntry.DigestTailZero | src/imx8qxb0.c:113-128 | After hashing, every hash byte from hash_type/8 on is zero. |
| ImageEntry.ReadDcdOffset | src/imx8qxb0.c:198-228 | The DCD address is the u32 whose little-endian bytes sit at offset 0x240 of the SCFW image. |
| ImageEntry.Dec64 | src/imx8qxb0.c:251 | dst = entry - 1 in 64-bit unsigned arithmetic: the result plus one is the entry modulo 2^64. |
| ImageEntry.FillEntry | src/imx8qxb0.c:234-281 | Fills one entry per kind: offset and size written; flags = old flags OR type OR core OR the SHA-384 selector; SHA-384 digest of the file stored; SECO keeps its addresses; DCD has dst = entry - 1; AP and M4 have dst = entry, and AP has metadata 0x001355FC; SCFW has dst = entry = 0x1ffe0000. |
| ImageEntry.DcdCompanion | src/imx8qxb0.c:282-295 | The DCD entry after an SCFW image gets DCD/SCU flags and the SHA-384 digest of an empty file. Its offset is ALIGN(offset + size, image_padding). Its entry is the address read from the firmware, with dst one below it. Size, metadata and IV are unchanged. |
| ImageEntry.EntryFlagsDecode | src/imx8qxb0.c:239-288 | The flags word of a filled fresh slot decodes to the kind's image type, the kind's core and SHA-384. |
| ImageEntry.EntryFlagsSum | src/imx8qxb0.c:239-288 | The flags word of a filled fresh slot is type + 16 * core + 0x100. |
| ImageEntry.EntryFlagsDistinct | src/imx8qxb0.c:239-288 | Entries of two different kinds carry different flags words. |
| Container.DecodeEncodeHeader | src/imx8qxb0.c:59-73 | The 16 bytes of the fixed container header read back as the header that was written. |
| Container.EncodeDecodeHeader | src/imx8qxb0.c:59-73 | Any 16 bytes, decoded and re-encoded, are the same bytes. |
| Container.StampHeader | src/imx8qxb0.c:80-88 | set_imx_hdr_v3 sets tag 0x87 and version 0 and changes nothing else. |
| Container.SetContainer | src/imx8qxb0.c:303-308 | Sets the software version (truncated to u16), the padding quantum and the fuse version (truncated to u8). Nothing else changes. |
| Container.SetImageArrayEntry | src/imx8qxb0.c:230-301 | It fails exactly on a kind other than SECO, DCD, AP, M4 and SCFW. Otherwise slot num_images gets the filled entry, and for SCFW the next slot gets the DCD companion. num_images grows by the slots written (2 for SCFW, else 1). The header, signature block, padding and every other slot are unchanged. |
| Container.ScfwTwoEntries | src/imx8qxb0.c:274-296 | SCFW on fresh slots writes two entries. The first is the firmware: executable, on the SCU, loaded at 0x1ffe0000, SHA-384. The second is a DCD entry at the padded end of the firmware, with size 0, the entry read from the firmware and dst one less. |
| Container.SingleEntryTable | src/imx8qxb0.c:239-273 | Any other kind on a fresh slot writes one entry. Its type, core, addresses and metadata are as the kind prescribes. |
| Directives.FreshTable | src/imx8qxb0.c:230-301 | On fresh slots, the entry at num_images has the given offset and size, and its flags decode to the kind's type and core and to SHA-384. For SCFW the next entry is the DCD companion: DCD type on the SCU, at the padded end of the firmware, entered at the address stored at byte 0x240. |
| Container.Sized | src/imx8qxb0.c:143-158 | Pass one sets sig_blk_offset = 16 + 128 * num_images and length = sig_blk_offset + signature block size. Nothing else changes. |
| Container.AlignedLength | src/imx8qxb0.c:160 | A container's space is a multiple of its padding, at least its length and less than its length plus the padding. |
| Container.StartAligned | src/imx8qxb0.c:143-161 | When every padding quantum before it is a multiple of q, each container starts at a multiple of q. |
| Container.RebasedAt | src/imx8qxb0.c:180-183 | Rebasing moves each entry in use down by the base and leaves the other slots as they were. |
| Container.EncodeImagesAt | src/imx8qxb0.c:184-187 | Entry j is the j-th 128-byte record of the appended entries. |
| Container.EmittedImage | src/imx8qxb0.c:172-193 | Entry j of an emitted container is the caller's entry with its offset made relative to container start + file offset. That offset does not underflow. |
| Container.FlatAt | src/imx8qxb0.c:172-193 | Container i, as emitted, is serialized at its start in the region and fills exactly the space pass one reserved for it. |
| Container.SerializeHeader | src/imx8qxb0.c:178 | A serialized container starts with its 16-byte header. |
| Container.SerializeImage | src/imx8qxb0.c:184-187 | Entry j in use lies right after the header and the entries before it. |
| Container.SerializeSignature | src/imx8qxb0.c:189-192 | The signature block follows the entries verbatim, and the bytes after it up to the aligned length are zero. |
| Container.ReadHeader | src/imx8qxb0.c:172-193 | The header bytes of a container found in the region decode to its header. |
| Container.ReadImage | src/imx8qxb0.c:172-193 | The bytes of entry j of a container found in the region decode to that entry. |
| Container.ReadSignature | src/imx8qxb0.c:172-193 | The signature block of a container found in the region is there verbatim, followed by zeros. |
| Directives.Initial | src/imx8qxb0.c:312-336 | Before the loop, file_off is 0x6000, the container index is -1, and both containers are zero headers stamped with the B0 tag and version. |
| Directives.Register | src/imx8qxb0.c:345-356 | An image directive applies set_image_array_entry to the current container. The new entry sits at slot num_images with offset = file_off and size = the image size, and num_images grows by the entries written. The other container is unchanged. The container index and image_padding are kept, cont_img_count grows by one, and file_off advances by the image size padded to 0x1000. |
| Directives.RegisteredAtSrc | src/imx8qxb0.c:351-352 | The entry an image directive registers lies at the file offset the directive records as its src. |
| Directives.Open | src/imx8qxb0.c:358-365 | NEW_CONTAINER moves to the next container. That container gets sw_version 0xCAFE, padding 0x400, fuse_version src (truncated to u8) and flags 0x12; its other header fields, entries and signature block are unchanged. The other container is unchanged. image_padding becomes 0x1000, cont_img_count restarts at 0 and file_off is kept. |
| Directives.Step | src/imx8qxb0.c:343-373 | One iteration fails exactly on an unrecognised directive, with that option. Otherwise the loop invariant is kept, file_off advances by the directive's padded size, and the container index grows by one exactly on NEW_CONTAINER. An image directive has Register's effect on the headers and NEW_CONTAINER has Open's. APPEND leaves the state unchanged. |
| Directives.Run | src/imx8qxb0.c:343-373 | The loop keeps its invariant: both headers well formed, the index in -1..1, and image_padding 0 before a container is opened and 0x1000 after. |
| Directives.RunFails | src/imx8qxb0.c:343-373 | The loop fails if and only if it reaches an unrecognised directive, and it reports the first one. |
| Directives.RunCounters | src/imx8qxb0.c:343-373 | On success, file_off has advanced by the padded sizes of the image directives reached. The container index has grown by the number of NEW_CONTAINER directives reached. |
| Directives.InitialFresh | src/imx8qxb0.c:326-337 | Before the loop no slot of either container is in use, and every slot is zero. |
| Directives.StepFresh | src/imx8qxb0.c:343-373 | One iteration keeps every slot past num_images zero, in both containers: set_image_array_entry writes only the slots it counts. |
| Directives.RunFresh | src/imx8qxb0.c:343-373 | The whole loop keeps every slot past num_images zero. |
| Directives.FreshRegisters | src/imx8qxb0.c:349-351 | From a state with fresh slots, an image directive leaves the table of its kind (as in Directives.FreshTable) in the current container, at file_off with the image's size. |
| Directives.RegisteredTable | src/imx8qxb0.c:343-356 | Every image directive the loop reaches, whatever directives came before it, leaves the table of its kind. So the per-kind tables hold of every header the loop builds. |
| Directives.TraceAt | src/imx8qxb0.c:349-354 | Directive k as the loop leaves it: an image directive has src = the start offset plus the padded sizes of the images before it; others are unchanged. |
| Directives.SpanAligned | src/imx8qxb0.c:354 | The space a run of directives takes is a whole number of 0x1000 pages. |
| Directives.TraceAligned | src/imx8qxb0.c:289 | Every image is registered at a page boundary. The DCD companion's offset, ALIGN(offset + size, image_padding), is exactly file_off after this image. |
| Builder.ImxHeader.constructor | src/imx8qxb0.c:326 | The memset leaves both containers zero. |
| Builder.ImxHeader.SetImxHdrV3 | src/imx8qxb0.c:80-88 | Container contId becomes its stamped form. The other container is unchanged. |
| Builder.ImxHeader.SetContainer | src/imx8qxb0.c:303-308 | Container contId becomes what Container.SetContainer describes. The other container is unchanged. |
| Builder.ImxHeader.SetImageHash | src/imx8qxb0.c:90-131 | An unsupported algorithm is reported and nothing changes. Otherwise slot j of container ci becomes the hashed entry: the selector is OR-ed in, and the zeroed buffer is filled by a loop copying the digest bytes. |
| Builder.ImxHeader.SetImageArrayEntry | src/imx8qxb0.c:230-301 | For an accepted kind, container ci becomes what Container.SetImageArrayEntry describes. For another kind, the error is reported and only the early write of offset and size into slot num_images remains. |
| Builder.ImxHeader.PutSlot | src/imx8qxb0.c:232-235 | Slot j of container ci becomes the given entry, and nothing else changes. |
| Builder.ImxHeader.FillAccepted | src/imx8qxb0.c:237-300 | With offset and size already in slot num_images, an accepted kind leaves container ci as Container.SetImageArrayEntry describes. The other container is unchanged. |
| Builder.ImxHeader.FirstSlot | src/imx8qxb0.c:238-281 | The switch case of the kind, then set_image_hash, turns slot n into FillEntry of its old value with the file's SHA-384 digest. Nothing else changes. |
| Builder.ImxHeader.ScfwCompanion | src/imx8qxb0.c:283-300 | The SCFW tail: num_images counts the firmware slot, slot n+1 becomes the DCD companion, and the final increment counts it too, so num_images ends at n+2. |
| Builder.ImxHeader.SetNumImages | src/imx8qxb0.c:300 | num_images of container ci becomes the given count, and nothing else changes. |
| Builder.ImxHeader.TypeSlot | src/imx8qxb0.c:239-281 | The switch's type-dependent writes on slot n: flags, addresses and metadata per kind. |
| Builder.ImxHeader.DcdSlot | src/imx8qxb0.c:282-295 | The second slot of an SCFW image becomes the DCD companion. |
| Builder.SetImageArraySteps | src/imx8qxb0.c:274-300 | The sequence of writes: fill slot n, count it, and for SCFW fill slot n+1 and count again. It yields Container.SetImageArrayEntry. |
| Builder.EarlyWrite | src/imx8qxb0.c:234-235 | Writing offset and size before the switch does not change the result for an accepted kind. |
| Builder.ImxHeader.SizeContainers | src/imx8qxb0.c:143-161 | Pass one sizes the first n containers. The total it returns is the sum of their aligned lengths. |
| Builder.ImxHeader.SizeContainer | src/imx8qxb0.c:145-160 | One iteration of pass one: the container is sized and its aligned length is returned. |
| Builder.AppendBytes | src/imx8qxb0.c:133 | append: the bytes are copied at the cursor, the rest of the buffer is unchanged, and the cursor moves past them. |
| Builder.AppendAt | src/imx8qxb0.c:133 | append on a zero-filled tail: the buffer holds what was written so far plus the new bytes, then zeros. |
| Builder.RebaseOffsets | src/imx8qxb0.c:181-183 | The rebasing loop over the first n entries: each offset minus the base, the other entries unchanged. |
| Builder.RebaseEntries | src/imx8qxb0.c:180-183 | Rebasing a sized container at its start yields the emitted container. |
| Builder.ImxHeader.RebaseContainer | src/imx8qxb0.c:180-183 | In place: container i becomes its emitted form, and the other container is unchanged. |
| Builder.ImxHeader.AppendEntries | src/imx8qxb0.c:184-187 | The entries in use are appended one after the other. |
| Builder.ImxHeader.EmitContainer | src/imx8qxb0.c:173-193 | One iteration of pass two writes header, rebased entries, signature block and zero padding, exactly to the next container's start. The container becomes its emitted form. |
| Builder.ImxHeader.EmitContainers | src/imx8qxb0.c:172-193 | Pass two fills the whole region with the flattened bytes and leaves the containers emitted. |
| Builder.ImxHeader.Flatten | src/imx8qxb0.c:135-196 | Returns a fresh region whose size is the sum of the aligned lengths. It holds each container, sized and rebased, at its start. Each container's offsets are made relative exactly once. |
| Builder.FlattenedAt | src/imx8qxb0.c:172-193 | After flattening, each of the first n containers is its emitted form and the others are untouched. |
| Builder.ImxHeader.SetFlags | src/imx8qxb0.c:362 | Only the flags of container ci change. |
| Builder.ImxHeader.PlaceImage | src/imx8qxb0.c:349-351 | An image directive's set_image_array_entry leaves the headers Register describes. |
| Builder.ImxHeader.OpenContainer | src/imx8qxb0.c:358-362 | NEW_CONTAINER leaves the headers Open describes: the next container gets sw_version 0xCAFE, padding 0x400, fuse_version src (truncated to u8) and flags 0x12, and the other container is unchanged. |
| Builder.ImxHeader.TakeImage | src/imx8qxb0.c:345-356 | An image directive: src = file_off is written into the stack, file_off advances by the padded size and cont_img_count by one. The new loop variables and headers are the state Step gives (Register's), and the run continues from it. |
| Builder.ImxHeader.TakeNewContainer | src/imx8qxb0.c:358-365 | NEW_CONTAINER: the index grows by one, image_padding is 0x1000 and cont_img_count restarts at 0. The new loop variables and headers are the state Step gives (Open's), and the run continues from it. |
| Builder.ImxHeader.HandleDirective | src/imx8qxb0.c:344-372 | The error is reported exactly when the directive is unrecognised, and it names that directive and is the run's error. Otherwise the returned file_off, container index, image_padding, cont_img_count and the headers are exactly the state Step gives, so APPEND changes none of them. The directive is left in the stack as Trace describes. |
| Builder.ImxHeader.Advance | src/imx8qxb0.c:343-374 | The round reports an error exactly when directive idx is unrecognised, and that error is the whole run's. Otherwise one round keeps the loop invariant: the stack up to idx is the trace, the rest is untouched, and the rest of the run is the whole run. |
| Builder.ImxHeader.GenerateHeaders | src/imx8qxb0.c:340-375 | The loop fails exactly when Run fails, with its error. On success it leaves Run's headers, file_off and index. The stack holds the trace followed by the directives not reached. |
| Builder.Stopped | src/imx8qxb0.c:343 | Where the loop stops, the run has ended in the current state. |
| Builder.NewHeader | src/imx8qxb0.c:326-336 | The zeroed header with both containers stamped is the state before the loop. |
| Builder.BuildContainerQxB0 | src/imx8qxb0.c:310-375 | The header-generation part of build_container_qx_b0 does what Build does from that state. |

## Left out

- The digest backend (`popen` of `sha<N>sum`, `fgets` and hex parsing) is the `hasher` parameter. It gives the digest bytes of a file for an algorithm width. Failures to run it or to read from it are not modelled.
- File access is not modelled. `open`, `fstat` and `mmap` in `read_dcd_offset` and `check_file` in the loop are replaced by the file's bytes, carried in each stack entry, and the image size is their length.
- Messages on stdout and stderr, including the `CST:` offsets, are not modelled.
- Three exits have an error value in the model: the wrong hash type, the unrecognised image type and the unrecognised directive.
- The exit when `calloc` fails in `flatten_container_header` has no counterpart. The model's allocation of the region cannot fail.
- The exit on a NULL image stack in `build_container_qx_b0` has no counterpart, because the model's stack is always an array.
- The unused `dcd_len`, `flash_offset` and `hdr_base` parameters of `set_imx_hdr_v3`, the `dst` parameter of `set_image_array_entry`, and the `dcd_table` of the header are not modelled. `cont_img_count` is kept but read by nothing, as in the source.
- The rest of `build_container_qx_b0` is not modelled: opening the output file, copying APPEND images, seeking to 0x400, writing the flattened header and copying the images. The model's `Flatten` is what that part would write.
- Integer widths are preconditions, not wrap-around:
  - a slot is free for every entry written (`CanSetImage`);
  - offsets and sizes fit in u32;
  - for SCFW, `Align(offset + size, image_padding) < U32`, so the DCD companion's offset fits its u32 field (`CanSetImage`). The source never checks this bound;
  - container lengths and the u16 `size` of pass one do not wrap (`Sizable`, `Start(fhdr, n) < U16`);
  - `file_off` stays below 2^31;
  - no image directive comes before the first NEW_CONTAINER, because the source would write `fhdr[-1]`;
  - there is no third NEW_CONTAINER;
  - image offsets are not below their container's position (`Layable`);
  - an SCFW image is at least 0x244 bytes long, so the u32 at 0x240 lies inside it (`CanSetImage`, `ReadDcdOffset`). `read_dcd_offset` does not check this and reads past a shorter mapping.
- Two source truncations are written out rather than assumed: `entry - 1` wrapping in u64, and `sw_version` and `fuse_version` in u16/u8.
- The flags word is a natural number, and `|=` is modelled bitwise (`BitOr`) on it.
- The stack ends at its first NO_IMG or at its end, whichever comes first. The source needs a NO_IMG terminator.
- On an error, the model returns what is reached at that point. The source exits the process instead.
- Builder.RebaseEntries: rebasing is computed on a copy of the container's entries and then stored back whole. It does not write each entry in place inside the header; the final state is the same.
