/**
 * One image array entry (boot_img_t) of an i.MX8QXP B0 container: its fields, its fixed
 * 128-byte little-endian encoding, and the per-image-type rules that fill it
 * (set_image_hash, read_dcd_offset and the switch of set_image_array_entry).
 */
module ImageEntry {
  import opened LittleEndian
  import opened Wrappers
  import opened Alignment

  const U32: nat := 0x1_0000_0000
  const U64: nat := 0x1_0000_0000_0000_0000

  const IvMaxLen: nat := 32
  const HashMaxLen: nat := 64
  const ImgArrayEntrySize: nat := 128

  const ImgFlagHashSha256: nat := 0x000
  const ImgFlagHashSha384: nat := 0x100
  const ImgFlagHashSha512: nat := 0x200

  const HashTypeSha256: nat := 256
  const HashTypeSha384: nat := 384
  const HashTypeSha512: nat := 512
  const ImageHashAlgoDefault: nat := 384

  /** Byte position, inside an SCFW image, of the DCD entry address. */
  const DcdEntryAddrInScfw: nat := 0x240
  /** Load and entry address of the SCFW in the SCU's memory. */
  const ScfwLoadAddr: nat := 0x1ffe0000
  /** Metadata word the boot ROM expects in an AP image entry. */
  const ApMeta: nat := 0x001355FC

  // Image types and cores of the flags word (values of the shared mkimage header).
  const ImgTypeExec: nat := 0x03
  const ImgTypeDcdDdr: nat := 0x05
  const ImgTypeSeco: nat := 0x06
  const ImgTypeWidth: nat := 4            // mask 0x0F: bits 0-3, below the core field
  const CoreSc: nat := 1
  const CoreCm40: nat := 2
  const CoreCa35: nat := 4
  const BootImgFlagsCoreShift: nat := 4
  const CoreWidth: nat := 4               // mask 0xF0 once shifted
  const HashSelectorShift: nat := 8       // the IMG_FLAG_HASH_* selector, bits 8-9
  const HashSelectorWidth: nat := 2

  /** The directive / image kinds of the image stack (option_type_t). */
  datatype OptionType =
    | NoImg | Dcd | Scfw | Seco | M4 | Ap | NewContainer | Append
    | OtherOption(code: nat)  // every other enumerator of option_type_t

  /**
   * What the builder reports where set_image_hash, set_image_array_entry and
   * build_container_qx_b0 print a message and exit.
   */
  datatype Error =
    | WrongHashType(hashType: nat)
    | UnrecognizedImageType(kind: OptionType)
    | UnrecognizedOption(option: OptionType)

  /**
   * The digest backend: given the algorithm width in bits and the bytes of a file, the
   * digest bytes it reports (a sha<N>sum run whose hex output is parsed).
   */
  type Hasher = (nat, seq<Byte>) -> seq<Byte>

  datatype BootImage = BootImage(
    offset: nat,      // u32: absolute file offset while building, container-relative once flattened
    size: nat,        // u32
    dst: nat,         // u64
    entry: nat,       // u64
    habFlags: nat,    // u32 bit field: image type, core, hash selector
    meta: nat,        // u32
    hash: seq<Byte>,  // HashMaxLen bytes
    iv: seq<Byte>)    // IvMaxLen bytes
  {
    predicate Valid() {
      offset < U32 && size < U32 && dst < U64 && entry < U64 && habFlags < U32 && meta < U32
      && |hash| == HashMaxLen && |iv| == IvMaxLen
    }
  }

  /** An entry as left by the memset of the whole header. */
  function ZeroImage(): (z: BootImage)
    ensures z.Valid()
  {
    BootImage(0, 0, 0, 0, 0, 0, Zeros(HashMaxLen), Zeros(IvMaxLen))
  }

  // ---------------------------------------------------------------- encoding

  /** The 128-byte little-endian image array entry. */
  function EncodeImage(m: BootImage): (r: seq<Byte>)
    requires m.Valid()
    ensures |r| == ImgArrayEntrySize
  {
    Pow256Widths();
    Le(m.offset, 4) + Le(m.size, 4) + Le(m.dst, 8) + Le(m.entry, 8)
    + Le(m.habFlags, 4) + Le(m.meta, 4) + m.hash + m.iv
  }

  /** Reads an image array entry back field by field. */
  function DecodeImage(s: seq<Byte>): (m: BootImage)
    requires |s| == ImgArrayEntrySize
    ensures m.Valid()
  {
    Pow256Widths();
    BootImage(FromLe(s[0..4]), FromLe(s[4..8]), FromLe(s[8..16]), FromLe(s[16..24]),
              FromLe(s[24..28]), FromLe(s[28..32]), s[32..96], s[96..128])
  }

  /** Where each field lies in the 128-byte entry. */
  lemma EncodeImageFields(m: BootImage)
    requires m.Valid()
    ensures Pow256(4) == U32 && Pow256(8) == U64
    ensures var s := EncodeImage(m);
      && s[0..4] == Le(m.offset, 4) && s[4..8] == Le(m.size, 4)
      && s[8..16] == Le(m.dst, 8) && s[16..24] == Le(m.entry, 8)
      && s[24..28] == Le(m.habFlags, 4) && s[28..32] == Le(m.meta, 4)
      && s[32..96] == m.hash && s[96..128] == m.iv
  {
    Pow256Widths();
    var s := EncodeImage(m);
    var x1 := Le(m.offset, 4);
    var x2 := x1 + Le(m.size, 4);
    var x3 := x2 + Le(m.dst, 8);
    var x4 := x3 + Le(m.entry, 8);
    var x5 := x4 + Le(m.habFlags, 4);
    var x6 := x5 + Le(m.meta, 4);
    var x7 := x6 + m.hash;
    assert s[..128] == x7 + m.iv;
    LastField(s, x7, m.iv);
    LastField(s, x6, m.hash);
    LastField(s, x5, Le(m.meta, 4));
    LastField(s, x4, Le(m.habFlags, 4));
    LastField(s, x3, Le(m.entry, 8));
    LastField(s, x2, Le(m.dst, 8));
    LastField(s, x1, Le(m.size, 4));
    LastField(s, [], x1);
  }

  lemma DecodeEncodeImage(m: BootImage)
    requires m.Valid()
    ensures DecodeImage(EncodeImage(m)) == m
  {
    EncodeImageFields(m);
    FromLeLe(m.offset, 4);
    FromLeLe(m.size, 4);
    FromLeLe(m.dst, 8);
    FromLeLe(m.entry, 8);
    FromLeLe(m.habFlags, 4);
    FromLeLe(m.meta, 4);
  }

  /** Any 128 bytes, read as an entry and written back, are the same bytes. */
  lemma {:induction false} EncodeDecodeImage(s: seq<Byte>)
    requires |s| == ImgArrayEntrySize
    ensures EncodeImage(DecodeImage(s)) == s
  {
    var e := EncodeImage(DecodeImage(s));
    EncodeImageFields(DecodeImage(s));
    LeFromLe(s[0..4]);
    LeFromLe(s[4..8]);
    LeFromLe(s[8..16]);
    LeFromLe(s[16..24]);
    LeFromLe(s[24..28]);
    LeFromLe(s[28..32]);
    SameOn(e, s, 0, 4);
    SameOn(e, s, 4, 8);
    SameOn(e, s, 8, 16);
    SameOn(e, s, 16, 24);
    SameOn(e, s, 24, 28);
    SameOn(e, s, 28, 32);
    SameOn(e, s, 32, 96);
    SameOn(e, s, 96, 128);
  }

  // ---------------------------------------------------------------- the flags word

  function Pow2(n: nat): (p: nat)
    ensures p > 0
  {
    if n == 0 then 1 else 2 * Pow2(n - 1)
  }

  lemma {:induction false} Pow2Add(a: nat, b: nat)
    ensures Pow2(a + b) == Pow2(a) * Pow2(b)
    decreases a
  {
    if a > 0 {
      Pow2Add(a - 1, b);
      Associate(2, Pow2(a - 1), Pow2(b));
    }
  }

  lemma Pow2Values()
    ensures Pow2(4) == 16 && Pow2(8) == 256 && Pow2(32) == U32
  {
    assert Pow2(4) == 16;
    Pow2Add(4, 4);
    Pow2Add(8, 8);
    Pow2Add(16, 16);
  }

  /** Bitwise OR of two naturals, least significant bit first. */
  function BitOr(a: nat, b: nat): nat
    decreases a + b
  {
    if a == 0 then b
    else if b == 0 then a
    else 2 * BitOr(a / 2, b / 2) + (if a % 2 == 1 || b % 2 == 1 then 1 else 0)
  }

  /** flags |= bits on the u32 flags word. */
  function OrFlags(flags: nat, bits: nat): (r: nat)
    requires flags < U32 && bits < U32
    ensures r < U32
  {
    Pow2Values();
    BitOrBound(flags, bits, 32);
    BitOr(flags, bits)
  }

  /** The w-bit field of flags that starts at bit k: (flags >> k) & (2^w - 1). */
  function Field(flags: nat, k: nat, w: nat): (v: nat)
    ensures v < Pow2(w)
  {
    (flags / Pow2(k)) % Pow2(w)
  }

  /** No bit is set in both a and b. */
  predicate Disjoint(a: nat, b: nat)
    decreases a + b
  {
    a == 0 || b == 0 || ((a % 2 == 0 || b % 2 == 0) && Disjoint(a / 2, b / 2))
  }

  /** OR-ing two n-bit values gives an n-bit value. */
  lemma {:induction false} BitOrBound(a: nat, b: nat, n: nat)
    requires a < Pow2(n) && b < Pow2(n)
    ensures BitOr(a, b) < Pow2(n)
    decreases n
  {
    if a != 0 && b != 0 {
      BitOrBound(a / 2, b / 2, n - 1);
    }
  }

  /** OR-ing values with no common bit adds them. */
  lemma {:induction false} BitOrAdd(a: nat, b: nat)
    requires Disjoint(a, b)
    ensures BitOr(a, b) == a + b
    decreases a + b
  {
    if a != 0 && b != 0 {
      BitOrAdd(a / 2, b / 2);
    }
  }

  lemma HalfDiv(x: nat, p: nat)
    requires p > 0
    ensures (x / 2) / p == x / (2 * p)
  {
    var q, r := x / (2 * p), x % (2 * p);
    DivMod(x, 2 * p);
    var m := p * q;
    Associate(2, p, q);
    assert x == 2 * m + r;
    DivMod(r, 2);
    DivOfMultiple(x, 2, m + r / 2, r % 2);
    assert x / 2 == q * p + r / 2;
    assert r / 2 < p;
    DivOfMultiple(x / 2, p, q, r / 2);
  }

  lemma HalfMod(x: nat, p: nat)
    requires p > 0 && x % (2 * p) == 0
    ensures x % 2 == 0 && (x / 2) % p == 0
  {
    var q := x / (2 * p);
    DivMod(x, 2 * p);
    var m := p * q;
    Associate(2, p, q);
    assert x == 2 * m;
    DivOfMultiple(x, 2, m, 0);
    assert x / 2 == q * p;
    DivOfMultiple(x / 2, p, q, 0);
  }

  /** A w-bit value placed at bit k, where a has that field clear, shares no bit with a. */
  lemma {:induction false} DisjointField(a: nat, v: nat, k: nat, w: nat)
    requires Field(a, k, w) == 0 && v < Pow2(w)
    ensures Disjoint(a, v * Pow2(k))
    decreases k + w
  {
    if a == 0 || v == 0 {
    } else if k > 0 {
      HalfDiv(a, Pow2(k - 1));
      DisjointField(a / 2, v, k - 1, w);
      assert v * Pow2(k) == 2 * (v * Pow2(k - 1));
    } else {
      HalfMod(a, Pow2(w - 1));
      DisjointField(a / 2, v / 2, 0, w - 1);
    }
  }

  /** The field written by adding a w-bit value at bit k, into a clear field, reads back. */
  lemma FieldOfSum(a: nat, v: nat, k: nat, w: nat)
    requires Field(a, k, w) == 0 && v < Pow2(w)
    ensures Field(a + v * Pow2(k), k, w) == v
  {
    ShiftAdd(a, v, Pow2(k), Pow2(w));
  }

  /** FieldOfSum with the two powers of two as plain divisors. */
  lemma ShiftAdd(a: nat, v: nat, p: nat, q: nat)
    requires p > 0 && q > 0 && (a / p) % q == 0 && v < q
    ensures ((a + v * p) / p) % q == v
  {
    DivAddMultiple(a, v, p);
    ModAddSmall(a / p, v, q);
  }

  // ---------------------------------------------------------------- set_image_hash

  predicate SupportedHash(hashType: nat) {
    hashType == HashTypeSha256 || hashType == HashTypeSha384 || hashType == HashTypeSha512
  }

  /** The algorithm selector OR-ed into the flags word. */
  function HashFlag(hashType: nat): (f: nat)
    requires SupportedHash(hashType)
    ensures f < U32
  {
    if hashType == HashTypeSha256 then ImgFlagHashSha256
    else if hashType == HashTypeSha384 then ImgFlagHashSha384
    else ImgFlagHashSha512
  }

  /** The algorithm a flags word selects (0 for the unused selector value 3). */
  function HashTypeOf(flags: nat): nat {
    var sel := Field(flags, HashSelectorShift, HashSelectorWidth);
    if sel == 0 then HashTypeSha256 else if sel == 1 then HashTypeSha384
    else if sel == 2 then HashTypeSha512 else 0
  }

  /**
   * The 64-byte digest buffer: zeroed, then the first hash_type/8 digest bytes (fewer if the
   * backend reported fewer).
   */
  function DigestBuffer(hashType: nat, digest: seq<Byte>): (buf: seq<Byte>)
    requires SupportedHash(hashType)
    ensures |buf| == HashMaxLen
    ensures forall i :: 0 <= i < HashMaxLen ==>
      buf[i] == (if i < hashType / 8 && i < |digest| then digest[i] else 0)
  {
    var k := if |digest| < hashType / 8 then |digest| else hashType / 8;
    digest[..k] + Zeros(HashMaxLen - k)
  }

  /** An entry after a successful set_image_hash: selector OR-ed into the flags, digest stored. */
  function HashedEntry(img: BootImage, hashType: nat, digest: seq<Byte>): (m: BootImage)
    requires img.Valid() && SupportedHash(hashType)
    ensures m.Valid()
    ensures m == img.(habFlags := m.habFlags, hash := m.hash)
    ensures m.habFlags == OrFlags(img.habFlags, HashFlag(hashType))
    ensures m.hash == DigestBuffer(hashType, digest)
  {
    img.(habFlags := OrFlags(img.habFlags, HashFlag(hashType)), hash := DigestBuffer(hashType, digest))
  }

  /**
   * set_image_hash on an entry, with the digest the backend reports for the file; an
   * unsupported algorithm is rejected before the entry is touched.
   */
  function SetImageHash(img: BootImage, hashType: nat, digest: seq<Byte>): (r: Result<BootImage, Error>)
    requires img.Valid()
    ensures r.Failure? <==> !SupportedHash(hashType)
    ensures r.Failure? ==> r.error == WrongHashType(hashType)
    ensures r.Success? ==> r.value == HashedEntry(img, hashType, digest)
  {
    if !SupportedHash(hashType) then Failure(WrongHashType(hashType))
    else Success(HashedEntry(img, hashType, digest))
  }

  /**
   * set_image_hash on a flags word whose selector bits were clear: the selector is added to
   * the word, every other bit stays as it was, and the word now selects the requested
   * algorithm.
   */
  lemma HashSelectorSet(flags: nat, hashType: nat)
    requires flags < U32 && SupportedHash(hashType)
    requires Field(flags, HashSelectorShift, HashSelectorWidth) == 0
    ensures OrFlags(flags, HashFlag(hashType)) == flags + HashFlag(hashType)
    ensures HashTypeOf(OrFlags(flags, HashFlag(hashType))) == hashType
  {
    Pow2Values();
    var sel := if hashType == HashTypeSha256 then 0 else if hashType == HashTypeSha384 then 1 else 2;
    assert HashFlag(hashType) == sel * Pow2(HashSelectorShift);
    DisjointField(flags, sel, HashSelectorShift, HashSelectorWidth);
    BitOrAdd(flags, HashFlag(hashType));
    FieldOfSum(flags, sel, HashSelectorShift, HashSelectorWidth);
  }

  /** Every digest set on an entry leaves the bytes after hash_type/8 zero. */
  lemma DigestTailZero(img: BootImage, hashType: nat, digest: seq<Byte>, i: nat)
    requires img.Valid() && SupportedHash(hashType)
    requires hashType / 8 <= i < HashMaxLen
    ensures HashedEntry(img, hashType, digest).hash[i] == 0
  {}

  // ---------------------------------------------------------------- read_dcd_offset

  /** The little-endian u32 stored at byte 0x240 of an SCFW image. */
  function ReadDcdOffset(scfw: seq<Byte>): (addr: nat)
    requires |scfw| >= DcdEntryAddrInScfw + 4
    ensures addr < U32
    ensures Le(addr, 4) == scfw[DcdEntryAddrInScfw..DcdEntryAddrInScfw + 4]
  {
    Pow256Widths();
    LeFromLe(scfw[DcdEntryAddrInScfw..DcdEntryAddrInScfw + 4]);
    FromLe(scfw[DcdEntryAddrInScfw..DcdEntryAddrInScfw + 4])
  }

  // ---------------------------------------------------------------- per-type entry rules

  /** entry - 1 in 64-bit unsigned arithmetic (0 wraps to 0xFFFF_FFFF_FFFF_FFFF). */
  function Dec64(x: nat): (r: nat)
    requires x < U64
    ensures r < U64 && (r + 1) % U64 == x
  {
    if x == 0 then U64 - 1 else x - 1
  }

  /** The kinds set_image_array_entry accepts. */
  predicate IsImageKind(kind: OptionType) {
    kind == Seco || kind == Dcd || kind == Ap || kind == M4 || kind == Scfw
  }

  /** The image-type bits a kind sets. */
  function ImgTypeOf(kind: OptionType): (t: nat)
    requires IsImageKind(kind)
    ensures t < Pow2(ImgTypeWidth)
  {
    match kind
    case Seco => ImgTypeSeco
    case Dcd => ImgTypeDcdDdr
    case _ => ImgTypeExec
  }

  /** The core a kind is bound to. */
  function CoreOf(kind: OptionType): (c: nat)
    requires IsImageKind(kind)
    ensures c < Pow2(CoreWidth)
  {
    match kind
    case Ap => CoreCa35
    case M4 => CoreCm40
    case _ => CoreSc
  }

  /** The core number moved to its field: CORE_x << BOOT_IMG_FLAGS_CORE_SHIFT. */
  function CoreBits(kind: OptionType): (b: nat)
    requires IsImageKind(kind)
    ensures b < U32
  {
    Pow2Values();
    CoreOf(kind) * Pow2(BootImgFlagsCoreShift)
  }

  /** The two |= of the type-dependent case: image type, then core. */
  function KindFlags(flags: nat, kind: OptionType): (r: nat)
    requires flags < U32 && IsImageKind(kind)
    ensures r < U32
  {
    Pow2Values();
    OrFlags(OrFlags(flags, ImgTypeOf(kind)), CoreBits(kind))
  }

  /** The entry address a kind writes (SECO leaves the slot's value). */
  function EntryOf(kind: OptionType, current: nat, entry: nat): (r: nat)
    requires IsImageKind(kind) && current < U64 && entry < U64
    ensures r < U64
  {
    match kind
    case Scfw => ScfwLoadAddr
    case Seco => current
    case _ => entry  // Dcd, Ap, M4
  }

  /** The destination address a kind writes: one below the entry for DCD (no load). */
  function DstOf(kind: OptionType, current: nat, entry: nat): (r: nat)
    requires IsImageKind(kind) && current < U64 && entry < U64
    ensures r < U64
  {
    match kind
    case Dcd => Dec64(entry)
    case Scfw => ScfwLoadAddr
    case Seco => current
    case _ => entry  // Ap, M4
  }

  /** Only AP entries carry the boot ROM metadata word. */
  function MetaOf(kind: OptionType, current: nat): (r: nat)
    requires current < U32
    ensures r < U32
  {
    if kind == Ap then ApMeta else current
  }

  /**
   * The accepted cases of the switch of set_image_array_entry, applied to the slot img:
   * offset and size are written, then the type-dependent flags and addresses, then the
   * default SHA-384 digest of the image file. For SCFW this is the firmware entry only
   * (see DcdCompanion).
   */
  function FillEntry(img: BootImage, kind: OptionType, offset: nat, size: nat, entry: nat,
                     digest: seq<Byte>): (m: BootImage)
    requires img.Valid() && IsImageKind(kind)
    requires offset < U32 && size < U32 && entry < U64
    ensures m.Valid()
    ensures m.offset == offset && m.size == size && m.iv == img.iv
    ensures m.habFlags == OrFlags(KindFlags(img.habFlags, kind), ImgFlagHashSha384)
    ensures m.hash == DigestBuffer(ImageHashAlgoDefault, digest)
    ensures m.meta == (if kind == Ap then ApMeta else img.meta)
    ensures kind == Dcd ==> m.entry == entry && m.dst == Dec64(entry)
    ensures kind == Ap || kind == M4 ==> m.entry == entry && m.dst == entry
    ensures kind == Scfw ==> m.entry == ScfwLoadAddr && m.dst == ScfwLoadAddr
    ensures kind == Seco ==> m.entry == img.entry && m.dst == img.dst
  {
    var typed := img.(offset := offset, size := size,
                      habFlags := KindFlags(img.habFlags, kind),
                      dst := DstOf(kind, img.dst, entry),
                      entry := EntryOf(kind, img.entry, entry),
                      meta := MetaOf(kind, img.meta));
    assert HashFlag(ImageHashAlgoDefault) == ImgFlagHashSha384;
    HashedEntry(typed, ImageHashAlgoDefault, digest)
  }

  /**
   * The synthetic DCD entry that an SCFW directive writes into the slot after the firmware:
   * DCD/SCU flags, the digest of an empty file, the SCFW end rounded up to the image padding
   * as offset, and the address stored inside the SCFW image as entry (destination one less).
   */
  function DcdCompanion(img: BootImage, offset: nat, size: nat, imagePadding: nat,
                        scfw: seq<Byte>, emptyDigest: seq<Byte>): (r: BootImage)
    requires img.Valid() && imagePadding > 0
    requires |scfw| >= DcdEntryAddrInScfw + 4
    requires Align(offset + size, imagePadding) < U32
    ensures r.Valid()
    ensures r.offset == Align(offset + size, imagePadding)
    ensures r.entry == ReadDcdOffset(scfw) && r.dst == Dec64(r.entry)
    ensures r.habFlags == OrFlags(KindFlags(img.habFlags, Dcd), ImgFlagHashSha384)
    ensures r.hash == DigestBuffer(ImageHashAlgoDefault, emptyDigest)
    ensures r.size == img.size && r.meta == img.meta && r.iv == img.iv
  {
    var flagged := img.(habFlags := KindFlags(img.habFlags, Dcd));
    var hashed := HashedEntry(flagged, ImageHashAlgoDefault, emptyDigest);
    assert HashFlag(ImageHashAlgoDefault) == ImgFlagHashSha384;
    var addr := ReadDcdOffset(scfw);
    hashed.(offset := Align(offset + size, imagePadding), entry := addr, dst := Dec64(addr))
  }

  /** The image-type field of a flags word (hab_flags & 0x0F). */
  function ImgTypeField(flags: nat): nat {
    Field(flags, 0, ImgTypeWidth)
  }

  /** The core field of a flags word ((hab_flags & 0xF0) >> BOOT_IMG_FLAGS_CORE_SHIFT). */
  function CoreField(flags: nat): nat {
    Field(flags, BootImgFlagsCoreShift, CoreWidth)
  }

  /** The flags word an entry of this kind gets in a zeroed slot: type, core, SHA-384. */
  function EntryFlags(kind: OptionType): (f: nat)
    requires IsImageKind(kind)
    ensures f < U32
  {
    OrFlags(KindFlags(0, kind), ImgFlagHashSha384)
  }

  /** Image type then core OR-ed into a clear word: the two fields are added. */
  lemma TypeCoreSum(t: nat, c: nat)
    requires t < 16 && c < 16
    ensures c * Pow2(BootImgFlagsCoreShift) < U32
    ensures OrFlags(OrFlags(0, t), c * Pow2(BootImgFlagsCoreShift)) == t + c * 16
  {
    Pow2Values();
    assert OrFlags(0, t) == t;
    assert Field(t, BootImgFlagsCoreShift, CoreWidth) == 0;
    DisjointField(t, c, BootImgFlagsCoreShift, CoreWidth);
    BitOrAdd(t, c * Pow2(BootImgFlagsCoreShift));
  }

  /** The SHA-384 selector OR-ed into a word below bit 8 is added to it. */
  lemma AddSha384(x: nat)
    requires x < 256
    ensures OrFlags(x, ImgFlagHashSha384) == x + ImgFlagHashSha384
  {
    Pow2Values();
    assert Field(x, HashSelectorShift, HashSelectorWidth) == 0;
    HashSelectorSet(x, HashTypeSha384);
  }

  /** The flags word of a filled entry is the sum of its three fields. */
  lemma EntryFlagsSum(kind: OptionType)
    requires IsImageKind(kind)
    ensures EntryFlags(kind) == ImgTypeOf(kind) + CoreOf(kind) * 16 + ImgFlagHashSha384
  {
    var t, c := ImgTypeOf(kind), CoreOf(kind);
    Pow2Values();
    TypeCoreSum(t, c);
    AddSha384(t + c * 16);
  }

  /** The flags word of a filled entry decodes to the kind's type, its core and SHA-384. */
  lemma {:induction false} EntryFlagsDecode(kind: OptionType)
    requires IsImageKind(kind)
    ensures ImgTypeField(EntryFlags(kind)) == ImgTypeOf(kind)
    ensures CoreField(EntryFlags(kind)) == CoreOf(kind)
    ensures HashTypeOf(EntryFlags(kind)) == ImageHashAlgoDefault
  {
    EntryFlagsSum(kind);
    Pow2Values();
    FlagsFields(ImgTypeOf(kind), CoreOf(kind), 1);
  }

  /** A word assembled from a type, a core and a selector reads back field by field. */
  lemma FlagsFields(t: nat, c: nat, sel: nat)
    requires t < 16 && c < 16 && sel < 4
    ensures ImgTypeField(t + c * 16 + sel * 256) == t
    ensures CoreField(t + c * 16 + sel * 256) == c
    ensures Field(t + c * 16 + sel * 256, HashSelectorShift, HashSelectorWidth) == sel
  {
    Pow2Values();
  }

  /** Entries of different kinds carry different flags words. */
  lemma EntryFlagsDistinct(k1: OptionType, k2: OptionType)
    requires IsImageKind(k1) && IsImageKind(k2) && k1 != k2
    ensures EntryFlags(k1) != EntryFlags(k2)
  {
    EntryFlagsDecode(k1);
    EntryFlagsDecode(k2);
  }
}
