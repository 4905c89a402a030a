/**
 * The parts of the boot sequence (`src/arch/x86_64/boot/limine/mod.rs`)
 * that publish the framebuffers in the public data area and check the
 * header of the `fabric_init` image before control is passed to it.
 */
module LimineBoot {
  import opened Prelude
  import opened Bits
  import opened Process
  import opened PublicData
  import opened PublicLayout

  /** The framebuffer memory model the kernel supports. */
  const FRAMEBUFFER_RGB: nat := 1

  /** A framebuffer as the bootloader describes it; `address` is in the bootloader's direct map. */
  datatype LimineFramebuffer = LimineFramebuffer(address: nat, width: nat, height: nat, pitch: nat, bpp: nat, memoryModel: nat)

  /** `is_framebuffer_supported`: RGB with 24 or 32 bits per pixel. */
  predicate IsSupported(fb: LimineFramebuffer) {
    fb.memoryModel == FRAMEBUFFER_RGB && (fb.bpp == 24 || fb.bpp == 32)
  }

  /**
   * `try_convert_framebuffer`: a supported framebuffer becomes the public
   * record, with its physical address, the color mode matching its depth,
   * and no owner.
   */
  function TryConvert(fb: LimineFramebuffer, hhdm: nat): (r: Option<Framebuffer>)
    requires IsSupported(fb) ==> hhdm <= fb.address
    ensures r.Some? <==> IsSupported(fb)
    ensures r.Some? ==> r.value.physicalAddress + hhdm == fb.address && r.value.ownedBy == 0
    ensures r.Some? ==> r.value.width == fb.width && r.value.height == fb.height && r.value.pitch == fb.pitch
    ensures r.Some? ==> BytesPerPixel(r.value.colorMode) * 8 == fb.bpp
  {
    if fb.memoryModel != FRAMEBUFFER_RGB then None
    else if fb.bpp == 24 then Some(Framebuffer(fb.address - hhdm, fb.width, fb.height, fb.pitch, Rgb24, 0))
    else if fb.bpp == 32 then Some(Framebuffer(fb.address - hhdm, fb.width, fb.height, fb.pitch, Rgb32, 0))
    else None
  }

  /** Every supported framebuffer lies in the direct map. */
  predicate InDirectMap(fbs: seq<LimineFramebuffer>, hhdm: nat) {
    forall i :: 0 <= i < |fbs| && IsSupported(fbs[i]) ==> hhdm <= fbs[i].address
  }

  /** The number of supported framebuffers. */
  function SupportedCount(fbs: seq<LimineFramebuffer>): (n: nat)
    ensures n <= |fbs|
  {
    if fbs == [] then 0
    else SupportedCount(fbs[..|fbs| - 1]) + (if IsSupported(fbs[|fbs| - 1]) then 1 else 0)
  }

  /** The public records of the supported framebuffers, in the bootloader's order. */
  function Converted(fbs: seq<LimineFramebuffer>, hhdm: nat): (r: seq<Framebuffer>)
    requires InDirectMap(fbs, hhdm)
    ensures |r| == SupportedCount(fbs)
  {
    if fbs == [] then []
    else
      var prev := fbs[..|fbs| - 1];
      assert InDirectMap(prev, hhdm) by {
        assert forall i :: 0 <= i < |prev| ==> prev[i] == fbs[i];
      }
      match TryConvert(fbs[|fbs| - 1], hhdm)
      case None => Converted(prev, hhdm)
      case Some(record) => Converted(prev, hhdm) + [record]
  }

  /**
   * No record starts with an owner, every supported framebuffer's
   * conversion is among the records, and there is a record for every
   * framebuffer exactly when all of them are supported.
   */
  lemma {:induction false} ConvertedExact(fbs: seq<LimineFramebuffer>, hhdm: nat)
    requires InDirectMap(fbs, hhdm)
    ensures forall k :: 0 <= k < |Converted(fbs, hhdm)| ==> Converted(fbs, hhdm)[k].ownedBy == 0
    ensures forall i :: 0 <= i < |fbs| && IsSupported(fbs[i]) ==> TryConvert(fbs[i], hhdm).value in Converted(fbs, hhdm)
    ensures SupportedCount(fbs) == |fbs| <==> forall i :: 0 <= i < |fbs| ==> IsSupported(fbs[i])
  {
    if fbs != [] {
      var prev := fbs[..|fbs| - 1];
      assert forall i :: 0 <= i < |prev| ==> prev[i] == fbs[i];
      assert InDirectMap(prev, hhdm);
      ConvertedExact(prev, hhdm);
    }
  }

  /** The counting loop of `entry_point` (its warnings left out). */
  method CountSupported(fbs: seq<LimineFramebuffer>) returns (count: nat)
    ensures count == SupportedCount(fbs)
  {
    count := 0;
    for i := 0 to |fbs|
      invariant count == SupportedCount(fbs[..i])
    {
      assert fbs[..i + 1][..i] == fbs[..i];
      if !IsSupported(fbs[i]) {
        continue;
      }
      count := count + 1;
    }
    assert fbs[..|fbs|] == fbs;
  }

  /**
   * The writing loop of `entry_point`: the conversion of each supported
   * framebuffer is written at the next record of the area, unsupported
   * ones are skipped. The area is the framebuffer part of the public data
   * area, sized by the supported count.
   */
  method WriteFramebuffers(fbs: seq<LimineFramebuffer>, hhdm: nat, area: array<Framebuffer>)
    requires InDirectMap(fbs, hhdm)
    requires area.Length == SupportedCount(fbs)
    modifies area
    ensures area[..] == Converted(fbs, hhdm)
  {
    var cur := 0;
    for i := 0 to |fbs|
      invariant InDirectMap(fbs[..i], hhdm)
      invariant cur == SupportedCount(fbs[..i]) && cur <= area.Length
      invariant area[..cur] == Converted(fbs[..i], hhdm)
    {
      assert fbs[..i + 1][..i] == fbs[..i];
      assert InDirectMap(fbs[..i + 1], hhdm);
      CountGrows(fbs, i);
      match TryConvert(fbs[i], hhdm) {
        case Some(record) =>
          area[cur] := record;
        case None =>
          continue;
      }
      cur := cur + 1;
    }
    assert fbs[..|fbs|] == fbs;
  }

  /** The supported count of a prefix never passes that of the whole list. */
  lemma {:induction false} CountGrows(fbs: seq<LimineFramebuffer>, i: nat)
    requires i < |fbs|
    ensures SupportedCount(fbs[..i]) + (if IsSupported(fbs[i]) then 1 else 0) <= SupportedCount(fbs)
    ensures fbs[..i + 1][..i] == fbs[..i]
    decreases |fbs|
  {
    assert fbs[..i + 1][..i] == fbs[..i];
    if i < |fbs| - 1 {
      var prev := fbs[..|fbs| - 1];
      assert prev[..i] == fbs[..i] && prev[i] == fbs[i];
      CountGrows(prev, i);
    } else {
      assert fbs[..i] == fbs[..|fbs| - 1];
    }
  }

  /** The `PublicData` record at the root of the area: where the framebuffer records are and how many. */
  datatype PublicRoot = PublicRoot(framebuffers: nat, framebufferCount: nat)

  /**
   * The root as written: the record pointer is the framebuffer part of the
   * area at its public address, but the count is that of all framebuffers
   * the bootloader reported, supported or not.
   */
  function RootAsWritten(fbs: seq<LimineFramebuffer>, publicAddress: nat): (root: PublicRoot)
    ensures root.framebufferCount == |fbs|
  {
    PublicRoot(publicAddress + Compute(SupportedCount(fbs)).framebuffers, |fbs|)
  }

  /** The root with the count of records actually written. */
  function Root(fbs: seq<LimineFramebuffer>, publicAddress: nat): (root: PublicRoot)
    ensures root.framebufferCount == SupportedCount(fbs)
  {
    PublicRoot(publicAddress + Compute(SupportedCount(fbs)).framebuffers, SupportedCount(fbs))
  }

  /** One framebuffer in a mode the kernel does not support. */
  const UNSUPPORTED_ONLY: seq<LimineFramebuffer> := [LimineFramebuffer(0, 640, 480, 640, 8, FRAMEBUFFER_RGB)]

  /**
   * As written, one unsupported framebuffer makes the root advertise one
   * record in an area sized for none: the advertised record lies past the
   * end of the area.
   */
  lemma RootAsWrittenOvercounts()
    ensures SupportedCount(UNSUPPORTED_ONLY) == 0
    ensures RootAsWritten(UNSUPPORTED_ONLY, 0).framebufferCount == 1
    ensures Compute(SupportedCount(UNSUPPORTED_ONLY)).framebuffers + FRAMEBUFFER_SIZE * RootAsWritten(UNSUPPORTED_ONLY, 0).framebufferCount
      > Compute(SupportedCount(UNSUPPORTED_ONLY)).size
  {
    assert UNSUPPORTED_ONLY[..0] == [];
  }

  /**
   * With the corrected count, every advertised record lies inside the
   * area, after the root, and holds the conversion of a supported
   * framebuffer; the records are all the supported framebuffers.
   */
  lemma RootAdvertisesWritten(fbs: seq<LimineFramebuffer>, hhdm: nat, publicAddress: nat, i: nat)
    requires InDirectMap(fbs, hhdm)
    requires i < Root(fbs, publicAddress).framebufferCount
    ensures var l := Compute(SupportedCount(fbs));
      && Root(fbs, publicAddress).framebuffers == publicAddress + l.framebuffers
      && l.root + PUBLIC_DATA_SIZE <= l.framebuffers
      && l.framebuffers + FRAMEBUFFER_SIZE * i + FRAMEBUFFER_SIZE <= l.size
    ensures i < |Converted(fbs, hhdm)| && Converted(fbs, hhdm)[i].ownedBy == 0
  {
    PartsDisjoint(SupportedCount(fbs), i);
    ConvertedExact(fbs, hhdm);
  }

  /** Why the kernel refuses the `fabric_init` image. */
  datatype InitError =
    | TooSmall
    | BadMagic(otherEndian: bool)
    | BadEntryPoint

  /** `size_of::<InitHeader>()`: three 8-byte words. */
  const INIT_HEADER_SIZE: nat := 24

  /** The header at the start of the image, each word read in the processor's byte order. */
  function ReadHeader(image: seq<Byte>): (h: InitHeader)
    requires |image| >= INIT_HEADER_SIZE
  {
    InitHeader(FromLeBytes(image[0..8]), FromLeBytes(image[8..16]), FromLeBytes(image[16..24]))
  }

  /**
   * The checks on `fabric_init`: the image must hold a header, the header
   * must carry the magic (the error tells whether it carries the magic in
   * the other byte order), and the entry point must be non-null and inside
   * the image as it will be mapped.
   */
  function ValidateInit(image: seq<Byte>): (r: Result<InitHeader, InitError>)
    ensures r == Err(TooSmall) <==> |image| < INIT_HEADER_SIZE
    ensures r.Ok? <==> (
      && |image| >= INIT_HEADER_SIZE
      && ReadHeader(image).magic == MAGIC
      && ReadHeader(image).entryPoint != 0
      && ReadHeader(image).imageStart <= ReadHeader(image).entryPoint < ReadHeader(image).imageStart + |image|)
    ensures r.Ok? ==> r.value == ReadHeader(image)
    ensures r.Err? && r.error.BadMagic? ==>
      |image| >= INIT_HEADER_SIZE && ReadHeader(image).magic != MAGIC &&
      (r.error.otherEndian <==> ReadHeader(image).magic == SwapBytes(MAGIC))
  {
    if |image| < INIT_HEADER_SIZE then Err(TooSmall)
    else
      var header := ReadHeader(image);
      if header.magic != MAGIC then Err(BadMagic(header.magic == SwapBytes(MAGIC)))
      else if header.entryPoint == 0 || header.entryPoint < header.imageStart
        || header.entryPoint >= header.imageStart + |image| then Err(BadEntryPoint)
      else Ok(header)
  }

  /** The bytes of a header as `InitHeader::new` lays it out. */
  function HeaderBytes(h: InitHeader): (b: seq<Byte>)
    ensures |b| == INIT_HEADER_SIZE
  {
    ToLeBytes(h.magic, 8) + ToLeBytes(h.imageStart, 8) + ToLeBytes(h.entryPoint, 8)
  }

  /** The header read from an image is the header written at its start. */
  lemma ReadHeaderBytes(h: InitHeader, rest: seq<Byte>)
    requires h.magic < U64_LIMIT && h.imageStart < U64_LIMIT && h.entryPoint < U64_LIMIT
    ensures ReadHeader(HeaderBytes(h) + rest) == h
  {
    var image := HeaderBytes(h) + rest;
    assert image[0..8] == ToLeBytes(h.magic, 8);
    assert image[8..16] == ToLeBytes(h.imageStart, 8);
    assert image[16..24] == ToLeBytes(h.entryPoint, 8);
    Pow2Of64();
    BytesRoundTrip(h.magic, 8);
    BytesRoundTrip(h.imageStart, 8);
    BytesRoundTrip(h.entryPoint, 8);
  }

  /**
   * An image built with `InitHeader::new`, whose entry point is non-null
   * and inside the image, is accepted with that header.
   */
  lemma BuiltImageAccepted(imageStart: nat, entryPoint: nat, rest: seq<Byte>)
    requires imageStart < U64_LIMIT && 0 < entryPoint < U64_LIMIT
    requires imageStart <= entryPoint < imageStart + INIT_HEADER_SIZE + |rest|
    ensures ValidateInit(HeaderBytes(NewInitHeader(imageStart, entryPoint)) + rest) == Ok(NewInitHeader(imageStart, entryPoint))
  {
    MagicNotSymmetric();
    ReadHeaderBytes(NewInitHeader(imageStart, entryPoint), rest);
  }

  /** An image built for the other byte order is refused, and recognised as such. */
  lemma OtherEndianRefused(imageStart: nat, entryPoint: nat, rest: seq<Byte>)
    requires imageStart < U64_LIMIT && entryPoint < U64_LIMIT
    ensures ValidateInit(HeaderBytes(InitHeader(SwapBytes(MAGIC), imageStart, entryPoint)) + rest) == Err(BadMagic(true))
  {
    MagicNotSymmetric();
    ReadHeaderBytes(InitHeader(SwapBytes(MAGIC), imageStart, entryPoint), rest);
  }
}
