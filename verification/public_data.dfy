/**
 * The data mapped into every process (`lib/src/arch/x86_64/public/`): the
 * list of framebuffers, each with the process that owns it.
 */
module PublicData {
  import opened Prelude
  import opened Process
  import opened ReprC

  /** How a framebuffer stores a pixel; the discriminant is one byte. */
  datatype ColorMode = Rgb24 | Rgb32

  /** The byte that stores a color mode. */
  function ColorModeByte(m: ColorMode): (b: nat)
    ensures b < 256
  {
    match m
    case Rgb24 => 0
    case Rgb32 => 1
  }

  /** The color mode a byte stores, if any. */
  function ColorModeOf(b: nat): (m: Option<ColorMode>)
    ensures m.Some? <==> b < 2
    ensures m.Some? ==> ColorModeByte(m.value) == b
  {
    if b == 0 then Some(Rgb24) else if b == 1 then Some(Rgb32) else None
  }

  /** Each color mode is stored as its own byte. */
  lemma ColorModeRoundTrip(m: ColorMode)
    ensures ColorModeOf(ColorModeByte(m)) == Some(m)
  {
  }

  /** Red, green and blue take a byte each; `Rgb32` adds an unused or opacity byte. */
  function BytesPerPixel(m: ColorMode): (n: nat)
    ensures 3 <= n <= 4
    ensures n == 4 <==> m == Rgb32
  {
    match m
    case Rgb24 => 3
    case Rgb32 => 4
  }

  /**
   * A framebuffer. `ownedBy` is the one field the kernel changes after boot:
   * 0 when the framebuffer is free, otherwise the identifier of the process
   * using it.
   */
  datatype Framebuffer = Framebuffer(
    physicalAddress: nat,
    width: nat,
    height: nat,
    pitch: nat,
    colorMode: ColorMode,
    ownedBy: nat)

  /** `size_in_bytes`: the buffer holds `height` rows of `pitch` bytes. */
  function SizeInBytes(fb: Framebuffer): (n: nat)
  {
    fb.pitch * fb.height
  }

  /** Every row of the framebuffer lies inside its buffer. */
  lemma RowsInBuffer(fb: Framebuffer, row: nat)
    requires row < fb.height
    ensures row * fb.pitch + fb.pitch <= SizeInBytes(fb)
  {
    assert row * fb.pitch + fb.pitch == (row + 1) * fb.pitch;
    MulMono(fb.pitch, row + 1, fb.height);
  }

  lemma MulMono(d: nat, a: nat, b: nat)
    requires a <= b
    ensures a * d <= b * d
  {
  }

  /** The process owning a framebuffer, if any: the `owned_by` word read as an optional process. */
  function Owner(fb: Framebuffer): (p: Option<ProcessId>)
    requires fb.ownedBy < 0x1_0000_0000_0000_0000
    ensures p.None? <==> fb.ownedBy == 0
    ensures p.Some? ==> p.value == fb.ownedBy
  {
    if fb.ownedBy == 0 then None else Some(fb.ownedBy)
  }

  /** The framebuffers `fbs` with framebuffer `index` now owned by `owner`, and nothing else changed. */
  function WithOwner(fbs: seq<Framebuffer>, index: nat, owner: nat): (r: seq<Framebuffer>)
    requires index < |fbs|
  {
    fbs[index := fbs[index].(ownedBy := owner)]
  }

  /** Storing the owner a framebuffer already has changes nothing. */
  lemma WithOwnerUnchanged(fbs: seq<Framebuffer>, index: nat)
    requires index < |fbs|
    ensures WithOwner(fbs, index, fbs[index].ownedBy) == fbs
  {
  }

  /**
   * A later store of the owner of the same framebuffer replaces an earlier
   * one: in particular storing the old owner back undoes a store.
   */
  lemma WithOwnerTwice(fbs: seq<Framebuffer>, index: nat, a: nat, b: nat)
    requires index < |fbs|
    ensures WithOwner(WithOwner(fbs, index, a), index, b) == WithOwner(fbs, index, b)
    ensures WithOwner(WithOwner(fbs, index, a), index, fbs[index].ownedBy) == fbs
  {
  }

  /** A word-sized field: `usize`, a pointer or an atomic word. */
  const WORD := Field(8, 8)

  /** The fields of `Framebuffer` in declaration order: four words, the color mode, seven reserved bytes, `owned_by`. */
  const FRAMEBUFFER_FIELDS: Fields :=
    Cons(WORD, Cons(WORD, Cons(WORD, Cons(WORD, Cons(Field(1, 1), Cons(Field(7, 1), Cons(WORD, Nil)))))))

  /** The fields of `PublicData`: the pointer to the framebuffers and their count. */
  const PUBLIC_DATA_FIELDS: Fields := Cons(WORD, Cons(WORD, Nil))

  /** `size_of::<Framebuffer>()`. */
  const FRAMEBUFFER_SIZE: nat := 48
  /** `size_of::<PublicData>()`. */
  const PUBLIC_DATA_SIZE: nat := 16

  /** `color_mode` lands at offset 32 and `owned_by` at 40, right after the seven reserved bytes. */
  lemma FramebufferOffsets()
    ensures Offsets(FRAMEBUFFER_FIELDS, 0) == [0, 8, 16, 24, 32, 33, 40]
  {
  }

  /** The last field of `Framebuffer` ends at 48, and its alignment is a word's. */
  lemma FramebufferEnd()
    ensures End(FRAMEBUFFER_FIELDS, 0) == 48 && MaxAlign(FRAMEBUFFER_FIELDS) == 8
  {
  }

  /** The C layout of `Framebuffer`: its fields at these offsets, and 48 bytes in all, with no tail padding. */
  lemma FramebufferLayout()
    ensures WellFormed(FRAMEBUFFER_FIELDS)
    ensures Offsets(FRAMEBUFFER_FIELDS, 0) == [0, 8, 16, 24, 32, 33, 40]
    ensures SizeOf(FRAMEBUFFER_FIELDS) == FRAMEBUFFER_SIZE
  {
    FramebufferOffsets();
    FramebufferEnd();
  }

  /** `PublicData` is two words: 16 bytes. */
  lemma PublicDataLayout()
    ensures WellFormed(PUBLIC_DATA_FIELDS)
    ensures Offsets(PUBLIC_DATA_FIELDS, 0) == [0, 8] && SizeOf(PUBLIC_DATA_FIELDS) == PUBLIC_DATA_SIZE
  {
  }

  /**
   * The framebuffers every process sees. Only their `owned_by` words
   * change, each by an atomic compare-exchange, modelled here as one step.
   */
  class PublicState {
    var framebuffers: seq<Framebuffer>

    constructor (framebuffers: seq<Framebuffer>)
      ensures this.framebuffers == framebuffers
    {
      this.framebuffers := framebuffers;
    }

    /**
     * `owned_by.compare_exchange(current, replacement)` on framebuffer `index`: the
     * owner becomes `replacement` exactly when it was `current`; nothing else changes.
     */
    method CompareExchangeOwner(index: nat, current: nat, replacement: nat) returns (ok: bool)
      requires index < |framebuffers|
      modifies this
      ensures ok <==> old(framebuffers[index].ownedBy) == current
      ensures framebuffers == if ok then WithOwner(old(framebuffers), index, replacement) else old(framebuffers)
    {
      if framebuffers[index].ownedBy == current {
        framebuffers := WithOwner(framebuffers, index, replacement);
        ok := true;
      } else {
        ok := false;
      }
    }
  }
}
