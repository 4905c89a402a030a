/**
 * Processes as the system-call interface sees them (`lib/src/process.rs`)
 * and as the kernel records the running one (`src/arch/x86_64/process.rs`).
 */
module Process {
  import opened Bits

  /** A process identifier: a non-zero word, so that 0 is free to mean "no process". */
  type ProcessId = x: nat | 0 < x < U64_LIMIT witness 1

  /** A byte. */
  type Byte = x: nat | x < 256

  /** The word whose bytes, least significant first, are `b`: x86_64 is little-endian. */
  function FromLeBytes(b: seq<Byte>): (w: nat)
    ensures w < Pow2(8 * |b|)
  {
    if b == [] then 0
    else
      var rest := FromLeBytes(b[1..]);
      Pow2Add(8, 8 * |b[1..]|);
      Pow2Small8();
      assert b[0] + 256 * rest < 256 * Pow2(8 * |b[1..]|) by {
        MulMono(256, rest + 1, Pow2(8 * |b[1..]|));
      }
      b[0] + 256 * rest
  }

  /** The `n` bytes of `w`, least significant first. */
  function ToLeBytes(w: nat, n: nat): (b: seq<Byte>)
    ensures |b| == n
  {
    if n == 0 then [] else [w % 256] + ToLeBytes(w / 256, n - 1)
  }

  lemma Pow2Small8()
    ensures Pow2(8) == 256
  {
  }

  /** Reading bytes back as a word is the inverse of splitting a word that fits into them. */
  lemma {:induction false} BytesRoundTrip(w: nat, n: nat)
    requires w < Pow2(8 * n)
    ensures FromLeBytes(ToLeBytes(w, n)) == w
  {
    if n == 0 {
      assert Pow2(0) == 1;
    } else {
      Pow2Add(8, 8 * (n - 1));
      Pow2Small8();
      var q := w / 256;
      assert w == 256 * q + w % 256;
      assert q < Pow2(8 * (n - 1));
      BytesRoundTrip(q, n - 1);
      assert ToLeBytes(w, n)[1..] == ToLeBytes(q, n - 1);
    }
  }

  /** Splitting a word read from bytes gives the same bytes back. */
  lemma {:induction false} WordRoundTrip(b: seq<Byte>)
    ensures ToLeBytes(FromLeBytes(b), |b|) == b
  {
    if b != [] {
      var rest := FromLeBytes(b[1..]);
      DivModUnique(b[0] + 256 * rest, 256, rest, b[0]);
      WordRoundTrip(b[1..]);
      assert b == [b[0]] + b[1..];
    }
  }

  /** Reverses the order of a sequence of bytes. */
  function Reverse(b: seq<Byte>): (r: seq<Byte>)
    ensures |r| == |b| && forall i :: 0 <= i < |b| ==> r[i] == b[|b| - 1 - i]
  {
    if b == [] then [] else Reverse(b[1..]) + [b[0]]
  }

  /** `u64::swap_bytes`: the same eight bytes in the opposite order. */
  function SwapBytes(w: nat): (r: nat)
    ensures r < U64_LIMIT
  {
    Pow2Of64();
    FromLeBytes(Reverse(ToLeBytes(w, 8)))
  }

  /** The eight bytes `<limine>`. */
  const MAGIC_BYTES: seq<Byte> := [0x3C, 0x6C, 0x69, 0x6D, 0x69, 0x6E, 0x65, 0x3E]

  /** `InitHeader::MAGIC`: `<limine>` read as a word in the processor's byte order. */
  const MAGIC: nat := FromLeBytes(MAGIC_BYTES)

  /**
   * The magic read in the wrong byte order differs from the magic, since
   * `<limine>` is no palindrome: an image built for the other byte order is
   * told apart.
   */
  lemma MagicNotSymmetric()
    ensures MAGIC < U64_LIMIT && SwapBytes(MAGIC) != MAGIC
    ensures ToLeBytes(MAGIC, 8) == MAGIC_BYTES
  {
    Pow2Of64();
    WordRoundTrip(MAGIC_BYTES);
    var swapped := Reverse(MAGIC_BYTES);
    WordRoundTrip(swapped);
    assert swapped[0] != MAGIC_BYTES[0];
  }

  /** The header the initial process image starts with. */
  datatype InitHeader = InitHeader(magic: nat, imageStart: nat, entryPoint: nat)

  /** `InitHeader::new`: the magic, the image start and the entry point. */
  function NewInitHeader(imageStart: nat, entryPoint: nat): (h: InitHeader)
    ensures h.magic == MAGIC && h.imageStart == imageStart && h.entryPoint == entryPoint
  {
    InitHeader(MAGIC, imageStart, entryPoint)
  }

  /** The kernel's record of a running process: the physical address of its level-4 table. */
  datatype KernelProcess = KernelProcess(addressSpace: nat)
}
