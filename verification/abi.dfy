/**
 * The x86_64 system-call interface shared by the kernel and user programs
 * (`lib/src/arch/x86_64/mod.rs`): the call numbers, the flags of
 * `map_memory` and how an optional process is passed.
 */
module Abi {
  import opened Bits
  import opened Prelude
  import opened Process

  /** The system calls, numbered in declaration order. */
  datatype Syscall = Terminate | MapMemory | UnmapMemory | AcquireFramebuffer | ReleaseFramebuffer

  /** How many system calls there are. */
  const SYSCALL_COUNT: nat := 5

  /** The number passed in `rax` to request a system call. */
  function Number(s: Syscall): (n: nat)
    ensures n < SYSCALL_COUNT
  {
    match s
    case Terminate => 0
    case MapMemory => 1
    case UnmapMemory => 2
    case AcquireFramebuffer => 3
    case ReleaseFramebuffer => 4
  }

  /** The system call a number requests, if any. */
  function FromNumber(n: nat): (s: Option<Syscall>)
    ensures s.Some? <==> n < SYSCALL_COUNT
    ensures s.Some? ==> Number(s.value) == n
  {
    if n == 0 then Some(Terminate)
    else if n == 1 then Some(MapMemory)
    else if n == 2 then Some(UnmapMemory)
    else if n == 3 then Some(AcquireFramebuffer)
    else if n == 4 then Some(ReleaseFramebuffer)
    else None
  }

  /** Every system call is requested by its own number, so the numbering is one to one. */
  lemma NumberRoundTrip(s: Syscall)
    ensures FromNumber(Number(s)) == Some(s)
  {
  }

  /** The flags of `map_memory`. */
  datatype MapFlags = MapFlags(writable: bool, executable: bool)

  /** Bit 0: the pages are writable. */
  const MAP_WRITABLE: nat := 1
  /** Bit 1: the pages are executable. */
  const MAP_EXECUTABLE: nat := 2

  /** The word that carries a set of flags. */
  function FlagBits(f: MapFlags): (bits: nat)
    ensures Bit(bits, 0) == f.writable && Bit(bits, 1) == f.executable
    ensures forall k: nat :: k >= 2 ==> !Bit(bits, k)
  {
    var bits := (if f.writable then MAP_WRITABLE else 0) + (if f.executable then MAP_EXECUTABLE else 0);
    Pow2Small4();
    forall k: nat | k >= 2 ensures !Bit(bits, k) {
      NoBitAbove(bits, 2, k);
    }
    bits
  }

  lemma Pow2Small4()
    ensures Pow2(2) == 4 && Pow2(1) == 2
  {
  }

  /**
   * `MapFlags::from_bits`: the flags a word carries, or nothing when it has
   * a bit set other than the two known ones.
   */
  function FromBits(bits: nat): (r: Option<MapFlags>)
    ensures r.Some? <==> bits < 4
    ensures r.Some? ==> FlagBits(r.value) == bits
  {
    if bits < 4 then Some(MapFlags(bits % 2 == 1, bits / 2 == 1)) else None
  }

  /** A word is rejected exactly when one of its set bits is neither of the two known flags. */
  lemma FromBitsRejectsUnknown(bits: nat)
    ensures FromBits(bits).None? <==> exists k: nat :: k >= 2 && Bit(bits, k)
  {
    Pow2Small4();
    if bits < 4 {
      forall k: nat | k >= 2 ensures !Bit(bits, k) {
        NoBitAbove(bits, 2, k);
      }
    } else if forall k: nat :: k >= 2 ==> !Bit(bits, k) {
      BelowFromBits(bits, 2);
      assert false;
    } else {
      var k: nat :| k >= 2 && Bit(bits, k);
      assert FromBits(bits).None?;
      assert exists j: nat :: j >= 2 && Bit(bits, j);
    }
  }

  /** Encoding flags and decoding them again gives the same flags. */
  lemma FlagsRoundTrip(f: MapFlags)
    ensures FromBits(FlagBits(f)) == Some(f)
  {
    var r := FromBits(FlagBits(f));
    assert r.Some?;
    assert Bit(FlagBits(r.value), 0) == r.value.writable;
  }

  /** `process_id.map_or(0, ProcessId::get)`: no process, meaning the calling one, is 0. */
  function EncodeProcessId(p: Option<ProcessId>): (w: nat)
    ensures w < U64_LIMIT
    ensures w == 0 <==> p.None?
  {
    match p
    case None => 0
    case Some(id) => id
  }

  /** The process a system call argument names: 0 names the calling process. */
  function DecodeProcessId(w: nat): (p: Option<ProcessId>)
    requires w < U64_LIMIT
    ensures p.None? <==> w == 0
  {
    if w == 0 then None else Some(w)
  }

  /** Decoding an encoded process argument gives it back. */
  lemma ProcessIdRoundTrip(p: Option<ProcessId>)
    ensures DecodeProcessId(EncodeProcessId(p)) == p
  {
  }
}
