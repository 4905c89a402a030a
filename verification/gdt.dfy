/**
 * The kernel's global descriptor table and task state segment
 * (`src/arch/x86_64/cpu/gdt.rs`, with the segment flags of
 * `src/arch/x86_64/raw.rs`). Descriptor fields follow the segment and
 * TSS descriptor layouts of sections 3.4.5 and 8.2.3 of the Intel SDM
 * Vol. 3A; the TSS layout follows section 8.7 (64-bit TSS).
 */
module Gdt {
  import opened Bits
  import opened Prelude
  import opened Mem
  import opened BootAlloc
  import opened ReprC

  // ----- Selectors -----

  /** A segment selector: the descriptor's index in the table, times 8, plus the requested privilege level. */
  function Selector(index: bv16, rpl: bv16): (s: bv16)
    requires index < 0x2000 && rpl < 4
    ensures s >> 3 == index && s & 3 == rpl
  {
    (index << 3) | rpl
  }

  /** The descriptor index a selector names. */
  function Index(s: bv16): bv16 {
    s >> 3
  }

  /** The privilege level a selector requests. */
  function Rpl(s: bv16): bv16 {
    s & 3
  }

  const KERNEL_CODE_SELECTOR: bv16 := 8
  const KERNEL_DATA_SELECTOR: bv16 := 8 * 2
  const USER_DATA_SELECTOR: bv16 := (8 * 3) | 3
  const USER_CODE_SELECTOR: bv16 := (8 * 4) | 3
  const TSS_SELECTOR: bv16 := 8 * 5

  /**
   * Each selector names its own slot of the table with the privilege of
   * its ring: kernel code 1, kernel data 2, user data 3 and user code 4
   * (ring 3), the TSS at 5 (ring 0).
   */
  lemma SelectorsNameSlots()
    ensures KERNEL_CODE_SELECTOR == Selector(1, 0)
    ensures KERNEL_DATA_SELECTOR == Selector(2, 0)
    ensures USER_DATA_SELECTOR == Selector(3, 3)
    ensures USER_CODE_SELECTOR == Selector(4, 3)
    ensures TSS_SELECTOR == Selector(5, 0)
  {
  }

  // ----- Descriptors -----

  /** The number of 8-byte slots in the table. */
  const GDT_LENGTH: nat := 7

  /** The limit loaded into GDTR: the table's size in bytes, minus one. */
  const GDT_LIMIT: nat := GDT_LENGTH * 8 - 1

  /**
   * Every selector's descriptor lies inside the limit; the TSS descriptor
   * takes two slots and ends exactly at it.
   */
  lemma SelectorsWithinLimit()
    ensures GDT_LIMIT == 55
    ensures forall s :: s in {KERNEL_CODE_SELECTOR, KERNEL_DATA_SELECTOR, USER_DATA_SELECTOR, USER_CODE_SELECTOR} ==>
      (Index(s) as nat) * 8 + 7 <= GDT_LIMIT
    ensures (Index(TSS_SELECTOR) as nat) * 8 + 15 == GDT_LIMIT
  {
  }

  const ACCESSED: bv64 := 1 << 40
  const READABLE: bv64 := 1 << 41
  const WRITABLE: bv64 := 1 << 41
  const EXECUTABLE: bv64 := 1 << 43
  const DATA: bv64 := 1 << 44
  const USER: bv64 := 3 << 45
  const PRESENT: bv64 := 1 << 47
  const LONG_MODE_CODE: bv64 := 1 << 53
  const SIZE_32BIT: bv64 := 1 << 54
  const GRANULARITY: bv64 := 1 << 55
  const AVAILABLE_TSS: bv64 := 0x9 << 40
  const LIMIT_MAX: bv64 := 0x000F_0000_0000_FFFF

  const KERNEL_CODE: bv64 := ACCESSED | PRESENT | DATA | EXECUTABLE | READABLE | LONG_MODE_CODE | GRANULARITY | LIMIT_MAX
  const KERNEL_DATA: bv64 := ACCESSED | PRESENT | DATA | WRITABLE | SIZE_32BIT | GRANULARITY | LIMIT_MAX
  const USER_DATA: bv64 := ACCESSED | PRESENT | DATA | WRITABLE | SIZE_32BIT | USER | GRANULARITY | LIMIT_MAX
  const USER_CODE: bv64 := ACCESSED | PRESENT | DATA | EXECUTABLE | READABLE | LONG_MODE_CODE | USER | GRANULARITY | LIMIT_MAX

  /** The table as the kernel image holds it: the null descriptor, four segments, and two empty TSS slots. */
  const INITIAL_GDT: seq<bv64> := [0, KERNEL_CODE, KERNEL_DATA, USER_DATA, USER_CODE, 0, 0]

  /** Bits 0-15 and 48-51: the segment limit. */
  function Limit(d: bv64): bv64 {
    (d & 0xFFFF) | (((d >> 48) & 0xF) << 16)
  }

  /** Bits 40-43: the descriptor type. */
  function Type(d: bv64): bv64 {
    (d >> 40) & 0xF
  }

  /** Bit 44 clear: a system descriptor (such as a TSS) rather than code or data. */
  predicate IsSystem(d: bv64) {
    (d >> 44) & 1 == 0
  }

  /** Bits 45-46: the descriptor privilege level. */
  function Dpl(d: bv64): bv64 {
    (d >> 45) & 3
  }

  /** Bit 47: the segment is present. */
  predicate IsPresent(d: bv64) {
    (d >> 47) & 1 == 1
  }

  /** Code (type bit 3 set) whose L bit (53) is set and D bit (54) clear: a 64-bit code segment. */
  predicate IsLongCode(d: bv64) {
    !IsSystem(d) && (d >> 43) & 1 == 1 && (d >> 53) & 1 == 1 && (d >> 54) & 1 == 0
  }

  /** Data (type bit 3 clear) that may be written (type bit 1 set). */
  predicate IsWritableData(d: bv64) {
    !IsSystem(d) && (d >> 43) & 1 == 0 && (d >> 41) & 1 == 1
  }

  /** The base address of a 16-byte system descriptor: bits 16-39 and 56-63 of the low half, bits 0-31 of the high half. */
  function SystemBase(low: bv64, high: bv64): bv64 {
    ((low >> 16) & 0xFF_FFFF) | (((low >> 56) & 0xFF) << 24) | ((high & 0xFFFF_FFFF) << 32)
  }

  /**
   * The four segment descriptors are present, cover the whole 4 GiB
   * (limit 0xFFFFF in pages), and each matches the selector naming it:
   * code is 64-bit code and data is writable, at the privilege level of
   * the selector's requested level.
   */
  lemma SegmentsMatchSelectors()
    ensures forall d :: d in {KERNEL_CODE, KERNEL_DATA, USER_DATA, USER_CODE} ==>
      IsPresent(d) && Limit(d) == 0xF_FFFF && (d >> 55) & 1 == 1
    ensures IsLongCode(INITIAL_GDT[Index(KERNEL_CODE_SELECTOR)]) && Dpl(INITIAL_GDT[Index(KERNEL_CODE_SELECTOR)]) == Rpl(KERNEL_CODE_SELECTOR) as bv64
    ensures IsWritableData(INITIAL_GDT[Index(KERNEL_DATA_SELECTOR)]) && Dpl(INITIAL_GDT[Index(KERNEL_DATA_SELECTOR)]) == Rpl(KERNEL_DATA_SELECTOR) as bv64
    ensures IsWritableData(INITIAL_GDT[Index(USER_DATA_SELECTOR)]) && Dpl(INITIAL_GDT[Index(USER_DATA_SELECTOR)]) == Rpl(USER_DATA_SELECTOR) as bv64
    ensures IsLongCode(INITIAL_GDT[Index(USER_CODE_SELECTOR)]) && Dpl(INITIAL_GDT[Index(USER_CODE_SELECTOR)]) == Rpl(USER_CODE_SELECTOR) as bv64
  {
  }

  // ----- Task state segment -----

  /**
   * The fields of `TaskStateSegment`, `repr(C, packed(4))`: no field is
   * aligned beyond 4 bytes.
   */
  const TSS_FIELDS: Fields :=
    Cons(Field(4, 4),            // reserved0: u32
    Cons(Field(3 * 8, 4),        // privilege_stack_table: [u64; 3]
    Cons(Field(8, 4),            // reserved1: u64
    Cons(Field(7 * 8, 4),        // interrupt_stack_table: [u64; 7]
    Cons(Field(8, 4),            // reserved2: u64
    Cons(Field(2, 2),            // reserved3: u16
    Cons(Field(2, 2),            // iomap_base: u16
    Nil)))))))

  /** `size_of::<TaskStateSegment>()`. */
  const TSS_SIZE: nat := 104

  /**
   * The structure is 104 bytes, with RSP0 at offset 4, IST1 at offset 36
   * and the I/O map base at offset 102, as the 64-bit TSS format places
   * them; its descriptor limit is therefore 0x67.
   */
  lemma TssLayout()
    ensures Offsets(TSS_FIELDS, 0) == [0, 4, 28, 36, 92, 100, 102]
    ensures SizeOf(TSS_FIELDS) == TSS_SIZE && TSS_SIZE - 1 == 0x67
  {
    TssOffsets();
    TssSize();
  }

  lemma TssSize()
    ensures SizeOf(TSS_FIELDS) == 104
  {
    TssEnd();
    assert SizeOf(TSS_FIELDS) == RoundUp(104, 4);
  }

  lemma TssOffsets()
    ensures Offsets(TSS_FIELDS, 0) == [0, 4, 28, 36, 92, 100, 102]
  {
  }

  lemma TssEnd()
    ensures End(TSS_FIELDS, 0) == 104 && MaxAlign(TSS_FIELDS) == 4
  {
    var f := TSS_FIELDS;
    assert End(f.tail.tail.tail.tail.tail.tail, 102) == 104;
    assert End(f.tail.tail.tail.tail.tail, 100) == 104;
    assert End(f.tail.tail.tail.tail, 92) == 104;
    assert End(f.tail.tail.tail, 36) == 104;
    assert End(f.tail.tail, 28) == 104;
    assert End(f.tail, 4) == 104;
    assert MaxAlign(f.tail.tail.tail.tail.tail) == 2;
  }

  /** The TSS descriptor's low half: limit, base bits 0-31, present, type "available 64-bit TSS". */
  function TssDescriptorLow(base: bv64): bv64 {
    ((TSS_SIZE - 1) as bv64 & 0xFFFF)
      | ((base & 0xFF_FFFF) << 16) | ((base & 0xFF00_0000) << 32)
      | PRESENT | AVAILABLE_TSS
  }

  /** The TSS descriptor's high half: base bits 32-63. */
  function TssDescriptorHigh(base: bv64): bv64 {
    base >> 32
  }

  /**
   * The descriptor decodes back to the structure it describes: the base
   * is the TSS's address, the limit its size minus one, the type an
   * available 64-bit TSS (a present ring-0 system descriptor), and the
   * reserved upper half of the second slot is zero.
   */
  lemma TssDescriptorRoundTrip(base: bv64)
    ensures SystemBase(TssDescriptorLow(base), TssDescriptorHigh(base)) == base
    ensures Limit(TssDescriptorLow(base)) == (TSS_SIZE - 1) as bv64
    ensures Type(TssDescriptorLow(base)) == 0x9 && IsSystem(TssDescriptorLow(base))
    ensures IsPresent(TssDescriptorLow(base)) && Dpl(TssDescriptorLow(base)) == 0
    ensures TssDescriptorHigh(base) >> 32 == 0
  {
  }

  /** The kernel's descriptor table: `GDT`. */
  class DescriptorTable {
    const entries: array<bv64>

    /** The table as the kernel image holds it before `init`. */
    constructor ()
      ensures entries.Length == GDT_LENGTH && entries[..] == INITIAL_GDT
      ensures fresh(entries)
    {
      entries := new bv64[7] [0, KERNEL_CODE, KERNEL_DATA, USER_DATA, USER_CODE, 0, 0];
    }

    /**
     * Fills the two empty TSS slots with the descriptor of the TSS at
     * `base`, OR-ing each part into place, and leaves the other slots alone.
     */
    method InstallTss(base: bv64)
      requires entries.Length == GDT_LENGTH && entries[5] == 0 && entries[6] == 0
      modifies entries
      ensures entries[..] == old(entries[..])[5 := TssDescriptorLow(base)][6 := TssDescriptorHigh(base)]
    {
      entries[5] := entries[5] | ((TSS_SIZE - 1) as bv64 & 0xFFFF);
      entries[5] := entries[5] | ((base & 0xFF_FFFF) << 16) | ((base & 0xFF00_0000) << 32);
      entries[5] := entries[5] | (PRESENT | AVAILABLE_TSS);
      entries[6] := entries[6] | (base >> 32);
    }
  }

  /** The kernel's task state segment: `TSS`, with its two stack tables. */
  class TaskStateSegment {
    /** `interrupt_stack_table`: IST1..IST7. */
    const interruptStacks: array<U64>
    /** `privilege_stack_table`: RSP0..RSP2. */
    const privilegeStacks: array<U64>

    /** Every field zero, as the kernel image holds it. */
    constructor ()
      ensures interruptStacks.Length == 7 && privilegeStacks.Length == 3
      ensures interruptStacks[..] == [0, 0, 0, 0, 0, 0, 0] && privilegeStacks[..] == [0, 0, 0]
      ensures fresh(interruptStacks) && fresh(privilegeStacks)
    {
      interruptStacks := new U64[7] [0, 0, 0, 0, 0, 0, 0];
      privilegeStacks := new U64[3] [0, 0, 0];
    }

    /** Records the stack used for the double fault and the stack for entering ring 0. */
    method SetStacks(doubleFault: U64, ring0: U64)
      requires interruptStacks.Length == 7 && privilegeStacks.Length == 3
      requires interruptStacks != privilegeStacks
      modifies interruptStacks, privilegeStacks
      ensures interruptStacks[..] == old(interruptStacks[..])[DOUBLE_FAULT_STACK_INDEX := doubleFault]
      ensures privilegeStacks[..] == old(privilegeStacks[..])[0 := ring0]
    {
      interruptStacks[DOUBLE_FAULT_STACK_INDEX] := doubleFault;
      privilegeStacks[0] := ring0;
    }
  }

  /** The size of the double-fault stack: four pages. */
  const DOUBLE_FAULT_STACK_SIZE: nat := PAGE_SIZE * 4

  /** The IST slot (counted from 0) holding the double-fault stack. */
  const DOUBLE_FAULT_STACK_INDEX: nat := 0

  /** An unsigned 64-bit word. */
  type U64 = x: nat | x < U64_LIMIT

  /** An address computed with `usize` arithmetic, which wraps at 2^64. */
  function Wrap(x: nat): (w: U64)
  {
    x % U64_LIMIT
  }

  /**
   * `init`: takes the double-fault stack from the boot allocator (failing
   * with no change when it is exhausted), records the stack's top seen
   * through the direct map in IST1, records the kernel stack's top seen
   * the same way in RSP0, and fills the two TSS slots of the table with
   * the descriptor of the TSS at `tssBase`. Being called once, it finds
   * both slots still empty. `kernelStackTop` is `KERNEL_STACK_TOP`, and
   * `tssBase` the address the TSS is linked at.
   */
  method Init(gdt: DescriptorTable, tss: TaskStateSegment, boot: BootAllocator, kernelStackTop: nat, tssBase: bv64)
    returns (r: Result<(), OutOfMemory>)
    requires gdt.entries.Length == GDT_LENGTH && gdt.entries[5] == 0 && gdt.entries[6] == 0
    requires tss.interruptStacks.Length == 7 && tss.privilegeStacks.Length == 3
    requires tss.interruptStacks != tss.privilegeStacks
    requires gdt.entries as object != tss.interruptStacks && gdt.entries as object != tss.privilegeStacks
    requires boot.Valid() && boot.start < U64_LIMIT
    modifies gdt.entries, tss.interruptStacks, tss.privilegeStacks, boot
    ensures boot.Valid() && boot.stop == old(boot.stop)
    ensures r.Err? <==> old(boot.RemainingLength()) < DOUBLE_FAULT_STACK_SIZE
    ensures r.Err? ==>
      && boot.start == old(boot.start) && boot.allocations == old(boot.allocations)
      && gdt.entries[..] == old(gdt.entries[..])
      && tss.interruptStacks[..] == old(tss.interruptStacks[..])
      && tss.privilegeStacks[..] == old(tss.privilegeStacks[..])
    ensures r.Ok? ==>
      && boot.allocations == old(boot.allocations) + [(old(boot.start), DOUBLE_FAULT_STACK_SIZE)]
      && tss.interruptStacks[..] == old(tss.interruptStacks[..])[DOUBLE_FAULT_STACK_INDEX := Wrap(old(boot.start) + HHDM_OFFSET + DOUBLE_FAULT_STACK_SIZE)]
      && tss.privilegeStacks[..] == old(tss.privilegeStacks[..])[0 := Wrap(kernelStackTop + HHDM_OFFSET)]
      && gdt.entries[..] == old(gdt.entries[..])[5 := TssDescriptorLow(tssBase)][6 := TssDescriptorHigh(tssBase)]
  {
    var block := boot.Allocate(DOUBLE_FAULT_STACK_SIZE, 1);
    if block.Err? {
      return Err(OutOfMemory);
    }
    var doubleFaultStack := block.value + HHDM_OFFSET + DOUBLE_FAULT_STACK_SIZE;
    assert block.value == old(boot.start);
    assert Wrap(doubleFaultStack) == Wrap(old(boot.start) + HHDM_OFFSET + DOUBLE_FAULT_STACK_SIZE);
    tss.SetStacks(Wrap(doubleFaultStack), Wrap(kernelStackTop + HHDM_OFFSET));
    gdt.InstallTss(tssBase);
    return Ok(());
  }
}
