/**
 * The entry point of the `syscall` instruction and its set-up
 * (`src/arch/x86_64/syscall/mod.rs`): which handler a call number selects,
 * how the registers become the handler's arguments, where the caller's
 * stack pointer is saved, and the values written to the STAR and EFER
 * model-specific registers. The selector loads follow section 5.8.8 of
 * the Intel SDM Vol. 3A.
 */
module SystemCall {
  import opened Prelude
  import opened Mem
  import opened SysResult
  import opened Abi
  import opened Gdt
  import opened KernelStack

  /** `SYSTEM_CALL_COUNT`: the length of the handler table. */
  const SYSTEM_CALL_COUNT: nat := 5

  /** `SYSTEM_CALLS`: the handler of each call number, in table order. */
  const SYSTEM_CALLS: seq<Syscall> :=
    [Terminate, MapMemory, UnmapMemory, AcquireFramebuffer, ReleaseFramebuffer]

  /** The table has one slot per call and slot `n` holds the call numbered `n`. */
  lemma TableMatchesNumbers()
    ensures |SYSTEM_CALLS| == SYSTEM_CALL_COUNT == SYSCALL_COUNT
    ensures forall s: Syscall :: SYSTEM_CALLS[Number(s)] == s
    ensures forall n :: 0 <= n < |SYSTEM_CALLS| ==> Number(SYSTEM_CALLS[n]) == n
  {
    forall s: Syscall ensures SYSTEM_CALLS[Number(s)] == s {
      match s
      case Terminate =>
      case MapMemory =>
      case UnmapMemory =>
      case AcquireFramebuffer =>
      case ReleaseFramebuffer =>
    }
  }

  /** The registers a user program loads before `syscall`. */
  datatype Registers = Registers(rax: Word, rdi: Word, rsi: Word, rdx: Word, r10: Word, r8: Word, r9: Word)

  /**
   * The six arguments of a handler in the order of the C calling
   * convention; `rcx` carries the return address, so the fourth argument
   * travels in `r10` and is moved to `rcx` before the call.
   */
  function Arguments(regs: Registers): (args: seq<Word>)
    ensures |args| == 6
  {
    [regs.rdi, regs.rsi, regs.rdx, regs.r10, regs.r8, regs.r9]
  }

  /** What the entry code does with a request. */
  datatype Action =
    | Call(handler: Syscall, args: seq<Word>)
    | Return(value: Word)

  /**
   * `system_call`: a number at or above the table length returns
   * `INVALID_VALUE` at once (an unsigned comparison, `jae`); any other
   * number calls its table slot with the argument registers.
   */
  function Dispatch(regs: Registers): (a: Action)
    ensures a.Return? <==> regs.rax >= SYSTEM_CALL_COUNT
    ensures a.Return? ==> a.value == INVALID_VALUE && IsError(a.value)
    ensures a.Call? ==> Number(a.handler) == regs.rax && a.args == Arguments(regs)
  {
    TableMatchesNumbers();
    if regs.rax >= SYSTEM_CALL_COUNT then Return(INVALID_VALUE)
    else Call(SYSTEM_CALLS[regs.rax], Arguments(regs))
  }

  /**
   * The dispatch agrees with the interface's own numbering: a number names
   * a call exactly when it is dispatched, and it is that call that runs.
   */
  lemma DispatchMatchesAbi(regs: Registers)
    ensures FromNumber(regs.rax).None? <==> Dispatch(regs) == Return(INVALID_VALUE)
    ensures FromNumber(regs.rax).Some? ==> Dispatch(regs) == Call(FromNumber(regs.rax).value, Arguments(regs))
  {
  }

  /** Only the number selects the handler: the argument registers never change which call runs. */
  lemma DispatchIgnoresArguments(a: Registers, b: Registers)
    requires a.rax == b.rax
    ensures Dispatch(a).Return? <==> Dispatch(b).Return?
    ensures Dispatch(a).Call? ==> Dispatch(a).handler == Dispatch(b).handler
  {
  }

  /**
   * The value left in `rax` for the caller: the handler's result, returned
   * unchanged, or `INVALID_VALUE`. The handlers themselves are a parameter.
   */
  function ReturnValue(regs: Registers, handle: (Syscall, seq<Word>) -> Word): (w: Word)
    ensures regs.rax >= SYSTEM_CALL_COUNT ==> w == INVALID_VALUE
    ensures regs.rax < SYSTEM_CALL_COUNT ==> w == handle(SYSTEM_CALLS[regs.rax], Arguments(regs))
  {
    match Dispatch(regs)
    case Return(value) => value
    case Call(handler, args) => handle(handler, args)
  }

  /**
   * Where the entry code stores the caller's stack pointer: one word below
   * the top of the kernel stack, seen through the direct map. The slot is
   * a word inside the stack, so the stack stays usable below it.
   */
  function SavedStackSlot(kernelStackTop: nat): (slot: nat)
    requires kernelStackTop >= KERNEL_STACK_SIZE
    ensures kernelStackTop - KERNEL_STACK_SIZE + HHDM_OFFSET <= slot
    ensures slot + 8 == kernelStackTop + HHDM_OFFSET
  {
    (HHDM_OFFSET - 8) + kernelStackTop
  }

  /** `SYSRET_BASE`: the user code selector less two descriptors. */
  const SYSRET_BASE: bv16 := USER_CODE_SELECTOR - 2 * 8
  /** `SYSCALL_BASE`: the kernel code selector. */
  const SYSCALL_BASE: bv16 := KERNEL_CODE_SELECTOR

  /** The layout facts the entry code's debug assertions check. */
  lemma SelectorBasesConsistent()
    ensures Rpl(USER_CODE_SELECTOR) == 3 && Rpl(USER_DATA_SELECTOR) == 3
    ensures USER_CODE_SELECTOR == SYSRET_BASE + 16 && USER_DATA_SELECTOR == SYSRET_BASE + 8
    ensures Rpl(KERNEL_CODE_SELECTOR) == 0 && Rpl(KERNEL_DATA_SELECTOR) == 0
    ensures KERNEL_CODE_SELECTOR == SYSCALL_BASE && KERNEL_DATA_SELECTOR == SYSCALL_BASE + 8
  {
  }

  /** The two bases, widened to the register word. */
  const SYSRET_BASE_WORD: bv64 := 19
  const SYSCALL_BASE_WORD: bv64 := 8

  lemma BasesWidened()
    ensures SYSRET_BASE_WORD as int == SYSRET_BASE as int
    ensures SYSCALL_BASE_WORD as int == SYSCALL_BASE as int
  {
  }

  /** The value written to STAR: the SYSCALL base in bits 32-47, the SYSRET base in bits 48-63. */
  const STAR: bv64 := (SYSCALL_BASE_WORD << 32) | (SYSRET_BASE_WORD << 48)

  /** The selectors the processor loads from STAR. */
  datatype Segments = Segments(cs: bv64, ss: bv64)

  /** `syscall` loads CS from bits 32-47 with the RPL cleared, and SS from the next descriptor. */
  function SyscallSegments(star: bv64): Segments {
    var base := (star >> 32) & 0xFFFF;
    Segments(base & 0xFFFC, (base + 8) & 0xFFFF)
  }

  /** A 64-bit `sysret` loads CS from bits 48-63 plus 16 and SS plus 8, both with RPL 3. */
  function SysretSegments(star: bv64): Segments {
    var base := star >> 48;
    Segments(((base + 16) | 3) & 0xFFFF, ((base + 8) | 3) & 0xFFFF)
  }

  /**
   * The STAR value sends `syscall` to the kernel's code and data segments
   * and `sysret` back to the user code and data segments.
   */
  lemma StarSelectsSegments()
    ensures SyscallSegments(STAR).cs as int == KERNEL_CODE_SELECTOR as int
    ensures SyscallSegments(STAR).ss as int == KERNEL_DATA_SELECTOR as int
    ensures SysretSegments(STAR).cs as int == USER_CODE_SELECTOR as int
    ensures SysretSegments(STAR).ss as int == USER_DATA_SELECTOR as int
    ensures STAR & 0xFFFF_FFFF == 0
  {
    assert STAR == 0x0013_0008_0000_0000;
    assert SyscallSegments(STAR) == Segments(8, 16);
    assert SysretSegments(STAR) == Segments(35, 27);
  }

  /** Bit 0 of EFER: the `syscall`/`sysret` instructions are enabled. */
  const SYSCALL_ENABLE: bv64 := 1

  /** `efer.insert(SYSCALL_ENABLE)`: the enable bit is set and every other bit is kept. */
  function EnableSyscall(efer: bv64): (r: bv64)
    ensures r & 1 == 1
    ensures r & !1 == efer & !1
  {
    efer | SYSCALL_ENABLE
  }

  /** Enabling twice is enabling once, and an enabled register is left as it is. */
  lemma EnableSyscallIdempotent(efer: bv64)
    ensures EnableSyscall(EnableSyscall(efer)) == EnableSyscall(efer)
    ensures efer & 1 == 1 ==> EnableSyscall(efer) == efer
  {
  }
}
