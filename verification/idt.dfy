/**
 * The kernel's interrupt descriptor table (`src/arch/x86_64/cpu/idt.rs`).
 * Gate descriptors follow the 64-bit IDT gate layout of section 6.14.1 of
 * the Intel SDM Vol. 3A: offset bits 0-15, the code selector, the IST
 * slot, the type, DPL and present bit in the low word, and offset bits
 * 32-63 in the high word.
 */
module Idt {
  import opened Prelude
  import opened Gdt

  /** `KERNEL_CODE_SELECTOR`, widened to a descriptor word. */
  const GATE_CODE_SELECTOR: bv64 := 8

  lemma KernelCodeWidened()
    ensures GATE_CODE_SELECTOR as int == KERNEL_CODE_SELECTOR as int
  {
  }

  /** An IDT entry: `[low, high]`. */
  datatype Gate = Gate(low: bv64, high: bv64)

  /** The address of the handler: bits 0-15 and 48-63 of the low word, bits 0-31 of the high word. */
  function Offset(g: Gate): bv64 {
    (g.low & 0xFFFF) | ((g.low >> 32) & 0xFFFF_0000) | (g.high << 32)
  }

  /** Bits 16-31: the code segment the handler runs in. */
  function SegmentSelector(g: Gate): bv64 {
    (g.low >> 16) & 0xFFFF
  }

  /** Bits 32-34: the IST slot to switch stacks to, counted from 1 (0 keeps the current stack). */
  function Ist(g: Gate): bv64 {
    (g.low >> 32) & 7
  }

  /** Bits 40-43: the gate type. */
  function GateType(g: Gate): bv64 {
    (g.low >> 40) & 0xF
  }

  /** Bits 45-46: the privilege needed to raise the vector with `int`. */
  function GateDpl(g: Gate): bv64 {
    (g.low >> 45) & 3
  }

  /** Bit 47: the gate is present. */
  predicate IsPresent(g: Gate) {
    (g.low >> 47) & 1 == 1
  }

  /** Bits 35-39 and 44 of the low word and the upper half of the high word must be zero. */
  predicate ReservedClear(g: Gate) {
    (g.low >> 35) & 0x1F == 0 && (g.low >> 44) & 1 == 0 && g.high >> 32 == 0
  }

  /**
   * `create_gate`: a present gate (bit 47) into the kernel's code segment
   * (selector 8 at bit 16), on IST slot `ist`, of type interrupt gate
   * (0xE at bit 40) when it disables interrupts and trap gate (0xF)
   * otherwise.
   */
  function CreateGate(disableInterrupts: bool, offset: bv64, ist: bv64): Gate
    requires ist <= 7
  {
    Gate(((offset & 0xFFFF_0000) << 32) | (offset & 0xFFFF) | (1 << 47) | (ist << 32)
           | (if disableInterrupts then 0xE << 40 else 0xF << 40) | (8 << 16),
         offset >> 32)
  }

  /**
   * Every field decodes back to what the gate was built from: the handler
   * address, the kernel code selector, the IST slot, type 0xE (interrupt
   * gate) when interrupts are disabled and 0xF (trap gate) otherwise,
   * present, ring 0, and nothing in the reserved bits.
   */
  lemma CreateGateDecodes(disableInterrupts: bool, offset: bv64, ist: bv64)
    requires ist <= 7
    ensures Offset(CreateGate(disableInterrupts, offset, ist)) == offset
    ensures SegmentSelector(CreateGate(disableInterrupts, offset, ist)) == GATE_CODE_SELECTOR
    ensures Ist(CreateGate(disableInterrupts, offset, ist)) == ist
    ensures GateType(CreateGate(disableInterrupts, offset, ist)) == (if disableInterrupts then 0xE else 0xF)
    ensures IsPresent(CreateGate(disableInterrupts, offset, ist)) && GateDpl(CreateGate(disableInterrupts, offset, ist)) == 0
    ensures ReservedClear(CreateGate(disableInterrupts, offset, ist))
  {
    var g := CreateGate(disableInterrupts, offset, ist);
    GateOffset(disableInterrupts, offset, ist, g);
    GateSelector(disableInterrupts, offset, ist, g);
    GateIst(disableInterrupts, offset, ist, g);
    GateTypeBits(disableInterrupts, offset, ist, g);
    GateReserved(disableInterrupts, offset, ist, g);
  }

  lemma GateOffset(d: bool, offset: bv64, ist: bv64, g: Gate)
    requires ist <= 7 && g == CreateGate(d, offset, ist)
    ensures Offset(g) == offset
  {
  }

  lemma GateSelector(d: bool, offset: bv64, ist: bv64, g: Gate)
    requires ist <= 7 && g == CreateGate(d, offset, ist)
    ensures SegmentSelector(g) == GATE_CODE_SELECTOR
  {
  }

  lemma GateIst(d: bool, offset: bv64, ist: bv64, g: Gate)
    requires ist <= 7 && g == CreateGate(d, offset, ist)
    ensures Ist(g) == ist
  {
  }

  lemma GateTypeBits(d: bool, offset: bv64, ist: bv64, g: Gate)
    requires ist <= 7 && g == CreateGate(d, offset, ist)
    ensures GateType(g) == (if d then 0xE else 0xF)
    ensures IsPresent(g) && GateDpl(g) == 0
  {
  }

  lemma GateReserved(d: bool, offset: bv64, ist: bv64, g: Gate)
    requires ist <= 7 && g == CreateGate(d, offset, ist)
    ensures ReservedClear(g)
  {
  }

  /** Two gates built from different handlers, IST slots or kinds differ: the encoding loses nothing. */
  lemma CreateGateInjective(d1: bool, o1: bv64, i1: bv64, d2: bool, o2: bv64, i2: bv64)
    requires i1 <= 7 && i2 <= 7
    requires CreateGate(d1, o1, i1) == CreateGate(d2, o2, i2)
    ensures d1 == d2 && o1 == o2 && i1 == i2
  {
    CreateGateDecodes(d1, o1, i1);
    CreateGateDecodes(d2, o2, i2);
  }

  /** `trap_gate`: interrupts stay enabled, no stack switch. */
  function TrapGate(offset: bv64): Gate {
    CreateGate(false, offset, 0)
  }

  /** `interrupt_gate`: interrupts are disabled, no stack switch. */
  function InterruptGate(offset: bv64): Gate {
    CreateGate(true, offset, 0)
  }

  const LAPIC_SPURIOUS_VECTOR: nat := 0x64
  const LAPIC_TIMER_VECTOR: nat := 0x65
  const DOUBLE_FAULT: nat := 8

  /** The IST field of the double-fault gate: `DOUBLE_FAULT_STACK_INDEX + 1`, since the field counts from 1. */
  const DOUBLE_FAULT_IST: bv64 := 1

  lemma DoubleFaultIstWidened()
    ensures DOUBLE_FAULT_IST as int == DOUBLE_FAULT_STACK_INDEX + 1
  {
  }

  /**
   * The exception vectors handled with a trap gate on the current stack:
   * every architectural exception but the double fault (8), the reserved
   * vectors 9, 15 and 22-27, and 31.
   */
  predicate IsTrapVector(v: nat) {
    v <= 7 || 10 <= v <= 14 || 16 <= v <= 21 || 28 <= v <= 30
  }

  /** The local APIC's vectors, handled with interrupts disabled. */
  predicate IsInterruptVector(v: nat) {
    v == LAPIC_SPURIOUS_VECTOR || v == LAPIC_TIMER_VECTOR
  }

  /** The number of vectors. */
  const IDT_LENGTH: nat := 256

  /** The limit loaded into IDTR: 256 gates of 16 bytes, minus one. */
  const IDT_LIMIT: nat := IDT_LENGTH * 16 - 1

  /**
   * The gate `init` installs on vector `v` whose handler is at `handler`:
   * the double fault switches to IST slot `DOUBLE_FAULT_STACK_INDEX + 1`,
   * the other exceptions get trap gates, the APIC vectors interrupt
   * gates, and every other vector nothing.
   */
  function Installed(v: nat, handler: bv64): (g: Option<Gate>)
  {
    if v == DOUBLE_FAULT then Some(CreateGate(false, handler, DOUBLE_FAULT_IST))
    else if IsTrapVector(v) then Some(TrapGate(handler))
    else if IsInterruptVector(v) then Some(InterruptGate(handler))
    else None
  }

  /**
   * The vectors that get a gate are exceptions 0-8, 10-14, 16-21 and
   * 28-30 and the two APIC vectors, all inside the table.
   */
  lemma InstalledVectors(v: nat, handler: bv64)
    ensures Installed(v, handler).Some? <==>
      v in {0, 1, 2, 3, 4, 5, 6, 7, 8, 10, 11, 12, 13, 14, 16, 17, 18, 19, 20, 21, 28, 29, 30, 0x64, 0x65}
    ensures Installed(v, handler).Some? ==> v < IDT_LENGTH
  {
  }

  /**
   * Every installed gate enters the handler at its address, in the
   * kernel's code segment at ring 0; only the APIC vectors disable
   * interrupts; only the double fault switches stacks, to IST1, which
   * is the TSS slot `Gdt.Init` fills with the double-fault stack.
   */
  lemma InstalledGates(v: nat, handler: bv64)
    requires Installed(v, handler).Some?
    ensures Offset(Installed(v, handler).value) == handler
    ensures SegmentSelector(Installed(v, handler).value) == GATE_CODE_SELECTOR
    ensures IsPresent(Installed(v, handler).value) && GateDpl(Installed(v, handler).value) == 0
    ensures GateType(Installed(v, handler).value) == 0xE <==> IsInterruptVector(v)
    ensures GateType(Installed(v, handler).value) == 0xF <==> !IsInterruptVector(v)
    ensures Ist(Installed(v, handler).value) != 0 <==> v == DOUBLE_FAULT
    ensures v == DOUBLE_FAULT ==> (Ist(Installed(v, handler).value) - 1) as nat == DOUBLE_FAULT_STACK_INDEX
  {
    if v == DOUBLE_FAULT {
      CreateGateDecodes(false, handler, 1);
    } else if IsTrapVector(v) {
      CreateGateDecodes(false, handler, 0);
    } else {
      CreateGateDecodes(true, handler, 0);
    }
  }

  /**
   * The table after `init`, from the table `t` before it and the handler
   * address of each vector: the 25 gates written one after the other in
   * the order `init` writes them, taken in three runs.
   */
  function InitTable(t: seq<Gate>, handlers: seq<bv64>): (r: seq<Gate>)
    requires |t| == IDT_LENGTH && |handlers| == IDT_LENGTH
    ensures |r| == IDT_LENGTH
  {
    LateGates(HighExceptionGates(LowExceptionGates(t, handlers), handlers), handlers)
  }

  /** The first run: exceptions 0-7 and the double fault. */
  function LowExceptionGates(t: seq<Gate>, handlers: seq<bv64>): (r: seq<Gate>)
    requires |t| == IDT_LENGTH && |handlers| == IDT_LENGTH
    ensures |r| == IDT_LENGTH
  {
    t
      [0 := TrapGate(handlers[0])]
      [1 := TrapGate(handlers[1])]
      [2 := TrapGate(handlers[2])]
      [3 := TrapGate(handlers[3])]
      [4 := TrapGate(handlers[4])]
      [5 := TrapGate(handlers[5])]
      [6 := TrapGate(handlers[6])]
      [7 := TrapGate(handlers[7])]
      [DOUBLE_FAULT := CreateGate(false, handlers[DOUBLE_FAULT], DOUBLE_FAULT_IST)]
  }

  /** The second run: exceptions 10-14 and 16-21. */
  function HighExceptionGates(t: seq<Gate>, handlers: seq<bv64>): (r: seq<Gate>)
    requires |t| == IDT_LENGTH && |handlers| == IDT_LENGTH
    ensures |r| == IDT_LENGTH
  {
    t
      [10 := TrapGate(handlers[10])]
      [11 := TrapGate(handlers[11])]
      [12 := TrapGate(handlers[12])]
      [13 := TrapGate(handlers[13])]
      [14 := TrapGate(handlers[14])]
      [16 := TrapGate(handlers[16])]
      [17 := TrapGate(handlers[17])]
      [18 := TrapGate(handlers[18])]
      [19 := TrapGate(handlers[19])]
      [20 := TrapGate(handlers[20])]
      [21 := TrapGate(handlers[21])]
  }

  /** The last run: exceptions 28-30 and the two APIC vectors. */
  function LateGates(t: seq<Gate>, handlers: seq<bv64>): (r: seq<Gate>)
    requires |t| == IDT_LENGTH && |handlers| == IDT_LENGTH
    ensures |r| == IDT_LENGTH
  {
    t
      [28 := TrapGate(handlers[28])]
      [29 := TrapGate(handlers[29])]
      [30 := TrapGate(handlers[30])]
      [LAPIC_SPURIOUS_VECTOR := InterruptGate(handlers[LAPIC_SPURIOUS_VECTOR])]
      [LAPIC_TIMER_VECTOR := InterruptGate(handlers[LAPIC_TIMER_VECTOR])]
  }

  predicate InLowRun(v: nat) {
    v <= DOUBLE_FAULT
  }

  predicate InHighRun(v: nat) {
    10 <= v <= 14 || 16 <= v <= 21
  }

  predicate InLateRun(v: nat) {
    28 <= v <= 30 || IsInterruptVector(v)
  }

  lemma LowRunSets(t: seq<Gate>, handlers: seq<bv64>, v: nat)
    requires |t| == IDT_LENGTH && |handlers| == IDT_LENGTH && v < DOUBLE_FAULT
    ensures LowExceptionGates(t, handlers)[v] == TrapGate(handlers[v])
  {
  }

  lemma LowRunKeeps(t: seq<Gate>, handlers: seq<bv64>, v: nat)
    requires |t| == IDT_LENGTH && |handlers| == IDT_LENGTH && DOUBLE_FAULT < v < IDT_LENGTH
    ensures LowExceptionGates(t, handlers)[v] == t[v]
  {
  }

  lemma HighRunSets(t: seq<Gate>, handlers: seq<bv64>, v: nat)
    requires |t| == IDT_LENGTH && |handlers| == IDT_LENGTH && InHighRun(v)
    ensures HighExceptionGates(t, handlers)[v] == TrapGate(handlers[v])
  {
  }

  lemma HighRunKeeps(t: seq<Gate>, handlers: seq<bv64>, v: nat)
    requires |t| == IDT_LENGTH && |handlers| == IDT_LENGTH && v < IDT_LENGTH && !InHighRun(v)
    ensures HighExceptionGates(t, handlers)[v] == t[v]
  {
  }

  lemma LateRunSets(t: seq<Gate>, handlers: seq<bv64>, v: nat)
    requires |t| == IDT_LENGTH && |handlers| == IDT_LENGTH && InLateRun(v)
    ensures LateGates(t, handlers)[v] == if 28 <= v <= 30 then TrapGate(handlers[v]) else InterruptGate(handlers[v])
  {
  }

  lemma LateRunKeeps(t: seq<Gate>, handlers: seq<bv64>, v: nat)
    requires |t| == IDT_LENGTH && |handlers| == IDT_LENGTH && v < IDT_LENGTH && !InLateRun(v)
    ensures LateGates(t, handlers)[v] == t[v]
  {
  }

  /** What each run writes on one of its vectors is the gate `Installed` gives that vector. */
  lemma RunGates(v: nat, handler: bv64)
    ensures v < DOUBLE_FAULT || InHighRun(v) || 28 <= v <= 30 ==> Installed(v, handler) == Some(TrapGate(handler))
    ensures v == DOUBLE_FAULT ==> Installed(v, handler) == Some(CreateGate(false, handler, DOUBLE_FAULT_IST))
    ensures IsInterruptVector(v) ==> Installed(v, handler) == Some(InterruptGate(handler))
  {
  }

  /** The three runs together are the vectors that get a gate, and no vector is in two runs. */
  lemma RunsAreInstalled(v: nat, handler: bv64)
    ensures Installed(v, handler).Some? <==> InLowRun(v) || InHighRun(v) || InLateRun(v)
    ensures !(InLowRun(v) && InHighRun(v)) && !(InLowRun(v) && InLateRun(v)) && !(InHighRun(v) && InLateRun(v))
  {
  }

  /**
   * After `init`, vector `v` holds the gate `Installed` gives it, and a
   * vector that gets none keeps what it held.
   */
  lemma {:induction false} InitTableInstalls(t: seq<Gate>, handlers: seq<bv64>)
    requires |t| == IDT_LENGTH && |handlers| == IDT_LENGTH
    ensures |InitTable(t, handlers)| == IDT_LENGTH
    ensures forall v :: 0 <= v < IDT_LENGTH && Installed(v, handlers[v]).Some? ==>
      InitTable(t, handlers)[v] == Installed(v, handlers[v]).value
    ensures forall v :: 0 <= v < IDT_LENGTH && Installed(v, handlers[v]).None? ==> InitTable(t, handlers)[v] == t[v]
  {
    var low := LowExceptionGates(t, handlers);
    var high := HighExceptionGates(low, handlers);
    forall v | 0 <= v < IDT_LENGTH
      ensures InitTable(t, handlers)[v] == if Installed(v, handlers[v]).Some? then Installed(v, handlers[v]).value else t[v]
    {
      RunsAreInstalled(v, handlers[v]);
      RunGates(v, handlers[v]);
      if v < DOUBLE_FAULT {
        LowRunSets(t, handlers, v);
      } else if DOUBLE_FAULT < v {
        LowRunKeeps(t, handlers, v);
      }
      if InHighRun(v) {
        HighRunSets(low, handlers, v);
      } else {
        HighRunKeeps(low, handlers, v);
      }
      if InLateRun(v) {
        LateRunSets(high, handlers, v);
      } else {
        LateRunKeeps(high, handlers, v);
      }
    }
  }

  /** The kernel's interrupt descriptor table: `IDT`. */
  class InterruptTable {
    const entries: array<Gate>

    /** Every gate empty (`[0, 0]`), as the kernel image holds it. */
    constructor ()
      ensures entries.Length == IDT_LENGTH && fresh(entries)
      ensures forall v :: 0 <= v < IDT_LENGTH ==> entries[v] == Gate(0, 0)
    {
      entries := new Gate[256](_ => Gate(0, 0));
    }

    /** `IDT[v] = g`. */
    method Set(v: nat, g: Gate)
      requires v < entries.Length
      modifies entries
      ensures entries[..] == old(entries[..])[v := g]
    {
      entries[v] := g;
    }

    /**
     * `init`: writes the gate of every exception and APIC vector, the
     * handler of vector `v` being at `handlers[v]`; `InitTableInstalls`
     * says what each vector then holds.
     */
    method Init(handlers: seq<bv64>)
      requires entries.Length == IDT_LENGTH && |handlers| == IDT_LENGTH
      modifies entries
      ensures entries[..] == InitTable(old(entries[..]), handlers)
    {
      WriteLowExceptions(handlers);
      WriteHighExceptions(handlers);
      WriteLate(handlers);
    }

    method WriteLowExceptions(handlers: seq<bv64>)
      requires entries.Length == IDT_LENGTH && |handlers| == IDT_LENGTH
      modifies entries
      ensures entries[..] == LowExceptionGates(old(entries[..]), handlers)
    {
      Set(0, TrapGate(handlers[0]));
      Set(1, TrapGate(handlers[1]));
      Set(2, TrapGate(handlers[2]));
      Set(3, TrapGate(handlers[3]));
      Set(4, TrapGate(handlers[4]));
      Set(5, TrapGate(handlers[5]));
      Set(6, TrapGate(handlers[6]));
      Set(7, TrapGate(handlers[7]));
      Set(DOUBLE_FAULT, CreateGate(false, handlers[DOUBLE_FAULT], DOUBLE_FAULT_IST));
    }

    method WriteHighExceptions(handlers: seq<bv64>)
      requires entries.Length == IDT_LENGTH && |handlers| == IDT_LENGTH
      modifies entries
      ensures entries[..] == HighExceptionGates(old(entries[..]), handlers)
    {
      Set(10, TrapGate(handlers[10]));
      Set(11, TrapGate(handlers[11]));
      Set(12, TrapGate(handlers[12]));
      Set(13, TrapGate(handlers[13]));
      Set(14, TrapGate(handlers[14]));
      Set(16, TrapGate(handlers[16]));
      Set(17, TrapGate(handlers[17]));
      Set(18, TrapGate(handlers[18]));
      Set(19, TrapGate(handlers[19]));
      Set(20, TrapGate(handlers[20]));
      Set(21, TrapGate(handlers[21]));
    }

    method WriteLate(handlers: seq<bv64>)
      requires entries.Length == IDT_LENGTH && |handlers| == IDT_LENGTH
      modifies entries
      ensures entries[..] == LateGates(old(entries[..]), handlers)
    {
      Set(28, TrapGate(handlers[28]));
      Set(29, TrapGate(handlers[29]));
      Set(30, TrapGate(handlers[30]));
      Set(LAPIC_SPURIOUS_VECTOR, InterruptGate(handlers[LAPIC_SPURIOUS_VECTOR]));
      Set(LAPIC_TIMER_VECTOR, InterruptGate(handlers[LAPIC_TIMER_VECTOR]));
    }
  }
}
