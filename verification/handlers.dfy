/**
 * The system-call handlers (`src/arch/x86_64/syscall/handlers.rs`). The
 * calling process is the only one a call may name: process identifier 0.
 * Its address space is the root table `l4` in `mem`, and the physical
 * pages come from the memory tracker.
 */
module Handlers {
  import opened Bits
  import opened Prelude
  import opened Mem
  import opened Tracker
  import opened PageEntry
  import opened PageTree
  import opened Paging
  import opened SysResult
  import Abi
  import PublicData
  import Process

  /*
   * Argument checks.
   */

  /** `a.saturating_add(b)` on words: the sum, or the largest word when the sum does not fit. */
  function SaturatingAdd(a: nat, b: nat): (r: nat)
  {
    if a + b < U64_LIMIT then a + b else U64_LIMIT - 1
  }

  /** On words, the saturated sum passes the user-space bound exactly when the true sum does. */
  lemma SaturatingAddAbove(a: nat, b: nat, bound: nat)
    requires a < U64_LIMIT && b < U64_LIMIT && bound < U64_LIMIT - 1
    ensures SaturatingAdd(a, b) < U64_LIMIT
    ensures SaturatingAdd(a, b) > bound <==> a + b > bound
  {
  }

  /**
   * The checks `map_memory` and `unmap_memory` share: the calling process
   * (identifier 0), then a page-aligned address and length, then a range
   * that ends at or below `USER_TOP`. The result is the error to return, if any.
   */
  function RangeError(processId: nat, virt: nat, length: nat): (e: Option<Word>)
  {
    if processId != 0 then Some(INVALID_PROCESS_ID)
    else if virt % PAGE_SIZE != 0 || length % PAGE_SIZE != 0 then Some(INVALID_VALUE)
    else if SaturatingAdd(virt, length) > USER_TOP then Some(INVALID_VALUE)
    else None
  }

  /**
   * A range is accepted exactly when the caller names itself and the
   * range is page aligned and lies in the user half; a foreign process is
   * reported as such, every other rejection as an invalid value.
   */
  lemma RangeErrorCases(processId: nat, virt: nat, length: nat)
    requires virt < U64_LIMIT && length < U64_LIMIT
    ensures RangeError(processId, virt, length).None? <==>
      processId == 0 && virt % PAGE_SIZE == 0 && length % PAGE_SIZE == 0 && virt + length <= USER_TOP
    ensures RangeError(processId, virt, length) == Some(INVALID_PROCESS_ID) <==> processId != 0
    ensures RangeError(processId, virt, length).Some? && processId == 0 ==>
      RangeError(processId, virt, length) == Some(INVALID_VALUE)
  {
    SaturatingAddAbove(virt, length, USER_TOP);
    ErrorValuesDistinct(InvalidProcessId, InvalidValue);
  }

  /** The checks of `map_memory`: those of the range, then flags with no unknown bit. */
  function MapError(processId: nat, virt: nat, length: nat, flags: nat): (e: Option<Word>)
  {
    if RangeError(processId, virt, length).Some? then RangeError(processId, virt, length)
    else if Abi.FromBits(flags).None? then Some(INVALID_VALUE)
    else None
  }

  /** The mapping is attempted exactly when the range is accepted and the flags are known ones. */
  lemma MapErrorCases(processId: nat, virt: nat, length: nat, flags: nat)
    requires virt < U64_LIMIT && length < U64_LIMIT
    ensures MapError(processId, virt, length, flags).None? <==>
      RangeError(processId, virt, length).None? && flags < 4
    ensures MapError(processId, virt, length, flags) == Some(INVALID_PROCESS_ID) <==> processId != 0
  {
    RangeErrorCases(processId, virt, length);
    ErrorValuesDistinct(InvalidProcessId, InvalidValue);
  }

  /*
   * Page flags.
   */

  /** `USER`, plus `WRITABLE` for writable pages, plus `NO_EXECUTE` unless the pages are executable. */
  function PageFlagsFor(f: Abi.MapFlags): nat
  {
    var p := if f.writable then Or(USER, WRITABLE) else USER;
    if f.executable then p else Or(p, NO_EXECUTE)
  }

  /** The translated flags have bit 2, bit 1 exactly for writable pages, bit 63 exactly for pages that may not execute, and nothing else. */
  lemma PageFlagsBits(f: Abi.MapFlags)
    ensures forall k: nat :: Bit(PageFlagsFor(f), k) <==> k == 2 || (k == 1 && f.writable) || (k == 63 && !f.executable)
  {
    Pow2Bits(1);
    Pow2Bits(2);
    Pow2Bits(63);
  }

  /**
   * The translated flags always allow user access, allow writes exactly
   * when asked, forbid execution exactly when not asked to allow it, and
   * hold no other bit, so they may be given to `map_4kib`.
   */
  lemma PageFlagsMeaning(f: Abi.MapFlags)
    ensures IsMapFlags(PageFlagsFor(f))
    ensures Bit(PageFlagsFor(f), 2)
    ensures Bit(PageFlagsFor(f), 1) <==> f.writable
    ensures Bit(PageFlagsFor(f), 63) <==> !f.executable
    ensures forall k: nat :: Bit(PageFlagsFor(f), k) ==> k == 1 || k == 2 || k == 63
  {
    PageFlagsBits(f);
  }

  /*
   * `map_memory`.
   */

  /** Page `j` of the range starting at `virt` is mapped to `frames[j]`. */
  ghost predicate MapsFrames(tables: Tables, l4: nat, virt: nat, frames: seq<nat>)
  {
    forall j :: 0 <= j < |frames| ==> MapsSlot(tables, l4, virt + j * PAGE_SIZE, 1, frames[j])
  }

  /**
   * The frames are distinct, page aligned, addressable, came off the free list `free0`
   * and are not on the free list `free`, which has only lost entries since.
   */
  ghost predicate FramesTaken(frames: seq<nat>, free0: seq<nat>, free: seq<nat>)
  {
    && free <= free0
    && (forall j :: 0 <= j < |frames| ==>
          frames[j] % PAGE_SIZE == 0 && frames[j] < PHYS_LIMIT && frames[j] / PAGE_SIZE in free0 && frames[j] / PAGE_SIZE !in free)
    && (forall i, j :: 0 <= i < j < |frames| ==> frames[i] != frames[j])
  }

  /**
   * Where the loop of `map_memory` stands in `[virt, end)`: the pages before
   * `v` map to `frames`, the walks of the rest meet no large page, and nothing
   * of the window outside the range has changed since `t0`.
   */
  ghost predicate MapState(t0: Tables, tables: Tables, l4: nat, virt: nat, end: nat, v: nat, frames: seq<nat>)
  {
    && NoHugeIn(tables, l4, v, end)
    && SameBeside(t0, tables, l4, virt, end) && NoHugeBeside(t0, tables, l4, virt, end)
    && MapsFrames(tables, l4, virt, frames)
  }

  /** The 4 KiB entry of page `j` of the range starting at `virt` is `frames[j] | PRESENT | flags`. */
  ghost predicate LeavesCarry(tables: Tables, l4: nat, virt: nat, frames: seq<nat>, flags: nat)
  {
    forall j :: 0 <= j < |frames| ==> LeafIs(tables, l4, virt + j * PAGE_SIZE, frames[j], flags)
  }

  /** Mapping the page at `v`, right after the pages of `frames`, keeps their entries. */
  lemma LeavesKept(a: Tables, b: Tables, l4: nat, virt: nat, frames: seq<nat>, v: nat, flags: nat)
    requires virt % PAGE_SIZE == 0 && v == virt + |frames| * PAGE_SIZE && v < WINDOW
    requires LeavesCarry(a, l4, virt, frames, flags) && EntriesKeptOutside(a, b, l4, v)
    ensures LeavesCarry(b, l4, virt, frames, flags)
  {
    forall j | 0 <= j < |frames| ensures LeafIs(b, l4, virt + j * PAGE_SIZE, frames[j], flags) {
      BelowPage(virt + j * PAGE_SIZE, v);
      LeafKept(a, b, l4, v, virt + j * PAGE_SIZE, frames[j], flags);
    }
  }

  /** The entry of the page right after the pages of `frames` joins them. */
  lemma LeavesPush(tables: Tables, l4: nat, virt: nat, frames: seq<nat>, phys: nat, flags: nat)
    requires LeavesCarry(tables, l4, virt, frames, flags) && LeafIs(tables, l4, virt + |frames| * PAGE_SIZE, phys, flags)
    ensures LeavesCarry(tables, l4, virt, frames + [phys], flags)
  {
  }

  /**
   * The 4 KiB entry of `v` lets user code reach the page, lets it write
   * exactly when `f` is writable, and lets it execute exactly when `f` is
   * executable.
   */
  ghost predicate Permits(tables: Tables, l4: nat, v: nat, f: Abi.MapFlags)
  {
    var e := WalkEntry(tables, l4, v, 1);
    && e.Some? && Bit(e.value, 0) && Bit(e.value, 2)
    && (Bit(e.value, 1) <==> f.writable)
    && (Bit(e.value, 63) <==> !f.executable)
  }

  /** The entry `page | PRESENT | PageFlagsFor(f)` grants what `f` asks and nothing else of those three. */
  lemma LeafPermits(tables: Tables, l4: nat, v: nat, page: nat, f: Abi.MapFlags)
    requires LeafIs(tables, l4, v, page, PageFlagsFor(f)) && page % PAGE_SIZE == 0 && page < PHYS_LIMIT
    ensures Permits(tables, l4, v, f)
  {
    var e := WalkEntry(tables, l4, v, 1).value;
    PageFlagsMeaning(f);
    Pow2Values();
    AlignedBits(page, 12);
    NoBitAbove(page, 52, 63);
    assert !Bit(page, 1) && !Bit(page, 2);
    assert Bit(e, 0) && Bit(e, 2);
    assert Bit(e, 1) <==> Bit(PageFlagsFor(f), 1);
    assert Bit(e, 63) <==> Bit(PageFlagsFor(f), 63);
  }

  /**
   * The pages `map_memory` mapped are user pages, writable exactly when
   * the flags say so and executable exactly when they say so.
   */
  lemma MappedPermits(tables: Tables, l4: nat, virt: nat, frames: seq<nat>, f: Abi.MapFlags, free0: seq<nat>, free: seq<nat>)
    requires virt % PAGE_SIZE == 0
    requires LeavesCarry(tables, l4, virt, frames, PageFlagsFor(f)) && FramesTaken(frames, free0, free)
    ensures forall v :: virt <= v < virt + |frames| * PAGE_SIZE && v % PAGE_SIZE == 0 ==> Permits(tables, l4, v, f)
  {
    forall v | virt <= v < virt + |frames| * PAGE_SIZE && v % PAGE_SIZE == 0 ensures Permits(tables, l4, v, f) {
      var j := (v - virt) / PAGE_SIZE;
      assert v - virt == PAGE_SIZE * j;
      assert j < |frames|;
      assert v == virt + j * PAGE_SIZE;
      LeafPermits(tables, l4, v, frames[j], f);
    }
  }

  /** Two addresses in the same slot as a third share their slot. */
  lemma SameSlotShared(u: nat, w: nat, v: nat, m: nat)
    requires 1 <= m
    ensures SameSlot(u, w, m) && SameSlot(u, v, m) ==> SameSlot(w, v, m)
  {
  }

  /** Mapping the page at `v` keeps the mapping of a page `w` below it in the lower window. */
  lemma SlotKept(a: Tables, b: Tables, l4: nat, w: nat, v: nat, f: nat)
    requires v % PAGE_SIZE == 0 && w < v < WINDOW
    requires SameOutside(a, b, l4, v, 1) && MapsSlot(a, l4, w, 1, f)
    ensures MapsSlot(b, l4, w, 1, f)
  {
    BelowPage(w, v);
    forall u: nat | SameSlot(u, w, 1) ensures Translate(b, l4, u) == Some(f + u % Pow2(Shift(1))) {
      SlotPoint(a, b, l4, w, v, f, u);
    }
  }

  /** An address below a page of the lower window is outside that page. */
  lemma BelowPage(w: nat, v: nat)
    requires v % PAGE_SIZE == 0 && w < v < WINDOW
    ensures !SameSlot(w, v, 1)
  {
    OutBlock(w, v, 1);
  }

  /** One address of the page of `SlotKept`. */
  lemma SlotPoint(a: Tables, b: Tables, l4: nat, w: nat, v: nat, f: nat, u: nat)
    requires !SameSlot(w, v, 1) && SameSlot(u, w, 1)
    requires SameOutside(a, b, l4, v, 1) && MapsSlot(a, l4, w, 1, f)
    ensures Translate(b, l4, u) == Some(f + u % Pow2(Shift(1)))
  {
    SameSlotShared(u, w, v, 1);
    assert !SameSlot(u, v, 1);
    assert Translate(b, l4, u) == Translate(a, l4, u);
  }

  /** After the page at `v`, right after the pages of `frames`, maps to `phys`, the pages of `frames + [phys]` are mapped. */
  lemma FramesStep(a: Tables, b: Tables, l4: nat, virt: nat, frames: seq<nat>, v: nat, phys: nat)
    requires virt % PAGE_SIZE == 0 && v == virt + |frames| * PAGE_SIZE && v < WINDOW
    requires MapsFrames(a, l4, virt, frames)
    requires SameOutside(a, b, l4, v, 1) && MapsSlot(b, l4, v, 1, phys)
    ensures MapsFrames(b, l4, virt, frames + [phys])
  {
    var fs := frames + [phys];
    forall j | 0 <= j < |fs| ensures MapsSlot(b, l4, virt + j * PAGE_SIZE, 1, fs[j]) {
      if j < |frames| {
        assert virt + j * PAGE_SIZE < v;
        SlotKept(a, b, l4, virt + j * PAGE_SIZE, v, frames[j]);
      }
    }
  }

  /**
   * The frame `phys` popped off the free list `before`, leaving at most a
   * prefix of the rest as `after`, joins the frames taken so far.
   */
  lemma TakeStep(frames: seq<nat>, free0: seq<nat>, before: seq<nat>, after: seq<nat>, n: nat, phys: nat)
    requires FramesTaken(frames, free0, before) && DistinctBelow(before, n)
    requires before != [] && phys == before[|before| - 1] * PAGE_SIZE && phys < PHYS_LIMIT
    requires after <= before[..|before| - 1]
    ensures FramesTaken(frames + [phys], free0, after)
  {
    var top := before[|before| - 1];
    assert phys / PAGE_SIZE == top;
    assert top in before;
    assert forall x :: x in after ==> x in before[..|before| - 1];
    assert top !in before[..|before| - 1];
  }

  /** One page further on: a non-zero page-aligned length holds a page, and both cursors stay page aligned. */
  lemma PageStep(v: nat, left: nat)
    requires v % PAGE_SIZE == 0 && left % PAGE_SIZE == 0 && left != 0
    ensures left >= PAGE_SIZE && (v + PAGE_SIZE) % PAGE_SIZE == 0 && (left - PAGE_SIZE) % PAGE_SIZE == 0
  {
    assert left == PAGE_SIZE * (left / PAGE_SIZE);
  }

  /** Pages keep their frames across a change that keeps every translation. */
  lemma FramesKept(a: Tables, b: Tables, l4: nat, virt: nat, frames: seq<nat>)
    requires SameTranslation(a, b, l4) && MapsFrames(a, l4, virt, frames)
    ensures MapsFrames(b, l4, virt, frames)
  {
  }

  /** The frames taken stay taken while the free list only loses entries. */
  lemma TakeShrink(frames: seq<nat>, free0: seq<nat>, before: seq<nat>, after: seq<nat>)
    requires FramesTaken(frames, free0, before) && after <= before
    ensures FramesTaken(frames, free0, after)
  {
    assert forall x :: x in after ==> x in before;
  }

  /**
   * The tables after `map_4kib` of the page at `v` to `phys` in a round of
   * `MapPage`: whether or not it mapped the page, nothing of the window
   * outside the range has changed and the earlier pages keep their frames
   * and entries; if it did, the page joins them.
   */
  lemma PageTables(t0: Tables, a: Tables, b: Tables, l4: nat, virt: nat, end: nat, v: nat, frames: seq<nat>, phys: nat,
                   flags: nat, mapped: bool)
    requires virt % PAGE_SIZE == 0 && v == virt + |frames| * PAGE_SIZE && v + PAGE_SIZE <= end && end <= WINDOW
    requires MapState(t0, a, l4, virt, end, v, frames) && LeavesCarry(a, l4, virt, frames, flags)
    requires SameOutside(a, b, l4, v, 1) && NoHugeKeptOutside(a, b, l4, v, 1) && EntriesKeptOutside(a, b, l4, v)
    requires mapped ==> MapsSlot(b, l4, v, 1, phys) && LeafIs(b, l4, v, phys, flags)
    requires !mapped ==> SameTranslation(a, b, l4)
    ensures SameBeside(t0, b, l4, virt, end) && NoHugeBeside(t0, b, l4, virt, end)
    ensures !mapped ==> MapsFrames(b, l4, virt, frames) && LeavesCarry(b, l4, virt, frames, flags)
    ensures mapped ==> MapState(t0, b, l4, virt, end, v + PAGE_SIZE, frames + [phys])
    ensures mapped ==> LeavesCarry(b, l4, virt, frames + [phys], flags)
  {
    assert virt % WINDOW == virt;
    BesideStep(t0, a, b, l4, virt, end, v, 1);
    LeavesKept(a, b, l4, virt, frames, v, flags);
    if mapped {
      LeavesPush(b, l4, virt, frames, phys, flags);
      PendingStep(a, b, l4, virt, end, v, 1);
      FramesStep(a, b, l4, virt, frames, v, phys);
    } else {
      FramesKept(a, b, l4, virt, frames);
    }
  }

  /**
   * One round of the loop of `map_memory`: pops a frame and maps the page
   * at `v` to it. Fails when the tracker is empty or a table cannot be
   * allocated, which happens only once the free list is empty; either way
   * nothing of the window outside the range changes.
   */
  method MapPage(mem: PhysicalMemory, tracker: MemoryTracker, l4: nat, v: nat, pageFlags: nat,
                 ghost t0: Tables, ghost virt: nat, ghost end: nat, ghost frames: seq<nat>, ghost free0: seq<nat>)
    returns (ok: bool, phys: nat)
    requires mem.Valid(l4) && SourceOk(Tracker(tracker), mem.tables.Keys) && IsMapFlags(pageFlags)
    requires virt % PAGE_SIZE == 0 && v == virt + |frames| * PAGE_SIZE && v + PAGE_SIZE <= end && end <= WINDOW
    requires MapState(t0, mem.tables, l4, virt, end, v, frames) && FramesTaken(frames, free0, tracker.FreeList())
    requires LeavesCarry(mem.tables, l4, virt, frames, pageFlags)
    modifies mem, tracker, tracker.freePages
    ensures mem.Valid(l4) && SourceOk(Tracker(tracker), mem.tables.Keys)
    ensures SameBeside(t0, mem.tables, l4, virt, end) && NoHugeBeside(t0, mem.tables, l4, virt, end)
    ensures FramesTaken(frames, free0, tracker.FreeList())
    ensures !ok ==> MapsFrames(mem.tables, l4, virt, frames) && LeavesCarry(mem.tables, l4, virt, frames, pageFlags)
    ensures !ok ==> tracker.FreeList() == []
    ensures ok ==> MapState(t0, mem.tables, l4, virt, end, v + PAGE_SIZE, frames + [phys])
    ensures ok ==> LeavesCarry(mem.tables, l4, virt, frames + [phys], pageFlags)
    ensures ok ==> FramesTaken(frames + [phys], free0, tracker.FreeList())
  {
    assert virt % WINDOW == virt;
    ghost var a := mem.tables;
    ghost var before := tracker.FreeList();
    var frame := tracker.Allocate();
    if frame.Err? {
      assert mem.tables == a && tracker.FreeList() == [];
      TakeShrink(frames, free0, before, []);
      return false, 0;
    }
    phys := frame.value;
    forall t | t in mem.tables.Keys ensures t / PAGE_SIZE !in tracker.FreeList() {
      assert t / PAGE_SIZE !in before;
    }
    assert SourceOk(Tracker(tracker), mem.tables.Keys);
    assert phys < PHYS_LIMIT by {
      MulMono(PAGE_SIZE, phys / PAGE_SIZE + 1, tracker.pageCount);
    }
    var res := Map4KiB(mem, Tracker(tracker), l4, v, phys, pageFlags);
    PageTables(t0, a, mem.tables, l4, virt, end, v, frames, phys, pageFlags, res.Ok?);
    TakeShrink(frames, free0, before, tracker.FreeList());
    if res.Err? {
      return false, phys;
    }
    TakeStep(frames, free0, before, tracker.FreeList(), tracker.pageCount, phys);
    ok := true;
  }

  /**
   * The loop of `map_memory`: maps the pages of `[virt, virt + length)` in
   * order, each to a frame popped off the free list, and stops at the first
   * round that fails. The pages mapped so far keep their frames; on
   * success they are all the pages of the range.
   */
  method MapPages(mem: PhysicalMemory, tracker: MemoryTracker, l4: nat, virt: nat, length: nat, pageFlags: nat)
    returns (ok: bool, ghost frames: seq<nat>)
    requires mem.Valid(l4) && SourceOk(Tracker(tracker), mem.tables.Keys) && IsMapFlags(pageFlags)
    requires virt % PAGE_SIZE == 0 && length % PAGE_SIZE == 0 && virt + length <= WINDOW
    requires NoHugeIn(mem.tables, l4, virt, virt + length)
    modifies mem, tracker, tracker.freePages
    ensures mem.Valid(l4) && SourceOk(Tracker(tracker), mem.tables.Keys)
    ensures SameBeside(old(mem.tables), mem.tables, l4, virt, virt + length)
    ensures NoHugeBeside(old(mem.tables), mem.tables, l4, virt, virt + length)
    ensures MapsFrames(mem.tables, l4, virt, frames) && FramesTaken(frames, old(tracker.FreeList()), tracker.FreeList())
    ensures LeavesCarry(mem.tables, l4, virt, frames, pageFlags)
    ensures ok <==> |frames| * PAGE_SIZE == length
    ensures |frames| * PAGE_SIZE <= length
    ensures !ok ==> tracker.FreeList() == []
  {
    ghost var t0 := mem.tables;
    ghost var free0 := tracker.FreeList();
    var v: nat, left: nat := virt, length;
    frames := [];
    while left != 0
      invariant v + left == virt + length && v == virt + |frames| * PAGE_SIZE && left % PAGE_SIZE == 0 && v % PAGE_SIZE == 0
      invariant mem.Valid(l4) && SourceOk(Tracker(tracker), mem.tables.Keys)
      invariant MapState(t0, mem.tables, l4, virt, virt + length, v, frames) && FramesTaken(frames, free0, tracker.FreeList())
      invariant LeavesCarry(mem.tables, l4, virt, frames, pageFlags)
      decreases left
    {
      PageStep(v, left);
      var placed, phys := MapPage(mem, tracker, l4, v, pageFlags, t0, virt, virt + length, frames, free0);
      if !placed {
        return false, frames;
      }
      frames := frames + [phys];
      left := left - PAGE_SIZE;
      v := v + PAGE_SIZE;
    }
    return true, frames;
  }

  /**
   * `map_memory`: after the checks, pops a frame for each page of
   * `[virt, virt + length)` and maps the page to it with the translated
   * flags. A failed check changes nothing. Running out of frames or of
   * table pages returns `OUT_OF_MEMORY`, with the free list empty, and
   * keeps the pages mapped so far;
   * success maps every page of the range to its own frame, taken off the
   * free list. Nothing of the lower window outside the range changes.
   */
  method MapMemory(mem: PhysicalMemory, tracker: MemoryTracker, l4: nat, processId: Word, virt: Word, length: Word, flags: Word)
    returns (w: Word, ghost frames: seq<nat>)
    requires mem.Valid(l4) && SourceOk(Tracker(tracker), mem.tables.Keys)
    requires MapError(processId, virt, length, flags).None? ==> NoHugeIn(mem.tables, l4, virt, virt + length)
    modifies mem, tracker, tracker.freePages
    ensures mem.Valid(l4) && SourceOk(Tracker(tracker), mem.tables.Keys)
    ensures MapError(processId, virt, length, flags).Some? ==>
      w == MapError(processId, virt, length, flags).value && mem.tables == old(mem.tables) && tracker.FreeList() == old(tracker.FreeList())
    ensures MapError(processId, virt, length, flags).None? ==> w == Success(0) || w == OUT_OF_MEMORY
    ensures SameBeside(old(mem.tables), mem.tables, l4, virt, virt + length)
    ensures NoHugeBeside(old(mem.tables), mem.tables, l4, virt, virt + length)
    ensures MapsFrames(mem.tables, l4, virt, frames) && FramesTaken(frames, old(tracker.FreeList()), tracker.FreeList())
    ensures w == Success(0) <==> MapError(processId, virt, length, flags).None? && |frames| * PAGE_SIZE == length
    ensures MapError(processId, virt, length, flags).None? && w == OUT_OF_MEMORY ==> tracker.FreeList() == []
    ensures MapError(processId, virt, length, flags).None? ==>
      && LeavesCarry(mem.tables, l4, virt, frames, PageFlagsFor(Abi.FromBits(flags).value))
      && forall v :: virt <= v < virt + |frames| * PAGE_SIZE && v % PAGE_SIZE == 0 ==> Permits(mem.tables, l4, v, Abi.FromBits(flags).value)
  {
    var e := MapError(processId, virt, length, flags);
    if e.Some? {
      return e.value, [];
    }
    MapErrorCases(processId, virt, length, flags);
    RangeErrorCases(processId, virt, length);
    var f := Abi.FromBits(flags).value;
    var pageFlags := PageFlagsFor(f);
    PageFlagsMeaning(f);
    var ok;
    ok, frames := MapPages(mem, tracker, l4, virt, length, pageFlags);
    MappedPermits(mem.tables, l4, virt, frames, f, old(tracker.FreeList()), tracker.FreeList());
    w := if ok then Success(0) else OUT_OF_MEMORY;
  }

  /*
   * `unmap_memory`.
   */

  /** Every address of the page at `p` translates in `b` as in `a`. */
  ghost predicate PageKept(a: Tables, b: Tables, l4: nat, p: nat)
  {
    forall u :: SameSlot(u, p, 1) ==> Translate(b, l4, u) == Translate(a, l4, u)
  }

  /** Page-aligned addresses of `[lo, hi)` in increasing order. */
  ghost predicate PagesIn(pages: seq<nat>, lo: nat, hi: nat)
  {
    && (forall k :: 0 <= k < |pages| ==> pages[k] % PAGE_SIZE == 0 && lo <= pages[k] < hi)
    && (forall k, l :: 0 <= k < l < |pages| ==> pages[k] < pages[l])
  }

  /**
   * Where the loop of `unmap_memory` stands in `[virt, end)`: `pages` are
   * the pages before `v` it unmapped, which now map nothing; every other
   * page of the range, and the window outside it, translates as in `t0`.
   */
  ghost predicate UnmapState(t0: Tables, tables: Tables, l4: nat, virt: nat, end: nat, v: nat, pages: seq<nat>)
  {
    && SameBeside(t0, tables, l4, virt, end)
    && PagesIn(pages, virt, v)
    && (forall k :: 0 <= k < |pages| ==> MapsNothing(tables, l4, pages[k], 1))
    && (forall p :: virt <= p < end && p % PAGE_SIZE == 0 && p !in pages ==> PageKept(t0, tables, l4, p))
  }

  /** `pages` are exactly the pages of `[lo, hi)` that `t0` maps with a 4 KiB entry. */
  ghost predicate UnmappedExactly(t0: Tables, l4: nat, lo: nat, hi: nat, pages: seq<nat>)
  {
    forall p :: lo <= p < hi && p % PAGE_SIZE == 0 ==> (p in pages <==> Mapped4KiB(t0, l4, p))
  }

  /**
   * Which pages the loop of `unmap_memory` has unmapped by page `v`: those
   * before `v` that `t0` mapped with a 4 KiB entry, and no others; the
   * pages from `v` on are still mapped with one exactly when `t0` maps them.
   */
  ghost predicate UnmapChoice(t0: Tables, tables: Tables, l4: nat, virt: nat, end: nat, v: nat, pages: seq<nat>)
  {
    && UnmappedExactly(t0, l4, virt, v, pages)
    && (forall p :: v <= p < end && p % PAGE_SIZE == 0 ==> Mapped4KiB(tables, l4, p) == Mapped4KiB(t0, l4, p))
  }

  /**
   * One round of the loop of `unmap_memory` keeps its choice of pages:
   * `unmap_4kib` succeeds on the page at `v` exactly when that page is
   * mapped with a 4 KiB entry, and leaves the mapping of later pages alone.
   */
  lemma ChoiceStep(t0: Tables, a: Tables, b: Tables, l4: nat, virt: nat, end: nat, v: nat, pages: seq<nat>, unmapped: bool)
    requires virt <= v && v + PAGE_SIZE <= end <= WINDOW && v % PAGE_SIZE == 0
    requires PagesIn(pages, virt, v) && UnmapChoice(t0, a, l4, virt, end, v, pages)
    requires MappedKeptOutside(a, b, l4, v)
    requires unmapped <==> Mapped4KiB(a, l4, v)
    ensures UnmapChoice(t0, b, l4, virt, end, v + PAGE_SIZE, if unmapped then pages + [v] else pages)
  {
    var pages' := if unmapped then pages + [v] else pages;
    assert v !in pages;
    forall p | virt <= p < v + PAGE_SIZE && p % PAGE_SIZE == 0 ensures p in pages' <==> Mapped4KiB(t0, l4, p) {
      if p != v {
        assert p < v;
      }
    }
    forall p | v + PAGE_SIZE <= p < end && p % PAGE_SIZE == 0 ensures Mapped4KiB(b, l4, p) == Mapped4KiB(t0, l4, p) {
      OutBlock(p, v, 1);
    }
  }

  /** A change confined to the page at `v` keeps every other page of the lower window. */
  lemma SlotUnchanged(a: Tables, b: Tables, l4: nat, p: nat, v: nat)
    requires p % PAGE_SIZE == 0 && v % PAGE_SIZE == 0 && p != v && p < WINDOW && v < WINDOW
    requires SameOutside(a, b, l4, v, 1)
    ensures PageKept(a, b, l4, p)
  {
    if p < v {
      OutBlock(p, v, 1);
    } else {
      OutBlock(v, p, 1);
    }
    forall u | SameSlot(u, p, 1) ensures Translate(b, l4, u) == Translate(a, l4, u) {
      SameSlotShared(u, p, v, 1);
    }
  }

  /** A change confined to the page at `v` keeps the window outside a range holding that page. */
  lemma BesideKept(t0: Tables, a: Tables, b: Tables, l4: nat, lo: nat, hi: nat, v: nat)
    requires lo <= v && v + PAGE_SIZE <= hi <= WINDOW && v % PAGE_SIZE == 0
    requires SameBeside(t0, a, l4, lo, hi) && SameOutside(a, b, l4, v, 1)
    ensures SameBeside(t0, b, l4, lo, hi)
  {
    forall u | u / WINDOW == lo / WINDOW && !(lo <= u < hi) ensures Translate(b, l4, u) == Translate(t0, l4, u) {
      BesideKeptPoint(t0, a, b, l4, lo, hi, v, u);
    }
  }

  /** One address of the window outside the range of `BesideKept`. */
  lemma BesideKeptPoint(t0: Tables, a: Tables, b: Tables, l4: nat, lo: nat, hi: nat, v: nat, u: nat)
    requires lo <= v && v + PAGE_SIZE <= hi <= WINDOW && v % PAGE_SIZE == 0
    requires SameBeside(t0, a, l4, lo, hi) && SameOutside(a, b, l4, v, 1)
    requires u / WINDOW == lo / WINDOW && !(lo <= u < hi)
    ensures Translate(b, l4, u) == Translate(t0, l4, u)
  {
    assert lo / WINDOW == 0 && v / WINDOW == 0;
    OutBlock(u, v, 1);
  }

  /** Nothing has happened yet at the start of the loop of `unmap_memory`. */
  lemma UnmapStart(t0: Tables, l4: nat, virt: nat, end: nat)
    ensures UnmapState(t0, t0, l4, virt, end, virt, [])
  {
    forall p | virt <= p < end && p % PAGE_SIZE == 0 ensures PageKept(t0, t0, l4, p) {
    }
  }

  /** Page numbers grow with addresses. */
  lemma PageNumberMono(a: nat, b: nat)
    requires a <= b
    ensures a / PAGE_SIZE <= b / PAGE_SIZE
  {
  }

  /** The page after an aligned address has the next page number. */
  lemma NextPage(v: nat)
    requires v % PAGE_SIZE == 0
    ensures (v + PAGE_SIZE) / PAGE_SIZE == v / PAGE_SIZE + 1
  {
  }

  /**
   * One round of the loop of `unmap_memory` on the page at `v`: either the
   * page was unmapped and joins `pages`, or nothing changed.
   */
  lemma UnmapStep(t0: Tables, a: Tables, b: Tables, l4: nat, virt: nat, end: nat, v: nat, pages: seq<nat>, unmapped: bool)
    requires virt <= v && v + PAGE_SIZE <= end <= WINDOW && v % PAGE_SIZE == 0
    requires UnmapState(t0, a, l4, virt, end, v, pages)
    requires SameOutside(a, b, l4, v, 1)
    requires unmapped ==> MapsNothing(b, l4, v, 1)
    requires !unmapped ==> b == a
    ensures UnmapState(t0, b, l4, virt, end, v + PAGE_SIZE, if unmapped then pages + [v] else pages)
  {
    if unmapped {
      var pages' := pages + [v];
      BesideKept(t0, a, b, l4, virt, end, v);
      forall k | 0 <= k < |pages'| ensures MapsNothing(b, l4, pages'[k], 1) {
        if k < |pages| {
          SlotUnchanged(a, b, l4, pages[k], v);
        }
      }
      forall p | virt <= p < end && p % PAGE_SIZE == 0 && p !in pages' ensures PageKept(t0, b, l4, p) {
        SlotUnchanged(a, b, l4, p, v);
      }
    }
  }

  /**
   * Every page of `[virt, virt + length)` is a page a tracker of
   * `pageCount` pages manages, and none is on the free list `free`: what
   * `mark_as_unused` demands of each page `unmap_memory` hands to it.
   */
  ghost predicate PagesManaged(pageCount: nat, free: seq<nat>, virt: nat, length: nat)
  {
    && (virt + length) / PAGE_SIZE <= pageCount
    && forall i :: virt / PAGE_SIZE <= i < (virt + length) / PAGE_SIZE ==> i !in free
  }

  /** The page indices of the addresses `pages`. */
  function PageIndices(pages: seq<nat>): (ids: seq<nat>)
    ensures |ids| == |pages|
    ensures forall k :: 0 <= k < |pages| ==> ids[k] == pages[k] / PAGE_SIZE
  {
    if pages == [] then [] else [pages[0] / PAGE_SIZE] + PageIndices(pages[1..])
  }

  /** Pushing the first of a run of non-free page numbers leaves the rest of the run non-free. */
  lemma PushFirst(free: seq<nat>, lo: nat, hi: nat)
    requires forall i :: lo <= i < hi ==> i !in free
    ensures forall i :: lo + 1 <= i < hi ==> i !in free + [lo]
  {
  }

  /**
   * One round of the loop of `unmap_memory`, as written: unmaps the page
   * at `v` and, when it was mapped, hands `v` itself to `mark_as_unused`.
   */
  method UnmapPage(mem: PhysicalMemory, tracker: MemoryTracker, l4: nat, v: nat,
                   ghost t0: Tables, ghost virt: nat, ghost end: nat, ghost pages: seq<nat>, ghost free0: seq<nat>)
    returns (ghost pages': seq<nat>)
    requires mem.Valid(l4) && tracker.Valid()
    requires virt <= v && v + PAGE_SIZE <= end <= WINDOW && v % PAGE_SIZE == 0
    requires UnmapState(t0, mem.tables, l4, virt, end, v, pages) && UnmapChoice(t0, mem.tables, l4, virt, end, v, pages)
    requires tracker.FreeList() == free0 + PageIndices(pages)
    requires end / PAGE_SIZE <= tracker.pageCount
    requires forall i :: v / PAGE_SIZE <= i < end / PAGE_SIZE ==> i !in tracker.FreeList()
    modifies mem, tracker, tracker.freePages
    ensures mem.Valid(l4) && tracker.Valid()
    ensures pages' == pages || pages' == pages + [v]
    ensures UnmapState(t0, mem.tables, l4, virt, end, v + PAGE_SIZE, pages')
    ensures UnmapChoice(t0, mem.tables, l4, virt, end, v + PAGE_SIZE, pages')
    ensures tracker.FreeList() == free0 + PageIndices(pages')
    ensures forall i :: (v + PAGE_SIZE) / PAGE_SIZE <= i < end / PAGE_SIZE ==> i !in tracker.FreeList()
  {
    NextPage(v);
    var unmapped := UnmapOne(mem, l4, v, t0, virt, end, pages);
    if unmapped {
      FreeVirtualPage(tracker, v, end, free0, pages);
    }
    pages' := if unmapped then pages + [v] else pages;
  }

  /**
   * The `mark_as_unused(virt)` call of one round of the loop of
   * `unmap_memory`: the page number of `v` joins the free list after those
   * of the pages unmapped before it, and the later pages of the range stay
   * off the list.
   */
  method FreeVirtualPage(tracker: MemoryTracker, v: nat, ghost end: nat, ghost free0: seq<nat>, ghost pages: seq<nat>)
    requires tracker.Valid() && v % PAGE_SIZE == 0 && v + PAGE_SIZE <= end
    requires tracker.FreeList() == free0 + PageIndices(pages)
    requires end / PAGE_SIZE <= tracker.pageCount
    requires forall i :: v / PAGE_SIZE <= i < end / PAGE_SIZE ==> i !in tracker.FreeList()
    modifies tracker, tracker.freePages
    ensures tracker.Valid()
    ensures tracker.FreeList() == free0 + PageIndices(pages + [v])
    ensures forall i :: (v + PAGE_SIZE) / PAGE_SIZE <= i < end / PAGE_SIZE ==> i !in tracker.FreeList()
  {
    NextPage(v);
    PageNumberMono(v + PAGE_SIZE, end);
    PushFirst(tracker.FreeList(), v / PAGE_SIZE, end / PAGE_SIZE);
    tracker.MarkAsUnused(v);
    assert PageIndices(pages + [v]) == PageIndices(pages) + [v / PAGE_SIZE];
  }

  /**
   * The `unmap_4kib` call of one round of the loop of `unmap_memory`: it
   * unmaps the page at `v` exactly when that page is mapped with a 4 KiB
   * entry, and the loop's state moves on to the next page.
   */
  method UnmapOne(mem: PhysicalMemory, l4: nat, v: nat, ghost t0: Tables, ghost virt: nat, ghost end: nat, ghost pages: seq<nat>)
    returns (unmapped: bool)
    requires mem.Valid(l4)
    requires virt <= v && v + PAGE_SIZE <= end <= WINDOW && v % PAGE_SIZE == 0
    requires UnmapState(t0, mem.tables, l4, virt, end, v, pages) && UnmapChoice(t0, mem.tables, l4, virt, end, v, pages)
    modifies mem
    ensures mem.Valid(l4)
    ensures unmapped <==> Mapped4KiB(t0, l4, v)
    ensures UnmapState(t0, mem.tables, l4, virt, end, v + PAGE_SIZE, if unmapped then pages + [v] else pages)
    ensures UnmapChoice(t0, mem.tables, l4, virt, end, v + PAGE_SIZE, if unmapped then pages + [v] else pages)
  {
    ghost var a := mem.tables;
    var r := Unmap4KiB(mem, l4, v);
    UnmapStep(t0, a, mem.tables, l4, virt, end, v, pages, r.Ok?);
    ChoiceStep(t0, a, mem.tables, l4, virt, end, v, pages, r.Ok?);
    unmapped := r.Ok?;
  }

  /**
   * `unmap_memory`, as written: after the checks, unmaps each page of
   * `[virt, virt + length)` mapped by a 4 KiB entry and hands the page's
   * VIRTUAL address to `mark_as_unused`. The tracker's contract for that
   * call (a page it manages, not already free) is required here for every
   * page of the range. A failed check changes nothing; otherwise the call
   * succeeds, the pages it unmaps are exactly those of the range mapped
   * with a 4 KiB entry, they map nothing, and their virtual page numbers
   * are pushed on the free list, in order.
   */
  method UnmapMemory(mem: PhysicalMemory, tracker: MemoryTracker, l4: nat, processId: Word, virt: Word, length: Word)
    returns (w: Word, ghost pages: seq<nat>)
    requires mem.Valid(l4) && tracker.Valid()
    requires RangeError(processId, virt, length).None? ==> PagesManaged(tracker.pageCount, tracker.FreeList(), virt, length)
    modifies mem, tracker, tracker.freePages
    ensures mem.Valid(l4) && tracker.Valid()
    ensures RangeError(processId, virt, length).Some? ==>
      w == RangeError(processId, virt, length).value && mem.tables == old(mem.tables) && tracker.FreeList() == old(tracker.FreeList())
    ensures RangeError(processId, virt, length).None? ==> w == Success(0)
    ensures UnmapState(old(mem.tables), mem.tables, l4, virt, virt + length, virt + length, pages)
    ensures RangeError(processId, virt, length).None? ==> UnmappedExactly(old(mem.tables), l4, virt, virt + length, pages)
    ensures tracker.FreeList() == old(tracker.FreeList()) + PageIndices(pages)
  {
    var e := RangeError(processId, virt, length);
    if e.Some? {
      return e.value, [];
    }
    RangeErrorCases(processId, virt, length);
    pages := UnmapRange(mem, tracker, l4, virt, length);
    w := Success(0);
  }

  /**
   * The loop of `unmap_memory`, as written, from the first page of
   * `[virt, virt + length)` to the last.
   */
  method UnmapRange(mem: PhysicalMemory, tracker: MemoryTracker, l4: nat, virt: nat, length: nat)
    returns (ghost pages: seq<nat>)
    requires mem.Valid(l4) && tracker.Valid()
    requires virt % PAGE_SIZE == 0 && length % PAGE_SIZE == 0 && virt + length <= WINDOW
    requires PagesManaged(tracker.pageCount, tracker.FreeList(), virt, length)
    modifies mem, tracker, tracker.freePages
    ensures mem.Valid(l4) && tracker.Valid()
    ensures UnmapState(old(mem.tables), mem.tables, l4, virt, virt + length, virt + length, pages)
    ensures UnmappedExactly(old(mem.tables), l4, virt, virt + length, pages)
    ensures tracker.FreeList() == old(tracker.FreeList()) + PageIndices(pages)
  {
    ghost var t0 := mem.tables;
    ghost var free0 := tracker.FreeList();
    var v: nat, left: nat := virt, length;
    pages := [];
    assert free0 + PageIndices(pages) == free0;
    UnmapStart(t0, l4, virt, virt + length);
    while left != 0
      invariant v + left == virt + length && left % PAGE_SIZE == 0 && v % PAGE_SIZE == 0 && virt <= v
      invariant mem.Valid(l4) && tracker.Valid()
      invariant UnmapState(t0, mem.tables, l4, virt, virt + length, v, pages)
      invariant UnmapChoice(t0, mem.tables, l4, virt, virt + length, v, pages)
      invariant tracker.FreeList() == free0 + PageIndices(pages)
      invariant (virt + length) / PAGE_SIZE <= tracker.pageCount
      invariant forall i :: v / PAGE_SIZE <= i < (virt + length) / PAGE_SIZE ==> i !in tracker.FreeList()
      decreases left
    {
      PageStep(v, left);
      pages := UnmapPage(mem, tracker, l4, v, t0, virt, virt + length, pages, free0);
      v := v + PAGE_SIZE;
      left := left - PAGE_SIZE;
    }
  }

  /**
   * The request `unmap_memory(0, 0x7FFF_FFFF_E000, 4096)` passes the checks,
   * yet the page number it hands to `mark_as_unused` is beyond a tracker of
   * 4 GiB of memory (2^20 pages): the virtual address is not a frame.
   */
  lemma UnmapHandsOverVirtualPage()
    ensures RangeError(0, 0x7FFF_FFFF_E000, PAGE_SIZE).None?
    ensures !PagesManaged(0x10_0000, [], 0x7FFF_FFFF_E000, PAGE_SIZE)
    ensures 0x7FFF_FFFF_E000 / PAGE_SIZE >= 0x10_0000
  {
  }

  /*
   * `unmap_memory`, corrected to free the frames.
   */

  /**
   * The address the page at `p` maps to, if any: `Translate` under a name
   * of its own, so that the facts about frames below are drawn only where
   * frames are asked about.
   */
  ghost function FrameAt(tables: Tables, l4: nat, p: nat): Option<nat>
  {
    Translate(tables, l4, p)
  }

  /**
   * The frames the pages of `[lo, hi)` map to in `tables` are distinct,
   * page aligned, managed by a tracker of `n` pages and not on the free
   * list `free`.
   */
  ghost predicate FramesOwned(tables: Tables, l4: nat, lo: nat, hi: nat, n: nat, free: seq<nat>)
  {
    && (forall p :: lo <= p < hi && p % PAGE_SIZE == 0 && FrameAt(tables, l4, p).Some? ==>
          && FrameAt(tables, l4, p).value % PAGE_SIZE == 0
          && FrameAt(tables, l4, p).value / PAGE_SIZE < n
          && FrameAt(tables, l4, p).value / PAGE_SIZE !in free)
    && (forall p, q :: lo <= p < q < hi && p % PAGE_SIZE == 0 && q % PAGE_SIZE == 0 && FrameAt(tables, l4, p).Some? ==>
          FrameAt(tables, l4, p) != FrameAt(tables, l4, q))
  }

  /** The page numbers of the frames the pages `pages` map to in `tables`. */
  ghost function FrameNumbers(tables: Tables, l4: nat, pages: seq<nat>): (ids: seq<nat>)
    ensures |ids| == |pages|
  {
    if pages == [] then []
    else FrameNumbers(tables, l4, pages[..|pages| - 1]) + [if FrameAt(tables, l4, pages[|pages| - 1]).Some? then FrameAt(tables, l4, pages[|pages| - 1]).value / PAGE_SIZE else 0]
  }

  /** Every page of `pages` had a translation in `tables`. */
  ghost predicate AllTranslate(tables: Tables, l4: nat, pages: seq<nat>)
  {
    forall k :: 0 <= k < |pages| ==> FrameAt(tables, l4, pages[k]).Some?
  }

  /** A page mapped by a present 4 KiB entry translates. */
  lemma MappedTranslates(tables: Tables, l4: nat, v: nat)
    requires Mapped4KiB(tables, l4, v)
    ensures Translate(tables, l4, v).Some?
  {
    WalkLookup(tables, l4, 4, v, 1, v);
  }

  /** Freeing the frame of the first page leaves the frames of the rest owned. */
  lemma OwnedPush(tables: Tables, l4: nat, lo: nat, hi: nat, n: nat, free: seq<nat>)
    requires lo % PAGE_SIZE == 0 && FramesOwned(tables, l4, lo, hi, n, free)
    requires lo < hi && FrameAt(tables, l4, lo).Some?
    ensures FramesOwned(tables, l4, lo + PAGE_SIZE, hi, n, free + [FrameAt(tables, l4, lo).value / PAGE_SIZE])
  {
    var f := FrameAt(tables, l4, lo).value;
    forall p | lo + PAGE_SIZE <= p < hi && p % PAGE_SIZE == 0 && FrameAt(tables, l4, p).Some?
      ensures FrameAt(tables, l4, p).value / PAGE_SIZE != f / PAGE_SIZE
    {
      var g := FrameAt(tables, l4, p).value;
      assert g != f;
      assert f == PAGE_SIZE * (f / PAGE_SIZE) && g == PAGE_SIZE * (g / PAGE_SIZE);
    }
  }

  /** The frames of a range's tail stay owned. */
  lemma OwnedTail(tables: Tables, l4: nat, lo: nat, hi: nat, n: nat, free: seq<nat>)
    requires FramesOwned(tables, l4, lo, hi, n, free)
    ensures FramesOwned(tables, l4, lo + PAGE_SIZE, hi, n, free)
  {
  }

  /**
   * The corrected loop's state at page `v`: `UnmapState` and
   * `UnmapChoice`, every page in
   * `pages` had a frame in `t0`, those frames were pushed on `free0` in
   * order to give `free`, and the frames of the pages still to go are
   * owned.
   */
  ghost predicate FreeingState(t0: Tables, tables: Tables, l4: nat, virt: nat, end: nat, v: nat, pages: seq<nat>,
                               n: nat, free0: seq<nat>, free: seq<nat>)
  {
    && UnmapState(t0, tables, l4, virt, end, v, pages)
    && UnmapChoice(t0, tables, l4, virt, end, v, pages)
    && AllTranslate(t0, l4, pages)
    && free == free0 + FrameNumbers(t0, l4, pages)
    && FramesOwned(t0, l4, v, end, n, free)
  }

  /**
   * One round of the corrected loop: reads the frame the page at `v` maps
   * to, unmaps the page and, when it was mapped, frees that frame.
   */
  method UnmapFrame(mem: PhysicalMemory, tracker: MemoryTracker, l4: nat, v: nat,
                    ghost t0: Tables, ghost virt: nat, ghost end: nat, ghost pages: seq<nat>, ghost free0: seq<nat>)
    returns (ghost pages': seq<nat>)
    requires mem.Valid(l4) && tracker.Valid()
    requires virt <= v && v + PAGE_SIZE <= end <= WINDOW && v % PAGE_SIZE == 0
    requires FreeingState(t0, mem.tables, l4, virt, end, v, pages, tracker.pageCount, free0, tracker.FreeList())
    modifies mem, tracker, tracker.freePages
    ensures mem.Valid(l4) && tracker.Valid()
    ensures pages' == pages || pages' == pages + [v]
    ensures FreeingState(t0, mem.tables, l4, virt, end, v + PAGE_SIZE, pages', tracker.pageCount, free0, tracker.FreeList())
  {
    ghost var a := mem.tables;
    ghost var free := tracker.FreeList();
    var frame := Translate(mem.tables, l4, v);
    var r := Unmap4KiB(mem, l4, v);
    if r.Ok? {
      MappedTranslates(a, l4, v);
      FrameFree(t0, a, l4, virt, end, v, pages, tracker.pageCount, free0, free);
      tracker.MarkAsUnused(frame.value);
    }
    FreeingStep(t0, a, mem.tables, l4, virt, end, v, pages, tracker.pageCount, free0, free, tracker.FreeList(), r.Ok?);
    pages' := if r.Ok? then pages + [v] else pages;
  }

  /** The page at `v` has not been touched yet, so its frame, if any, is still owned and not free. */
  lemma FrameFree(t0: Tables, a: Tables, l4: nat, virt: nat, end: nat, v: nat, pages: seq<nat>,
                  n: nat, free0: seq<nat>, free: seq<nat>)
    requires virt <= v && v + PAGE_SIZE <= end && v % PAGE_SIZE == 0
    requires FreeingState(t0, a, l4, virt, end, v, pages, n, free0, free)
    requires Translate(a, l4, v).Some?
    ensures FrameAt(t0, l4, v) == Translate(a, l4, v)
    ensures var f := Translate(a, l4, v).value; f % PAGE_SIZE == 0 && f / PAGE_SIZE < n && f / PAGE_SIZE !in free
  {
    assert v !in pages;
    assert PageKept(t0, a, l4, v);
    assert SameSlot(v, v, 1);
  }

  /** One round of the corrected loop keeps its state, whether or not the page was mapped. */
  lemma FreeingStep(t0: Tables, a: Tables, b: Tables, l4: nat, virt: nat, end: nat, v: nat, pages: seq<nat>,
                    n: nat, free0: seq<nat>, free: seq<nat>, free': seq<nat>, unmapped: bool)
    requires virt <= v && v + PAGE_SIZE <= end <= WINDOW && v % PAGE_SIZE == 0
    requires FreeingState(t0, a, l4, virt, end, v, pages, n, free0, free)
    requires SameOutside(a, b, l4, v, 1) && MappedKeptOutside(a, b, l4, v)
    requires unmapped <==> Mapped4KiB(a, l4, v)
    requires unmapped ==> && MapsNothing(b, l4, v, 1) && FrameAt(t0, l4, v).Some?
                          && free' == free + [FrameAt(t0, l4, v).value / PAGE_SIZE]
    requires !unmapped ==> b == a && free' == free
    ensures FreeingState(t0, b, l4, virt, end, v + PAGE_SIZE, if unmapped then pages + [v] else pages, n, free0, free')
  {
    UnmapStep(t0, a, b, l4, virt, end, v, pages, unmapped);
    ChoiceStep(t0, a, b, l4, virt, end, v, pages, unmapped);
    if unmapped {
      FreedPush(t0, l4, v, end, pages, n, free0, free);
    } else {
      OwnedTail(t0, l4, v, end, n, free);
    }
  }

  /** Freeing the frame of the page at `v` records it after the frames freed so far. */
  lemma FreedPush(t0: Tables, l4: nat, v: nat, end: nat, pages: seq<nat>, n: nat, free0: seq<nat>, free: seq<nat>)
    requires v < end && v % PAGE_SIZE == 0 && FrameAt(t0, l4, v).Some?
    requires AllTranslate(t0, l4, pages) && free == free0 + FrameNumbers(t0, l4, pages)
    requires FramesOwned(t0, l4, v, end, n, free)
    ensures AllTranslate(t0, l4, pages + [v])
    ensures free + [FrameAt(t0, l4, v).value / PAGE_SIZE] == free0 + FrameNumbers(t0, l4, pages + [v])
    ensures FramesOwned(t0, l4, v + PAGE_SIZE, end, n, free + [FrameAt(t0, l4, v).value / PAGE_SIZE])
  {
    OwnedPush(t0, l4, v, end, n, free);
    assert FrameNumbers(t0, l4, pages + [v]) == FrameNumbers(t0, l4, pages) + [FrameAt(t0, l4, v).value / PAGE_SIZE];
  }

  /**
   * The loop of the corrected `unmap_memory`: unmaps every page of
   * `[virt, virt + length)` and frees the frame of each page that was
   * mapped.
   */
  method UnmapFrames(mem: PhysicalMemory, tracker: MemoryTracker, l4: nat, virt: nat, length: nat)
    returns (ghost pages: seq<nat>)
    requires mem.Valid(l4) && tracker.Valid()
    requires virt % PAGE_SIZE == 0 && length % PAGE_SIZE == 0 && virt + length <= WINDOW
    requires FramesOwned(mem.tables, l4, virt, virt + length, tracker.pageCount, tracker.FreeList())
    modifies mem, tracker, tracker.freePages
    ensures mem.Valid(l4) && tracker.Valid()
    ensures UnmapState(old(mem.tables), mem.tables, l4, virt, virt + length, virt + length, pages)
    ensures UnmappedExactly(old(mem.tables), l4, virt, virt + length, pages)
    ensures AllTranslate(old(mem.tables), l4, pages)
    ensures tracker.FreeList() == old(tracker.FreeList()) + FrameNumbers(old(mem.tables), l4, pages)
  {
    FreeingStart(mem.tables, l4, virt, virt + length, tracker.pageCount, tracker.FreeList());
    pages := FreeRange(mem, tracker, l4, mem.tables, virt, length, tracker.FreeList());
  }

  /** The loop of the corrected `unmap_memory`, from its first page to its last. */
  method FreeRange(mem: PhysicalMemory, tracker: MemoryTracker, l4: nat, ghost t0: Tables, virt: nat, length: nat,
                   ghost free0: seq<nat>)
    returns (ghost pages: seq<nat>)
    requires virt % PAGE_SIZE == 0 && length % PAGE_SIZE == 0 && virt + length <= WINDOW
    requires mem.Valid(l4) && tracker.Valid()
    requires FreeingState(t0, mem.tables, l4, virt, virt + length, virt, [], tracker.pageCount, free0, tracker.FreeList())
    modifies mem, tracker, tracker.freePages
    ensures mem.Valid(l4) && tracker.Valid()
    ensures FreeingState(t0, mem.tables, l4, virt, virt + length, virt + length, pages, tracker.pageCount, free0, tracker.FreeList())
  {
    var v: nat, left: nat := virt, length;
    pages := [];
    while left != 0
      invariant v + left == virt + length && left % PAGE_SIZE == 0 && v % PAGE_SIZE == 0 && virt <= v
      invariant mem.Valid(l4) && tracker.Valid()
      invariant FreeingState(t0, mem.tables, l4, virt, virt + length, v, pages, tracker.pageCount, free0, tracker.FreeList())
      decreases left
    {
      PageStep(v, left);
      pages := UnmapFrame(mem, tracker, l4, v, t0, virt, virt + length, pages, free0);
      v := v + PAGE_SIZE;
      left := left - PAGE_SIZE;
    }
  }

  /** Before the corrected loop nothing is unmapped and nothing freed. */
  lemma FreeingStart(t0: Tables, l4: nat, virt: nat, end: nat, n: nat, free0: seq<nat>)
    requires FramesOwned(t0, l4, virt, end, n, free0)
    ensures FreeingState(t0, t0, l4, virt, end, virt, [], n, free0, free0)
  {
    UnmapStart(t0, l4, virt, end);
    assert free0 + FrameNumbers(t0, l4, []) == free0;
  }

  /**
   * `unmap_memory` as evidently intended: like `UnmapMemory`, but each
   * unmapped page's FRAME goes back on the free list. The frames of the
   * range must be owned pages of the tracker, as `map_memory` leaves them.
   */
  method UnmapMemoryFrames(mem: PhysicalMemory, tracker: MemoryTracker, l4: nat, processId: Word, virt: Word, length: Word)
    returns (w: Word, ghost pages: seq<nat>)
    requires mem.Valid(l4) && tracker.Valid()
    requires RangeError(processId, virt, length).None? ==>
      FramesOwned(mem.tables, l4, virt, virt + length, tracker.pageCount, tracker.FreeList())
    modifies mem, tracker, tracker.freePages
    ensures mem.Valid(l4) && tracker.Valid()
    ensures RangeError(processId, virt, length).Some? ==>
      w == RangeError(processId, virt, length).value && mem.tables == old(mem.tables) && tracker.FreeList() == old(tracker.FreeList())
    ensures RangeError(processId, virt, length).None? ==> w == Success(0)
    ensures UnmapState(old(mem.tables), mem.tables, l4, virt, virt + length, virt + length, pages)
    ensures RangeError(processId, virt, length).None? ==> UnmappedExactly(old(mem.tables), l4, virt, virt + length, pages)
    ensures AllTranslate(old(mem.tables), l4, pages)
    ensures tracker.FreeList() == old(tracker.FreeList()) + FrameNumbers(old(mem.tables), l4, pages)
  {
    var e := RangeError(processId, virt, length);
    if e.Some? {
      return e.value, [];
    }
    RangeErrorCases(processId, virt, length);
    pages := UnmapFrames(mem, tracker, l4, virt, length);
    w := Success(0);
  }

  /**
   * What `map_memory` leaves behind is what the corrected `unmap_memory`
   * needs: the frames of the mapped range are distinct pages of the
   * tracker, none of them free.
   */
  lemma MappedFramesOwned(tables: Tables, l4: nat, virt: nat, frames: seq<nat>, free0: seq<nat>, free: seq<nat>, n: nat)
    requires virt % PAGE_SIZE == 0
    requires MapsFrames(tables, l4, virt, frames) && FramesTaken(frames, free0, free) && DistinctBelow(free0, n)
    ensures FramesOwned(tables, l4, virt, virt + |frames| * PAGE_SIZE, n, free)
  {
    forall p | virt <= p < virt + |frames| * PAGE_SIZE && p % PAGE_SIZE == 0
      ensures Translate(tables, l4, p) == Some(frames[(p - virt) / PAGE_SIZE])
    {
      FramePoint(tables, l4, virt, frames, p);
    }
    forall p, q | virt <= p < q < virt + |frames| * PAGE_SIZE && p % PAGE_SIZE == 0 && q % PAGE_SIZE == 0
      ensures (p - virt) / PAGE_SIZE < (q - virt) / PAGE_SIZE
    {
      assert p - virt == PAGE_SIZE * ((p - virt) / PAGE_SIZE) && q - virt == PAGE_SIZE * ((q - virt) / PAGE_SIZE);
    }
  }

  /** The page at `p` of a mapped range translates to its frame. */
  lemma FramePoint(tables: Tables, l4: nat, virt: nat, frames: seq<nat>, p: nat)
    requires virt % PAGE_SIZE == 0 && MapsFrames(tables, l4, virt, frames)
    requires virt <= p < virt + |frames| * PAGE_SIZE && p % PAGE_SIZE == 0
    ensures (p - virt) / PAGE_SIZE < |frames|
    ensures Translate(tables, l4, p) == Some(frames[(p - virt) / PAGE_SIZE])
  {
    var j := (p - virt) / PAGE_SIZE;
    assert p - virt == PAGE_SIZE * j;
    assert j < |frames|;
    assert p == virt + j * PAGE_SIZE;
    SlotBytes(1);
    assert SameSlot(p, p, 1);
  }

  /*
   * `acquire_framebuffer` and `release_framebuffer`.
   */

  /** The flags of a framebuffer's pages: user, writable, never executed. */
  const FRAMEBUFFER_FLAGS: nat := PageFlagsFor(Abi.MapFlags(true, false))

  /** The framebuffer's pages are present, user-accessible, writable and never executed, and carry no other flag. */
  lemma FramebufferFlags()
    ensures IsMapFlags(FRAMEBUFFER_FLAGS)
    ensures forall k: nat :: Bit(FRAMEBUFFER_FLAGS, k) <==> k == 1 || k == 2 || k == 63
  {
    PageFlagsMeaning(Abi.MapFlags(true, false));
    PageFlagsBits(Abi.MapFlags(true, false));
  }

  /** The checks of both framebuffer calls: the calling process, then the index. */
  function FramebufferError(processId: nat, index: nat, count: nat): (e: Option<Word>)
  {
    if processId != 0 then Some(INVALID_PROCESS_ID)
    else if index >= count then Some(INVALID_VALUE)
    else None
  }

  /**
   * The framebuffer calls fail exactly on a process other than the caller
   * or an index past the list, and with the error for the first of those.
   */
  lemma FramebufferErrorCases(processId: nat, index: nat, count: nat)
    ensures FramebufferError(processId, index, count).None? <==> processId == 0 && index < count
    ensures FramebufferError(processId, index, count) == Some(INVALID_PROCESS_ID) <==> processId != 0
    ensures FramebufferError(processId, index, count).Some? && processId == 0 ==>
      FramebufferError(processId, index, count) == Some(INVALID_VALUE)
  {
    ErrorValuesDistinct(InvalidProcessId, InvalidValue);
  }

  /** The 4 KiB entry of the page `v` of a range at `lo` is the frame at the same offset from `phys0`, with `flags`. */
  ghost predicate RangeLeaf(tables: Tables, l4: nat, lo: nat, phys0: nat, flags: nat, v: nat)
    requires lo <= v
  {
    LeafIs(tables, l4, v, phys0 + (v - lo), flags)
  }

  /** The 4 KiB entry of each page of `[lo, hi)` is the frame at the same offset from `phys0`, with `flags`. */
  ghost predicate RangeLeaves(tables: Tables, l4: nat, lo: nat, hi: nat, phys0: nat, flags: nat)
  {
    forall v :: lo <= v < hi && v % PAGE_SIZE == 0 ==> RangeLeaf(tables, l4, lo, phys0, flags, v)
  }

  /** Mapping the page at `at`, right after `[lo, at)`, extends the range whose entries carry `flags`. */
  lemma RangeLeavesStep(a: Tables, b: Tables, l4: nat, lo: nat, phys0: nat, at: nat, flags: nat)
    requires lo <= at && at % PAGE_SIZE == 0 && lo % WINDOW + (at + PAGE_SIZE - lo) <= WINDOW
    requires RangeLeaves(a, l4, lo, at, phys0, flags) && EntriesKeptOutside(a, b, l4, at)
    requires LeafIs(b, l4, at, phys0 + (at - lo), flags)
    ensures RangeLeaves(b, l4, lo, at + PAGE_SIZE, phys0, flags)
  {
    forall v | lo <= v < at + PAGE_SIZE && v % PAGE_SIZE == 0 ensures RangeLeaf(b, l4, lo, phys0, flags, v) {
      if v < at {
        InWindow(v, lo, at + PAGE_SIZE);
        InWindow(at, lo, at + PAGE_SIZE);
        OutBlock(v, at, 1);
        assert RangeLeaf(a, l4, lo, phys0, flags, v);
        LeafKept(a, b, l4, at, v, phys0 + (v - lo), flags);
      } else {
        assert v == at;
      }
    }
  }

  /** The pages of a range mapped with `PageFlagsFor(f)` grant what `f` asks: for a framebuffer, user pages, writable and never executed. */
  lemma RangePermits(tables: Tables, l4: nat, lo: nat, hi: nat, phys0: nat, f: Abi.MapFlags)
    requires lo % PAGE_SIZE == 0 && phys0 % PAGE_SIZE == 0 && lo <= hi && phys0 + (hi - lo) <= PHYS_LIMIT
    requires RangeLeaves(tables, l4, lo, hi, phys0, PageFlagsFor(f))
    ensures forall v :: lo <= v < hi && v % PAGE_SIZE == 0 ==> Permits(tables, l4, v, f)
  {
    forall v | lo <= v < hi && v % PAGE_SIZE == 0 ensures Permits(tables, l4, v, f) {
      assert RangeLeaf(tables, l4, lo, phys0, PageFlagsFor(f), v);
      OffsetAligned(phys0, lo, v);
      LeafPermits(tables, l4, v, phys0 + (v - lo), f);
    }
  }

  /** The frame at the same offset from an aligned `phys0` as an aligned `v` from `lo` is aligned. */
  lemma OffsetAligned(phys0: nat, lo: nat, v: nat)
    requires phys0 % PAGE_SIZE == 0 && lo % PAGE_SIZE == 0 && v % PAGE_SIZE == 0 && lo <= v
    ensures (phys0 + (v - lo)) % PAGE_SIZE == 0
  {
    assert phys0 + (v - lo) == (phys0 / PAGE_SIZE + v / PAGE_SIZE - lo / PAGE_SIZE) * PAGE_SIZE;
  }

  /**
   * One round of the loop of `acquire_framebuffer`: maps the page at `at`
   * to the frame `addr` of the buffer with `pageFlags`, which the call
   * gives as `FRAMEBUFFER_FLAGS`. The range `[at0, end)` is being
   * mapped at the same offsets from `phys0`; the part up to `at` is done,
   * and on success the part up to the end of this page is.
   */
  method MapFramebufferPage(mem: PhysicalMemory, tracker: MemoryTracker, l4: nat, at: nat, addr: nat, pageFlags: nat,
                            ghost t0: Tables, ghost phys0: nat, ghost at0: nat, ghost end: nat)
    returns (ok: bool)
    requires mem.Valid(l4) && SourceOk(Tracker(tracker), mem.tables.Keys) && IsMapFlags(pageFlags)
    requires at % PAGE_SIZE == 0 && addr % PAGE_SIZE == 0 && at0 <= at && addr == phys0 + (at - at0)
    requires at + PAGE_SIZE <= end && at0 % WINDOW + (end - at0) <= WINDOW && phys0 + (end - at0) <= PHYS_LIMIT
    requires DirectMapState(t0, mem.tables, l4, phys0, at0, at, end, true)
    requires RangeLeaves(mem.tables, l4, at0, at, phys0, pageFlags)
    modifies mem, tracker, tracker.freePages
    ensures mem.Valid(l4) && SourceOk(Tracker(tracker), mem.tables.Keys)
    ensures SameBeside(t0, mem.tables, l4, at0, end) && NoHugeBeside(t0, mem.tables, l4, at0, end)
    ensures ok ==> DirectMapState(t0, mem.tables, l4, phys0, at0, at + PAGE_SIZE, end, true)
    ensures ok ==> RangeLeaves(mem.tables, l4, at0, at + PAGE_SIZE, phys0, pageFlags)
    ensures !ok ==> tracker.FreeList() == []
  {
    ghost var a := mem.tables;
    var r := Map4KiB(mem, Tracker(tracker), l4, at, addr, pageFlags);
    SlotBytes(1);
    BesideStep(t0, a, mem.tables, l4, at0, end, at, 1);
    if r.Err? {
      return false;
    }
    PendingStep(a, mem.tables, l4, at0, end, at, 1);
    RangeStep(a, mem.tables, l4, at0, phys0, at, addr, 1);
    RangeLeavesStep(a, mem.tables, l4, at0, phys0, at, pageFlags);
    ok := true;
  }

  /**
   * The loop of `acquire_framebuffer`: maps the `size` bytes at `at`, a
   * whole number of pages, to the buffer at `phys`, page by page, with
   * `pageFlags`. Success maps the whole range at the same offsets, each
   * page's entry carrying those flags; either way nothing of the
   * window outside the range changes.
   */
  method MapContiguous(mem: PhysicalMemory, tracker: MemoryTracker, l4: nat, at: nat, phys: nat, size: nat, pageFlags: nat)
    returns (ok: bool)
    requires mem.Valid(l4) && SourceOk(Tracker(tracker), mem.tables.Keys) && IsMapFlags(pageFlags)
    requires at % PAGE_SIZE == 0 && phys % PAGE_SIZE == 0 && size % PAGE_SIZE == 0
    requires at % WINDOW + size <= WINDOW && phys + size <= PHYS_LIMIT
    requires NoHugeIn(mem.tables, l4, at, at + size)
    modifies mem, tracker, tracker.freePages
    ensures mem.Valid(l4) && SourceOk(Tracker(tracker), mem.tables.Keys)
    ensures SameBeside(old(mem.tables), mem.tables, l4, at, at + size)
    ensures NoHugeBeside(old(mem.tables), mem.tables, l4, at, at + size)
    ensures ok ==> MapsRange(mem.tables, l4, at, phys, size) && RangeLeaves(mem.tables, l4, at, at + size, phys, pageFlags)
    ensures !ok ==> tracker.FreeList() == []
  {
    ghost var t0 := mem.tables;
    DirectMapStart(t0, l4, phys, at, at + size, true);
    var v: nat, p: nat, left: nat := at, phys, size;
    while left != 0
      invariant v + left == at + size && p == phys + (v - at) && at <= v
      invariant v % PAGE_SIZE == 0 && p % PAGE_SIZE == 0 && left % PAGE_SIZE == 0
      invariant mem.Valid(l4) && SourceOk(Tracker(tracker), mem.tables.Keys)
      invariant DirectMapState(t0, mem.tables, l4, phys, at, v, at + size, true)
      invariant RangeLeaves(mem.tables, l4, at, v, phys, pageFlags)
      decreases left
    {
      PageStep(v, left);
      PageStep(p, left);
      var placed := MapFramebufferPage(mem, tracker, l4, v, p, pageFlags, t0, phys, at, at + size);
      if !placed {
        return false;
      }
      left := left - PAGE_SIZE;
      v, p := v + PAGE_SIZE, p + PAGE_SIZE;
    }
    return true;
  }

  /**
   * The framebuffer's pages mapped as `acquire_framebuffer` maps them:
   * the loop with `FRAMEBUFFER_FLAGS`. Success maps them as user pages
   * that are writable and never executed.
   */
  method MapFramebuffer(mem: PhysicalMemory, tracker: MemoryTracker, l4: nat, at: nat, phys: nat, size: nat)
    returns (ok: bool)
    requires mem.Valid(l4) && SourceOk(Tracker(tracker), mem.tables.Keys)
    requires at % PAGE_SIZE == 0 && phys % PAGE_SIZE == 0 && size % PAGE_SIZE == 0
    requires at % WINDOW + size <= WINDOW && phys + size <= PHYS_LIMIT
    requires NoHugeIn(mem.tables, l4, at, at + size)
    modifies mem, tracker, tracker.freePages
    ensures mem.Valid(l4) && SourceOk(Tracker(tracker), mem.tables.Keys)
    ensures SameBeside(old(mem.tables), mem.tables, l4, at, at + size)
    ensures NoHugeBeside(old(mem.tables), mem.tables, l4, at, at + size)
    ensures ok ==> MapsRange(mem.tables, l4, at, phys, size) && RangeLeaves(mem.tables, l4, at, at + size, phys, FRAMEBUFFER_FLAGS)
    ensures ok ==> forall v :: at <= v < at + size && v % PAGE_SIZE == 0 ==> Permits(mem.tables, l4, v, Abi.MapFlags(true, false))
    ensures !ok ==> tracker.FreeList() == []
  {
    FramebufferFlags();
    ok := MapContiguous(mem, tracker, l4, at, phys, size, FRAMEBUFFER_FLAGS);
    if ok {
      RangePermits(mem.tables, l4, at, at + size, phys, Abi.MapFlags(true, false));
    }
  }

  /**
   * `acquire_framebuffer`, as written. After the checks, the owner of the
   * framebuffer goes from 0 to `processId` by a compare-exchange, which
   * fails with `CONFLICT` when the framebuffer is not free. Then the
   * buffer's pages are mapped at `at`, user-accessible, writable and never
   * executed, and running out of table pages returns `OUT_OF_MEMORY`. As
   * `processId` is 0 once the checks pass, the exchange stores 0: the
   * public data never changes, and the framebuffer stays free. The
   * loop's countdown and the mapping need a whole number of pages, an
   * aligned `at` and a range inside one window; the call checks none of
   * them, and they are required here.
   */
  method AcquireFramebuffer(mem: PhysicalMemory, tracker: MemoryTracker, l4: nat, public: PublicData.PublicState,
                            processId: Word, index: Word, at: Word)
    returns (w: Word)
    requires mem.Valid(l4) && SourceOk(Tracker(tracker), mem.tables.Keys)
    requires FramebufferError(processId, index, |public.framebuffers|).None? && public.framebuffers[index].ownedBy == 0 ==>
      var fb := public.framebuffers[index];
      var size := PublicData.SizeInBytes(fb);
      && size % PAGE_SIZE == 0 && at % PAGE_SIZE == 0 && fb.physicalAddress % PAGE_SIZE == 0
      && at % WINDOW + size <= WINDOW && fb.physicalAddress + size <= PHYS_LIMIT
      && NoHugeIn(mem.tables, l4, at, at + size)
    modifies mem, tracker, tracker.freePages, public
    ensures mem.Valid(l4) && SourceOk(Tracker(tracker), mem.tables.Keys)
    ensures public.framebuffers == old(public.framebuffers)
    ensures FramebufferError(processId, index, |public.framebuffers|).Some? ==>
      w == FramebufferError(processId, index, |public.framebuffers|).value && mem.tables == old(mem.tables)
    ensures FramebufferError(processId, index, |public.framebuffers|).None? ==>
      (w == CONFLICT <==> old(public.framebuffers[index].ownedBy) != 0)
    ensures w == CONFLICT ==> mem.tables == old(mem.tables)
    ensures FramebufferError(processId, index, |public.framebuffers|).None? && old(public.framebuffers[index].ownedBy) == 0 ==>
      w == Success(0) || w == OUT_OF_MEMORY
    ensures w == OUT_OF_MEMORY ==> tracker.FreeList() == []
    ensures w == Success(0) || w == OUT_OF_MEMORY ==>
      && FramebufferError(processId, index, |public.framebuffers|).None?
      && old(public.framebuffers[index].ownedBy) == 0
      && SameBeside(old(mem.tables), mem.tables, l4, at, at + PublicData.SizeInBytes(public.framebuffers[index]))
      && NoHugeBeside(old(mem.tables), mem.tables, l4, at, at + PublicData.SizeInBytes(public.framebuffers[index]))
    ensures w == Success(0) ==>
      var fb := public.framebuffers[index];
      && MapsRange(mem.tables, l4, at, fb.physicalAddress, PublicData.SizeInBytes(fb))
      && RangeLeaves(mem.tables, l4, at, at + PublicData.SizeInBytes(fb), fb.physicalAddress, FRAMEBUFFER_FLAGS)
      && forall v :: at <= v < at + PublicData.SizeInBytes(fb) && v % PAGE_SIZE == 0 ==> Permits(mem.tables, l4, v, Abi.MapFlags(true, false))
  {
    FramebufferErrorCases(processId, index, |public.framebuffers|);
    ErrorValuesDistinct(Conflict, ErrorCode.OutOfMemory);
    ErrorValuesDistinct(Conflict, InvalidValue);
    ErrorValuesDistinct(Conflict, InvalidProcessId);
    var e := FramebufferError(processId, index, |public.framebuffers|);
    if e.Some? {
      return e.value;
    }
    var exchanged := public.CompareExchangeOwner(index, 0, processId);
    if !exchanged {
      return CONFLICT;
    }
    PublicData.WithOwnerUnchanged(old(public.framebuffers), index);
    var fb := public.framebuffers[index];
    var mapped := MapFramebuffer(mem, tracker, l4, at, fb.physicalAddress, PublicData.SizeInBytes(fb));
    w := if mapped then Success(0) else OUT_OF_MEMORY;
  }

  /**
   * The value of `size` in `acquire_framebuffer` after `k` rounds of the
   * loop: each round subtracts a page, and a `usize` subtraction below
   * zero wraps around.
   */
  function Countdown(size: nat, k: nat): (r: nat)
    ensures r < U64_LIMIT
  {
    (size - k * PAGE_SIZE) % U64_LIMIT
  }

  /**
   * A buffer size that is not a whole number of pages never counts down to
   * zero: every round leaves the same remainder modulo a page, so the loop
   * of `acquire_framebuffer` steps past zero and maps pages beyond the
   * buffer, until it runs out of memory (or, with overflow checks on,
   * panics at the subtraction).
   */
  lemma CountdownMissesZero(size: nat, k: nat)
    requires size % PAGE_SIZE != 0
    ensures Countdown(size, k) % PAGE_SIZE == size % PAGE_SIZE
    ensures Countdown(size, k) != 0
  {
    var x := size - k * PAGE_SIZE;
    var q := x / U64_LIMIT;
    assert x == U64_LIMIT * q + Countdown(size, k);
    assert Countdown(size, k) == size + PAGE_SIZE * (0x10_0000_0000_0000 * -q - k);
    ShiftMod(size, 0x10_0000_0000_0000 * -q - k);
  }

  /** Adding a multiple of a page keeps the offset within the page. */
  lemma ShiftMod(a: int, t: int)
    ensures (a + PAGE_SIZE * t) % PAGE_SIZE == a % PAGE_SIZE
  {
  }

  /** A whole number of pages counts down to zero after one round per page, as the loop intends. */
  lemma CountdownReachesZero(size: nat)
    requires size % PAGE_SIZE == 0
    ensures Countdown(size, size / PAGE_SIZE) == 0
  {
    assert size == size / PAGE_SIZE * PAGE_SIZE;
  }

  /**
   * An 800 by 600 framebuffer of 4 bytes a pixel, with rows of 3200 bytes,
   * takes 1,920,000 bytes: 468 pages and 3072 bytes.
   */
  lemma OddFramebufferSize()
    ensures PublicData.SizeInBytes(PublicData.Framebuffer(0xFD00_0000, 800, 600, 3200, PublicData.Rgb32, 0)) == 1_920_000
    ensures 1_920_000 % PAGE_SIZE == 3072 && Countdown(1_920_000, 468) == 3072
    ensures forall k: nat :: Countdown(1_920_000, k) != 0
  {
    forall k: nat ensures Countdown(1_920_000, k) != 0 {
      CountdownMissesZero(1_920_000, k);
    }
  }

  /**
   * `release_framebuffer`, as written. After the checks, the owner of the
   * framebuffer goes from `processId` to 0 by a compare-exchange, which
   * fails with `CONFLICT` when the owner is another. As `processId` is 0
   * once the checks pass, the call succeeds exactly when the framebuffer
   * is free, and the public data never changes.
   */
  method ReleaseFramebuffer(public: PublicData.PublicState, processId: Word, index: Word) returns (w: Word)
    modifies public
    ensures public.framebuffers == old(public.framebuffers)
    ensures FramebufferError(processId, index, |public.framebuffers|).Some? ==>
      w == FramebufferError(processId, index, |public.framebuffers|).value
    ensures FramebufferError(processId, index, |public.framebuffers|).None? ==>
      && (w == Success(0) <==> old(public.framebuffers[index].ownedBy) == 0)
      && (w == Success(0) || w == CONFLICT)
  {
    FramebufferErrorCases(processId, index, |public.framebuffers|);
    var e := FramebufferError(processId, index, |public.framebuffers|);
    if e.Some? {
      return e.value;
    }
    var exchanged := public.CompareExchangeOwner(index, processId, 0);
    if !exchanged {
      return CONFLICT;
    }
    PublicData.WithOwnerUnchanged(old(public.framebuffers), index);
    w := Success(0);
  }

  /*
   * The framebuffer calls, corrected: the owner recorded is the calling
   * process's own identifier `current`, the buffer is mapped rounded up to
   * whole pages, and `at` must be page aligned with the whole mapping below
   * the end of the user half.
   */

  /** `at` is a page-aligned user address with room for `size` bytes rounded up to pages. */
  predicate AddressOk(at: nat, size: nat)
  {
    at % PAGE_SIZE == 0 && at + PageRound(size) <= USER_TOP
  }

  /**
   * `acquire_framebuffer` as evidently intended. A failed check changes
   * nothing; an address that is misaligned or reaches past the user half
   * is refused with `INVALID_VALUE` before the framebuffer is claimed. A
   * framebuffer owned already is refused with `CONFLICT`; otherwise it is
   * now owned by `current`, and on success its buffer, rounded up to whole
   * pages, is mapped at `at`.
   */
  method AcquireFramebufferOwned(mem: PhysicalMemory, tracker: MemoryTracker, l4: nat, public: PublicData.PublicState,
                                 current: Process.ProcessId, processId: Word, index: Word, at: Word)
    returns (w: Word)
    requires mem.Valid(l4) && SourceOk(Tracker(tracker), mem.tables.Keys)
    requires FramebufferError(processId, index, |public.framebuffers|).None? ==>
      var fb := public.framebuffers[index];
      var pages := PageRound(PublicData.SizeInBytes(fb));
      AddressOk(at, PublicData.SizeInBytes(fb)) && fb.ownedBy == 0 ==>
        fb.physicalAddress % PAGE_SIZE == 0 && fb.physicalAddress + pages <= PHYS_LIMIT && NoHugeIn(mem.tables, l4, at, at + pages)
    modifies mem, tracker, tracker.freePages, public
    ensures mem.Valid(l4) && SourceOk(Tracker(tracker), mem.tables.Keys)
    ensures FramebufferError(processId, index, |old(public.framebuffers)|).Some? ==>
      && w == FramebufferError(processId, index, |old(public.framebuffers)|).value
      && mem.tables == old(mem.tables) && public.framebuffers == old(public.framebuffers)
    ensures FramebufferError(processId, index, |old(public.framebuffers)|).None? ==>
      && (w == INVALID_VALUE <==> !AddressOk(at, PublicData.SizeInBytes(old(public.framebuffers[index]))))
      && (w == CONFLICT <==> AddressOk(at, PublicData.SizeInBytes(old(public.framebuffers[index]))) && old(public.framebuffers[index].ownedBy) != 0)
    ensures w == INVALID_VALUE || w == CONFLICT ==> mem.tables == old(mem.tables) && public.framebuffers == old(public.framebuffers)
    ensures && FramebufferError(processId, index, |old(public.framebuffers)|).None?
            && AddressOk(at, PublicData.SizeInBytes(old(public.framebuffers[index])))
            && old(public.framebuffers[index].ownedBy) == 0 ==>
      w == Success(0) || w == OUT_OF_MEMORY
    ensures w == OUT_OF_MEMORY ==> tracker.FreeList() == []
    ensures w == Success(0) || w == OUT_OF_MEMORY ==>
      && FramebufferError(processId, index, |old(public.framebuffers)|).None?
      && AddressOk(at, PublicData.SizeInBytes(old(public.framebuffers[index])))
      && old(public.framebuffers[index].ownedBy) == 0
      && public.framebuffers == PublicData.WithOwner(old(public.framebuffers), index, current)
      && SameBeside(old(mem.tables), mem.tables, l4, at, at + PageRound(PublicData.SizeInBytes(old(public.framebuffers[index]))))
      && NoHugeBeside(old(mem.tables), mem.tables, l4, at, at + PageRound(PublicData.SizeInBytes(old(public.framebuffers[index]))))
    ensures w == Success(0) ==>
      var phys, pages := old(public.framebuffers[index].physicalAddress), PageRound(PublicData.SizeInBytes(old(public.framebuffers[index])));
      && MapsRange(mem.tables, l4, at, phys, pages)
      && RangeLeaves(mem.tables, l4, at, at + pages, phys, FRAMEBUFFER_FLAGS)
      && forall v :: at <= v < at + pages && v % PAGE_SIZE == 0 ==> Permits(mem.tables, l4, v, Abi.MapFlags(true, false))
  {
    FramebufferErrorCases(processId, index, |public.framebuffers|);
    ErrorValuesDistinct(Conflict, ErrorCode.OutOfMemory);
    ErrorValuesDistinct(Conflict, InvalidValue);
    ErrorValuesDistinct(InvalidValue, ErrorCode.OutOfMemory);
    var e := FramebufferError(processId, index, |public.framebuffers|);
    if e.Some? {
      return e.value;
    }
    var fb := public.framebuffers[index];
    var size := PublicData.SizeInBytes(fb);
    if !(at % PAGE_SIZE == 0 && at + PageRound(size) <= USER_TOP) {
      return INVALID_VALUE;
    }
    var exchanged := public.CompareExchangeOwner(index, 0, current);
    if !exchanged {
      return CONFLICT;
    }
    var mapped := MapFramebuffer(mem, tracker, l4, at, fb.physicalAddress, PageRound(size));
    w := if mapped then Success(0) else OUT_OF_MEMORY;
  }

  /**
   * `release_framebuffer` as evidently intended: after the checks, the
   * framebuffer is free again exactly when `current` owned it; a
   * framebuffer owned by another process, or by none, is refused with
   * `CONFLICT` and left as it is.
   */
  method ReleaseFramebufferOwned(public: PublicData.PublicState, current: Process.ProcessId, processId: Word, index: Word)
    returns (w: Word)
    modifies public
    ensures FramebufferError(processId, index, |old(public.framebuffers)|).Some? ==>
      w == FramebufferError(processId, index, |old(public.framebuffers)|).value && public.framebuffers == old(public.framebuffers)
    ensures FramebufferError(processId, index, |old(public.framebuffers)|).None? ==>
      && (w == Success(0) <==> old(public.framebuffers[index].ownedBy) == current)
      && (w == Success(0) || w == CONFLICT)
      && public.framebuffers == if w == Success(0) then PublicData.WithOwner(old(public.framebuffers), index, 0) else old(public.framebuffers)
  {
    FramebufferErrorCases(processId, index, |public.framebuffers|);
    var e := FramebufferError(processId, index, |public.framebuffers|);
    if e.Some? {
      return e.value;
    }
    var exchanged := public.CompareExchangeOwner(index, current, 0);
    w := if exchanged then Success(0) else CONFLICT;
    ErrorValuesDistinct(Conflict, InvalidValue);
    assert Success(0) != CONFLICT;
  }

  /**
   * The ownership the corrected calls keep: a free framebuffer acquired by
   * `current` is owned by it, so that a further acquire (which needs it
   * free) and a release by any other process are refused, and releasing it
   * gives back the framebuffers as they were.
   */
  lemma OwnershipRoundTrip(fbs: seq<PublicData.Framebuffer>, index: nat, current: Process.ProcessId, other: nat)
    requires index < |fbs| && fbs[index].ownedBy == 0 && other != current
    ensures PublicData.WithOwner(fbs, index, current)[index].ownedBy != 0
    ensures PublicData.WithOwner(fbs, index, current)[index].ownedBy != other
    ensures PublicData.WithOwner(PublicData.WithOwner(fbs, index, current), index, 0) == fbs
  {
    PublicData.WithOwnerTwice(fbs, index, current, 0);
  }

  /**
   * The checks of `acquire_framebuffer` never look at `at`: the call
   * `acquire_framebuffer(0, 0, 0xFFFF_8000_0000_0000)` with one framebuffer
   * passes them and goes on to map the buffer, user-accessible, over the
   * start of the kernel's half, where the corrected check refuses it; so does a misaligned
   * address, which `map_4kib` assumes never comes.
   */
  lemma KernelAddressAccepted(size: nat)
    ensures FramebufferError(0, 0, 1).None?
    ensures !AddressOk(0xFFFF_8000_0000_0000, size) && !AddressOk(0x1001, size)
  {
  }
}
