/**
 * How the kernel turns the bootloader's memory map into at most sixteen
 * contiguous free segments (`src/arch/x86_64/boot/limine/mod.rs`):
 * usable and reclaimable entries are coalesced in map order, the slot
 * opened by the largest usable one is remembered for the boot allocator, every slot
 * is then trimmed to whole pages, and the direct map is sized to the
 * highest reclaimable address.
 */
module Segments {
  import opened Prelude
  import opened Mem
  import opened LimineReq

  /** How many segments the kernel keeps. */
  const MAX_SEGMENTS: nat := 16

  /** A contiguous range of physical memory. */
  datatype Segment = Segment(base: nat, length: nat)

  function End(s: Segment): nat {
    s.base + s.length
  }

  /** The value every slot starts with. */
  const EMPTY_SEGMENT: Segment := Segment(0, 0)

  const INITIAL_SLOTS: seq<Segment> := [EMPTY_SEGMENT, EMPTY_SEGMENT, EMPTY_SEGMENT, EMPTY_SEGMENT, EMPTY_SEGMENT, EMPTY_SEGMENT, EMPTY_SEGMENT, EMPTY_SEGMENT, EMPTY_SEGMENT, EMPTY_SEGMENT, EMPTY_SEGMENT, EMPTY_SEGMENT, EMPTY_SEGMENT, EMPTY_SEGMENT, EMPTY_SEGMENT, EMPTY_SEGMENT]

  /**
   * The state of the coalescing loop: the slots, how many are filled, the
   * slot holding the largest usable memory seen, whether the loop stopped
   * for lack of slots, the entries it has placed so far, and the entry
   * that opened each filled slot.
   */
  datatype Collected = Collected(slots: seq<Segment>, count: nat, largest: Option<nat>, stopped: bool, placed: seq<MemmapEntry>,
                                 openers: seq<MemmapEntry>)

  predicate Shaped(st: Collected) {
    && |st.slots| == MAX_SEGMENTS
    && st.count <= MAX_SEGMENTS
    && |st.openers| == st.count
    && (st.largest.Some? ==> st.largest.value < MAX_SEGMENTS)
  }

  const INITIAL: Collected := Collected(INITIAL_SLOTS, 0, None, false, [], [])

  /** The entry starts where the last filled slot ends, so it extends that slot. */
  predicate Extends(st: Collected, e: MemmapEntry)
    requires Shaped(st)
  {
    st.count > 0 && End(st.slots[st.count - 1]) == e.base
  }

  /**
   * The largest-segment update: a usable entry replaces the current pick
   * when there is none or when the picked slot is shorter than the entry;
   * the new pick is `target`.
   */
  function PickLargest(largest: Option<nat>, slots: seq<Segment>, e: MemmapEntry, target: nat): (r: Option<nat>)
    requires largest.Some? ==> largest.value < |slots|
    ensures r == largest || r == Some(target)
  {
    if e.kind != MEMMAP_USABLE then largest
    else if largest.None? then Some(target)
    else if slots[largest.value].length < e.length then Some(target)
    else largest
  }

  /**
   * One iteration of the coalescing loop. Entries that are not
   * reclaimable are skipped; once sixteen slots are filled the next
   * reclaimable entry stops the loop, even one that could have been merged.
   * Only a usable entry that opens a new slot can become the pick of the
   * largest segment, so the pick names a slot that begins with usable memory.
   */
  function Step(st: Collected, e: MemmapEntry): (r: Collected)
    requires Shaped(st)
    ensures Shaped(r)
  {
    if st.stopped || !Reclaimable(e) then st
    else if st.count >= MAX_SEGMENTS then st.(stopped := true)
    else if Extends(st, e) then
      var prev := st.slots[st.count - 1];
      st.(slots := st.slots[st.count - 1 := Segment(prev.base, prev.length + e.length)],
          placed := st.placed + [e])
    else
      st.(slots := st.slots[st.count := Segment(e.base, e.length)],
          count := st.count + 1,
          largest := PickLargest(st.largest, st.slots, e, st.count),
          placed := st.placed + [e],
          openers := st.openers + [e])
  }

  /** The coalescing loop over a whole memory map, entry by entry. */
  function Collect(entries: seq<MemmapEntry>): (st: Collected)
    ensures Shaped(st)
  {
    if entries == [] then INITIAL
    else Step(Collect(entries[..|entries| - 1]), entries[|entries| - 1])
  }

  /** The entry lies inside the segment. */
  predicate Within(e: MemmapEntry, s: Segment) {
    s.base <= e.base && e.base + e.length <= End(s)
  }

  /** Some filled slot holds the whole entry. */
  predicate Covered(e: MemmapEntry, slots: seq<Segment>, count: nat)
    requires count <= |slots|
  {
    exists j :: 0 <= j < count && Within(e, slots[j])
  }

  predicate IsUsable(e: MemmapEntry) {
    e.kind == MEMMAP_USABLE
  }

  /**
   * What the coalescing loop keeps true: slots past the filled ones are
   * untouched, every placed entry lies inside a filled slot, each filled
   * slot begins where a placed entry that opened it begins and is at least
   * as long, and the largest-segment pick is a slot opened by a usable
   * entry, at least as long as every usable entry that opened a slot,
   * present exactly when one did.
   */
  predicate CollectedOk(st: Collected) {
    && Shaped(st)
    && (st.stopped ==> st.count == MAX_SEGMENTS)
    && EmptyPast(st.slots, st.count)
    && AllCovered(st.placed, st.slots, st.count)
    && OpenersOk(st.slots, st.openers, st.placed)
    && PickOk(st.largest, st.slots, st.openers)
  }

  /** The slots past the filled ones are untouched. */
  predicate EmptyPast(slots: seq<Segment>, count: nat) {
    forall j :: count <= j < |slots| ==> slots[j] == EMPTY_SEGMENT
  }

  /** Every placed entry lies inside a filled slot. */
  predicate AllCovered(placed: seq<MemmapEntry>, slots: seq<Segment>, count: nat)
    requires count <= |slots|
  {
    forall k :: 0 <= k < |placed| ==> Covered(placed[k], slots, count)
  }

  /**
   * The openers are placed entries, none counted twice, and each filled
   * slot begins where the entry that opened it begins and is at least as long.
   */
  predicate OpenersOk(slots: seq<Segment>, openers: seq<MemmapEntry>, placed: seq<MemmapEntry>) {
    && |openers| <= |slots|
    && multiset(openers) <= multiset(placed)
    && forall j :: 0 <= j < |openers| ==>
         slots[j].base == openers[j].base && openers[j].length <= slots[j].length
  }

  /**
   * The pick is a slot opened by a usable entry, at least as long as every
   * usable entry that opened a slot, and present exactly when one did.
   */
  predicate PickOk(largest: Option<nat>, slots: seq<Segment>, openers: seq<MemmapEntry>) {
    && |openers| <= |slots|
    && (largest.Some? <==> exists j :: 0 <= j < |openers| && IsUsable(openers[j]))
    && (largest.Some? ==> largest.value < |openers| && IsUsable(openers[largest.value]))
    && (largest.Some? ==> forall j :: 0 <= j < |openers| && IsUsable(openers[j]) ==>
          openers[j].length <= slots[largest.value].length)
  }

  /** Slots that only grow keep the pick. */
  lemma PickGrows(largest: Option<nat>, slots: seq<Segment>, grown: seq<Segment>, openers: seq<MemmapEntry>)
    requires PickOk(largest, slots, openers) && |grown| == |slots|
    requires forall j :: 0 <= j < |slots| ==> grown[j].length >= slots[j].length
    ensures PickOk(largest, grown, openers)
  {
  }

  /** Each step keeps the invariant. */
  lemma StepKeeps(st: Collected, e: MemmapEntry)
    requires CollectedOk(st)
    ensures CollectedOk(Step(st, e))
  {
    if st.stopped || !Reclaimable(e) || st.count >= MAX_SEGMENTS {
    } else if Extends(st, e) {
      MergeKeeps(st, e);
    } else {
      AppendKeeps(st, e);
    }
  }

  /** The step at `e` merges it into the last filled slot. */
  predicate Merging(st: Collected, e: MemmapEntry) {
    Shaped(st) && !st.stopped && Reclaimable(e) && st.count < MAX_SEGMENTS && Extends(st, e)
  }

  /** The step at `e` opens a new slot with it. */
  predicate Appending(st: Collected, e: MemmapEntry) {
    Shaped(st) && !st.stopped && Reclaimable(e) && st.count < MAX_SEGMENTS && !Extends(st, e)
  }

  /** Lengths only grow, so a slot covering an entry still covers it and a pick stays at least as long. */
  lemma MergeKeeps(st: Collected, e: MemmapEntry)
    requires CollectedOk(st) && !st.stopped && Reclaimable(e) && st.count < MAX_SEGMENTS && Extends(st, e)
    ensures CollectedOk(Step(st, e))
  {
    var r := Step(st, e);
    assert Shaped(r) && !r.stopped && EmptyPast(r.slots, r.count) by { MergeGrows(st, e); }
    assert AllCovered(r.placed, r.slots, r.count) by { MergeCovers(st, e); }
    assert OpenersOk(r.slots, r.openers, r.placed) by { MergeOpeners(st, e); }
    assert PickOk(r.largest, r.slots, r.openers) by {
      MergeGrows(st, e);
      PickGrows(st.largest, st.slots, r.slots, st.openers);
    }
  }

  /** After a merge each filled slot still begins with the entry that opened it. */
  lemma MergeOpeners(st: Collected, e: MemmapEntry)
    requires Merging(st, e) && EmptyPast(st.slots, st.count) && OpenersOk(st.slots, st.openers, st.placed)
    ensures OpenersOk(Step(st, e).slots, Step(st, e).openers, Step(st, e).placed)
  {
    var r := Step(st, e);
    MergeGrows(st, e);
    forall j | 0 <= j < |r.openers|
      ensures r.slots[j].base == r.openers[j].base && r.openers[j].length <= r.slots[j].length
    {
      assert r.openers[j] == st.openers[j];
      assert r.slots[j].base == st.slots[j].base;
    }
  }

  /** A merge lengthens the last filled slot by the entry and leaves the other slots alone. */
  lemma MergeGrows(st: Collected, e: MemmapEntry)
    requires Merging(st, e) && EmptyPast(st.slots, st.count)
    ensures EmptyPast(Step(st, e).slots, Step(st, e).count)
    ensures Step(st, e).count == st.count && Step(st, e).placed == st.placed + [e]
    ensures Step(st, e).openers == st.openers && Step(st, e).largest == st.largest
    ensures Step(st, e).slots[st.count - 1] == Segment(st.slots[st.count - 1].base, st.slots[st.count - 1].length + e.length)
    ensures forall j :: 0 <= j < MAX_SEGMENTS && j != st.count - 1 ==> Step(st, e).slots[j] == st.slots[j]
    ensures forall j :: 0 <= j < MAX_SEGMENTS ==> Step(st, e).slots[j].length >= st.slots[j].length
  {
  }

  /** After a merge every placed entry, the new one included, lies in a filled slot. */
  lemma MergeCovers(st: Collected, e: MemmapEntry)
    requires Merging(st, e) && EmptyPast(st.slots, st.count) && AllCovered(st.placed, st.slots, st.count)
    ensures AllCovered(Step(st, e).placed, Step(st, e).slots, Step(st, e).count)
  {
    var r := Step(st, e);
    var last := st.count - 1;
    MergeGrows(st, e);
    forall k | 0 <= k < |r.placed|
      ensures Covered(r.placed[k], r.slots, r.count)
    {
      if k < |st.placed| {
        var j :| 0 <= j < st.count && Within(st.placed[k], st.slots[j]);
        assert Within(r.placed[k], r.slots[j]);
      } else {
        assert Within(r.placed[k], r.slots[last]);
      }
    }
  }

  /** A new slot covers the new entry and the old slots are unchanged. */
  lemma AppendKeeps(st: Collected, e: MemmapEntry)
    requires CollectedOk(st) && !st.stopped && Reclaimable(e) && st.count < MAX_SEGMENTS && !Extends(st, e)
    ensures CollectedOk(Step(st, e))
  {
    AppendGrows(st, e);
    AppendCovers(st, e);
    AppendOpeners(st, e);
    LargestKept(st.largest, st.slots, st.openers, e);
  }

  /** After an append each filled slot still begins with the entry that opened it, the new one with `e`. */
  lemma AppendOpeners(st: Collected, e: MemmapEntry)
    requires Appending(st, e) && EmptyPast(st.slots, st.count) && OpenersOk(st.slots, st.openers, st.placed)
    ensures OpenersOk(Step(st, e).slots, Step(st, e).openers, Step(st, e).placed)
  {
    var r := Step(st, e);
    AppendGrows(st, e);
    forall j | 0 <= j < |r.openers|
      ensures r.slots[j].base == r.openers[j].base && r.openers[j].length <= r.slots[j].length
    {
      if j < st.count {
        assert r.openers[j] == st.openers[j] && r.slots[j] == st.slots[j];
      } else {
        assert r.openers[j] == e && r.slots[j] == Segment(e.base, e.length);
      }
    }
  }

  /** An append fills the next slot with the entry and leaves the other slots alone. */
  lemma AppendGrows(st: Collected, e: MemmapEntry)
    requires Appending(st, e) && EmptyPast(st.slots, st.count)
    ensures EmptyPast(Step(st, e).slots, Step(st, e).count)
    ensures Step(st, e).count == st.count + 1 && Step(st, e).placed == st.placed + [e]
    ensures Step(st, e).openers == st.openers + [e]
    ensures Step(st, e).largest == PickLargest(st.largest, st.slots, e, st.count)
    ensures Step(st, e).slots == st.slots[st.count := Segment(e.base, e.length)]
    ensures Step(st, e).slots[st.count] == Segment(e.base, e.length)
    ensures forall j :: 0 <= j < MAX_SEGMENTS && j != st.count ==> Step(st, e).slots[j] == st.slots[j]
    ensures forall j :: 0 <= j < MAX_SEGMENTS ==> Step(st, e).slots[j].length >= st.slots[j].length
  {
  }

  /** After an append every placed entry, the new one included, lies in a filled slot. */
  lemma AppendCovers(st: Collected, e: MemmapEntry)
    requires Appending(st, e) && EmptyPast(st.slots, st.count) && AllCovered(st.placed, st.slots, st.count)
    ensures AllCovered(Step(st, e).placed, Step(st, e).slots, Step(st, e).count)
  {
    var r := Step(st, e);
    AppendGrows(st, e);
    forall k | 0 <= k < |r.placed|
      ensures Covered(r.placed[k], r.slots, r.count)
    {
      if k < |st.placed| {
        assert Covered(st.placed[k], st.slots, st.count);
        var j :| 0 <= j < st.count && Within(st.placed[k], st.slots[j]);
        assert Within(r.placed[k], r.slots[j]);
      } else {
        assert Within(r.placed[k], r.slots[st.count]);
      }
    }
  }

  /**
   * The pick after `e` opens the slot after the `openers`' slots: still a
   * slot opened by a usable entry, at least as long as every usable entry
   * that opened a slot, and present exactly when one did.
   */
  lemma LargestKept(largest: Option<nat>, slots: seq<Segment>, openers: seq<MemmapEntry>, e: MemmapEntry)
    requires PickOk(largest, slots, openers) && |openers| < |slots|
    ensures PickOk(PickLargest(largest, slots, e, |openers|), slots[|openers| := Segment(e.base, e.length)], openers + [e])
  {
    var n := |openers|;
    var o := openers + [e];
    var grown := slots[n := Segment(e.base, e.length)];
    assert o[n] == e && grown[n].length == e.length;
    assert forall j :: 0 <= j < n ==> o[j] == openers[j] && grown[j] == slots[j];
    if IsUsable(e) {
      assert exists j :: 0 <= j < |o| && IsUsable(o[j]);
    } else if exists j :: 0 <= j < |o| && IsUsable(o[j]) {
      var j :| 0 <= j < |o| && IsUsable(o[j]);
      assert j < n;
    }
  }

  /** The coalescing loop keeps its invariant over any memory map. */
  lemma {:induction false} CollectOk(entries: seq<MemmapEntry>)
    ensures CollectedOk(Collect(entries))
  {
    if entries != [] {
      CollectOk(entries[..|entries| - 1]);
      StepKeeps(Collect(entries[..|entries| - 1]), entries[|entries| - 1]);
    }
  }

  /** The reclaimable entries of a map, in order. */
  function ReclaimableEntries(entries: seq<MemmapEntry>): (r: seq<MemmapEntry>)
    ensures |r| <= |entries|
  {
    if entries == [] then []
    else
      var rest := ReclaimableEntries(entries[..|entries| - 1]);
      if Reclaimable(entries[|entries| - 1]) then rest + [entries[|entries| - 1]] else rest
  }

  /**
   * Nothing reclaimable is dropped unless the slots ran out: a loop that
   * did not stop placed every reclaimable entry, in order, and one that
   * stopped filled all sixteen slots.
   */
  lemma {:induction false} CollectPlacesAll(entries: seq<MemmapEntry>)
    ensures !Collect(entries).stopped ==> Collect(entries).placed == ReclaimableEntries(entries)
    ensures Collect(entries).stopped ==> Collect(entries).count == MAX_SEGMENTS
  {
    CollectOk(entries);
    if entries != [] {
      CollectPlacesAll(entries[..|entries| - 1]);
    }
  }

  /** Once the loop has stopped, later entries change nothing. */
  lemma {:induction false} StoppedStays(entries: seq<MemmapEntry>, n: nat)
    requires n <= |entries| && Collect(entries[..n]).stopped
    ensures Collect(entries) == Collect(entries[..n])
    decreases |entries|
  {
    if n < |entries| {
      var prev := entries[..|entries| - 1];
      assert prev[..n] == entries[..n];
      StoppedStays(prev, n);
    } else {
      assert entries[..n] == entries;
    }
  }

  /** The state after the first `n` entries extends to the state after `n + 1`. */
  lemma CollectNext(entries: seq<MemmapEntry>, n: nat)
    requires n < |entries|
    ensures Collect(entries[..n + 1]) == Step(Collect(entries[..n]), entries[n])
  {
    assert entries[..n + 1][..n] == entries[..n];
  }

  /**
   * The loop of `entry_point` that fills the `segments` array. The pick of
   * the largest segment is taken after the merge test, and only for an
   * entry that opens a new slot.
   */
  method CollectSegments(memmap: seq<MemmapEntry>, segments: array<Segment>) returns (count: nat, largest: Option<nat>)
    requires segments.Length == MAX_SEGMENTS && segments[..] == INITIAL_SLOTS
    modifies segments
    ensures segments[..] == Collect(memmap).slots
    ensures count == Collect(memmap).count && largest == Collect(memmap).largest
  {
    count := 0;
    largest := None;
    ghost var st := INITIAL;
    var i := 0;
    while i < |memmap|
      invariant 0 <= i <= |memmap|
      invariant st == Collect(memmap[..i]) && !st.stopped
      invariant segments[..] == st.slots && count == st.count && largest == st.largest
    {
      var e := memmap[i];
      CollectNext(memmap, i);
      if !Reclaimable(e) {
        i := i + 1;
        continue;
      }
      if count >= MAX_SEGMENTS {
        StoppedStays(memmap, i + 1);
        return;
      }
      count, largest := PlaceEntry(segments, count, largest, e, st);
      st := Step(st, e);
      i := i + 1;
    }
    assert memmap[..i] == memmap;
  }

  /**
   * One reclaimable entry placed while a slot is free: merged into the
   * last slot, or put in the next, where a usable entry longer than the
   * picked slot becomes the pick.
   */
  method PlaceEntry(segments: array<Segment>, count: nat, largest: Option<nat>, e: MemmapEntry, ghost st: Collected)
      returns (count': nat, largest': Option<nat>)
    requires Shaped(st) && !st.stopped && Reclaimable(e) && st.count < MAX_SEGMENTS
    requires segments.Length == MAX_SEGMENTS && segments[..] == st.slots
    requires count == st.count && largest == st.largest
    modifies segments
    ensures segments[..] == Step(st, e).slots && !Step(st, e).stopped
    ensures count' == Step(st, e).count && largest' == Step(st, e).largest
  {
    var merges := count > 0 && segments[count - 1].base + segments[count - 1].length == e.base;
    assert merges == Extends(st, e);
    largest' := largest;
    if merges {
      var prev := segments[count - 1];
      segments[count - 1] := Segment(prev.base, prev.length + e.length);
      count' := count;
      return;
    }
    if e.kind == MEMMAP_USABLE {
      match largest {
        case Some(idx) =>
          if segments[idx].length < e.length {
            largest' := Some(count);
          }
        case None =>
          largest' := Some(count);
      }
    }
    segments[count] := Segment(e.base, e.length);
    count' := count + 1;
  }

  /**
   * `largest_segment` as written: the pick is set to `segment_count`
   * before the merge test, so when the entry is merged into the previous
   * slot the pick names the next, unfilled slot.
   */
  function LargestAsWritten(entries: seq<MemmapEntry>): (r: Option<nat>)
    ensures r.Some? ==> r.value < MAX_SEGMENTS && r.value <= Collect(entries).count
  {
    if entries == [] then None
    else
      var prev := entries[..|entries| - 1];
      var e := entries[|entries| - 1];
      var st := Collect(prev);
      var idx := LargestAsWritten(prev);
      if st.stopped || !Reclaimable(e) || st.count >= MAX_SEGMENTS then idx
      else PickLargest(idx, st.slots, e, st.count)
  }

  /** Two adjacent usable entries: they merge into slot 0, while the pick as written names empty slot 1. */
  const ADJACENT_USABLE: seq<MemmapEntry> :=
    [MemmapEntry(0x1000, 0x1000, MEMMAP_USABLE), MemmapEntry(0x2000, 0x2000, MEMMAP_USABLE)]

  lemma LargestAsWrittenNamesEmptySlot()
    ensures Collect(ADJACENT_USABLE).count == 1
    ensures Collect(ADJACENT_USABLE).slots[0] == Segment(0x1000, 0x3000)
    ensures LargestAsWritten(ADJACENT_USABLE) == Some(1)
    ensures Collect(ADJACENT_USABLE).slots[1] == EMPTY_SEGMENT
    ensures Collect(ADJACENT_USABLE).largest == Some(0)
  {
    var first := ADJACENT_USABLE[..1];
    assert first[..0] == [];
    assert Collect(first) == Step(INITIAL, ADJACENT_USABLE[0]);
    assert ADJACENT_USABLE[..1] == first;
  }

  /** Usable memory right after bootloader-reclaimable memory: the two share slot 0, which that memory opened. */
  const RECLAIMABLE_THEN_USABLE: seq<MemmapEntry> :=
    [MemmapEntry(0x1000, 0x1000, MEMMAP_BOOTLOADER_RECLAIMABLE), MemmapEntry(0x2000, 0x10000, MEMMAP_USABLE)]

  /**
   * The corrected pick never names a slot opened by bootloader memory: with
   * only such usable memory there is no boot block at all.
   */
  lemma MergedUsableNotPicked()
    ensures Collect(RECLAIMABLE_THEN_USABLE).count == 1
    ensures Collect(RECLAIMABLE_THEN_USABLE).slots[0] == Segment(0x1000, 0x11000)
    ensures Collect(RECLAIMABLE_THEN_USABLE).largest.None?
    ensures BootBlock(AlignAll(Collect(RECLAIMABLE_THEN_USABLE).slots), Collect(RECLAIMABLE_THEN_USABLE).largest).Err?
  {
    var first := RECLAIMABLE_THEN_USABLE[..1];
    assert first[..0] == [];
    assert Collect(first) == Step(INITIAL, RECLAIMABLE_THEN_USABLE[0]);
    assert RECLAIMABLE_THEN_USABLE[..1] == first;
  }

  /** The number of padding bytes that bring `base` up to a page boundary. */
  function Padding(base: nat): (pad: nat)
    ensures pad < PAGE_SIZE && (base + pad) % PAGE_SIZE == 0
  {
    var offset := base % PAGE_SIZE;
    if offset != 0 then PAGE_SIZE - offset else 0
  }

  /**
   * The re-alignment of one slot as written: the base moves up to a page
   * boundary and the length shrinks by the same amount, then down to whole
   * pages. The first subtraction overflows when the slot is shorter than
   * the padding; that case is `None`.
   */
  function AlignSegmentAsWritten(s: Segment): (r: Option<Segment>)
  {
    var pad := Padding(s.base);
    if s.length < pad then None
    else
      var length := s.length - pad;
      Some(Segment(s.base + pad, length - length % PAGE_SIZE))
  }

  /**
   * The re-alignment of one slot: the whole pages inside it. A slot
   * shorter than its padding holds no whole page and becomes empty.
   */
  function AlignSegment(s: Segment): (r: Segment)
    ensures r.base % PAGE_SIZE == 0 && r.length % PAGE_SIZE == 0
    ensures s.base <= r.base < s.base + PAGE_SIZE
    ensures r.length > 0 ==> End(r) <= End(s)
  {
    var pad := Padding(s.base);
    var length := if s.length >= pad then s.length - pad else 0;
    Segment(s.base + pad, length - length % PAGE_SIZE)
  }

  /** The re-aligned slot keeps every whole page of the slot. */
  lemma AlignSegmentKeepsPages(s: Segment, p: nat)
    requires p % PAGE_SIZE == 0 && s.base <= p && p + PAGE_SIZE <= End(s)
    ensures AlignSegment(s).base <= p && p + PAGE_SIZE <= End(AlignSegment(s))
  {
    var r := AlignSegment(s);
    var pad := Padding(s.base);
    if p < s.base + pad {
      assert false;
    }
    var length := s.length - pad;
    assert p + PAGE_SIZE - r.base <= length;
    assert (p + PAGE_SIZE - r.base) % PAGE_SIZE == 0;
    DownToMultiple(length, p + PAGE_SIZE - r.base);
  }

  /** Rounding down to a multiple of the page size keeps every multiple below. */
  lemma DownToMultiple(length: nat, m: nat)
    requires m <= length && m % PAGE_SIZE == 0
    ensures m <= length - length % PAGE_SIZE
  {
    var q := length / PAGE_SIZE;
    assert length - length % PAGE_SIZE == q * PAGE_SIZE;
    assert m / PAGE_SIZE <= q;
  }

  /** Where the slot as written does not overflow, it agrees with the re-alignment. */
  lemma AlignAsWrittenAgrees(s: Segment)
    requires AlignSegmentAsWritten(s).Some?
    ensures AlignSegmentAsWritten(s).value == AlignSegment(s)
  {
  }

  /**
   * An ACPI-reclaimable entry one page past a boundary and shorter than a
   * page becomes a slot whose re-alignment as written overflows.
   */
  lemma AlignAsWrittenOverflows()
    ensures Collect([MemmapEntry(0x1001, 0x10, MEMMAP_ACPI_RECLAIMABLE)]).slots[0] == Segment(0x1001, 0x10)
    ensures AlignSegmentAsWritten(Segment(0x1001, 0x10)).None?
    ensures AlignSegment(Segment(0x1001, 0x10)) == Segment(0x2000, 0)
  {
    var entries := [MemmapEntry(0x1001, 0x10, MEMMAP_ACPI_RECLAIMABLE)];
    assert entries[..0] == [];
  }

  /** Every slot re-aligned. */
  function AlignAll(slots: seq<Segment>): (r: seq<Segment>)
    ensures |r| == |slots|
  {
    seq(|slots|, i requires 0 <= i < |slots| => AlignSegment(slots[i]))
  }

  /** The re-alignment pass of `entry_point`, slot by slot in place. */
  method AlignSegments(segments: array<Segment>)
    modifies segments
    ensures segments[..] == AlignAll(old(segments[..]))
  {
    for i := 0 to segments.Length
      invariant segments[..i] == AlignAll(old(segments[..]))[..i]
      invariant forall j :: i <= j < segments.Length ==> segments[j] == old(segments[j])
    {
      var segment := segments[i];
      var offset := segment.base % PAGE_SIZE;
      if offset != 0 {
        var pad := PAGE_SIZE - offset;
        var length := if segment.length >= pad then segment.length - pad else 0;
        segment := Segment(segment.base + pad, length);
      }
      segment := segment.(length := segment.length - segment.length % PAGE_SIZE);
      segments[i] := segment;
      assert segments[..i + 1] == segments[..i] + [AlignSegment(old(segments[i]))];
    }
  }

  /**
   * The block the boot allocator gets: the re-aligned slot of the largest
   * usable segment. Without any usable memory the kernel dies (out of memory).
   */
  function BootBlock(slots: seq<Segment>, largest: Option<nat>): (r: Result<Segment, OutOfMemory>)
    requires largest.Some? ==> largest.value < |slots|
    ensures r.Err? <==> largest.None?
    ensures r.Ok? ==> r.value == slots[largest.value]
  {
    match largest
    case None => Err(OutOfMemory)
    case Some(i) => Ok(slots[i])
  }

  /**
   * With the pick taken only for a usable entry that opens a slot, the
   * kernel runs out of memory exactly when no usable entry opened one.
   * Otherwise the boot allocator gets the whole pages of a slot that
   * begins with a usable entry: the block starts at that entry's first
   * page boundary, and when the entry holds a whole page from there, the
   * block's first page lies inside the entry. That slot is at least as
   * long as every usable entry that opened a slot.
   */
  lemma BootBlockFromLargest(entries: seq<MemmapEntry>)
    ensures var st := Collect(entries);
      BootBlock(AlignAll(st.slots), st.largest).Ok? <==> exists j :: 0 <= j < st.count && IsUsable(st.openers[j])
    ensures Collect(entries).largest.Some? ==> Collect(entries).largest.value < Collect(entries).count
    ensures var st := Collect(entries);
      st.largest.Some? ==>
        var i := st.largest.value;
        var e := st.openers[i];
        var block := AlignSegment(st.slots[i]);
        && e in st.placed && IsUsable(e)
        && BootBlock(AlignAll(st.slots), st.largest) == Ok(block)
        && block.base == e.base + Padding(e.base)
        && (Padding(e.base) + PAGE_SIZE <= e.length ==> block.base + PAGE_SIZE <= e.base + e.length && block.base + PAGE_SIZE <= End(block))
        && forall j :: 0 <= j < st.count && IsUsable(st.openers[j]) ==> st.openers[j].length <= st.slots[i].length
  {
    var st := Collect(entries);
    CollectOk(entries);
    if st.largest.Some? {
      var i := st.largest.value;
      assert AlignAll(st.slots)[i] == AlignSegment(st.slots[i]);
      OpenerFirstPage(st.slots[i], st.openers[i]);
      assert st.openers[i] in multiset(st.openers);
    }
  }

  /** The whole pages of a slot start at the first page boundary of the entry that opened it. */
  lemma OpenerFirstPage(s: Segment, e: MemmapEntry)
    requires s.base == e.base && e.length <= s.length
    ensures AlignSegment(s).base == e.base + Padding(e.base)
    ensures Padding(e.base) + PAGE_SIZE <= e.length ==>
      AlignSegment(s).base + PAGE_SIZE <= e.base + e.length && AlignSegment(s).base + PAGE_SIZE <= End(AlignSegment(s))
  {
    if Padding(e.base) + PAGE_SIZE <= e.length {
      AlignSegmentKeepsPages(s, e.base + Padding(e.base));
    }
  }

  lemma BootBlockAsWrittenEmpty()
    ensures LargestAsWritten(ADJACENT_USABLE).Some?
    ensures var r := BootBlock(AlignAll(Collect(ADJACENT_USABLE).slots), LargestAsWritten(ADJACENT_USABLE));
      r.Ok? && r.value.length == 0
  {
    LargestAsWrittenNamesEmptySlot();
    AlignKeepsShort(Collect(ADJACENT_USABLE).slots, 1);
  }

  /** A slot on a page boundary that is shorter than a page is empty once re-aligned. */
  lemma AlignKeepsShort(slots: seq<Segment>, i: nat)
    requires i < |slots| && slots[i].base % PAGE_SIZE == 0 && slots[i].length < PAGE_SIZE
    ensures AlignAll(slots)[i].length == 0
  {
    AlignShort(slots[i]);
    assert AlignAll(slots)[i] == AlignSegment(slots[i]);
  }

  lemma AlignShort(s: Segment)
    requires s.base % PAGE_SIZE == 0 && s.length < PAGE_SIZE
    ensures AlignSegment(s).base == s.base && AlignSegment(s).length == 0
  {
    assert Padding(s.base) == 0;
  }

  /** The highest end address of a reclaimable entry, or 0 when there is none. */
  function MaxReclaimableEnd(entries: seq<MemmapEntry>): (m: nat)
  {
    if entries == [] then 0
    else
      var rest := MaxReclaimableEnd(entries[..|entries| - 1]);
      var e := entries[|entries| - 1];
      if Reclaimable(e) && e.base + e.length > rest then e.base + e.length else rest
  }

  /** The maximum is an upper bound of every reclaimable end and is itself one of them (or 0). */
  lemma {:induction false} MaxReclaimableEndIsMax(entries: seq<MemmapEntry>)
    ensures forall k :: 0 <= k < |entries| && Reclaimable(entries[k]) ==> entries[k].base + entries[k].length <= MaxReclaimableEnd(entries)
    ensures MaxReclaimableEnd(entries) == 0 ||
      exists k :: 0 <= k < |entries| && Reclaimable(entries[k]) && entries[k].base + entries[k].length == MaxReclaimableEnd(entries)
  {
    if entries != [] {
      var prev := entries[..|entries| - 1];
      MaxReclaimableEndIsMax(prev);
      assert forall k :: 0 <= k < |prev| ==> prev[k] == entries[k];
    }
  }

  /** `direct_map_size`: the highest reclaimable address, capped at the supported maximum. */
  function DirectMapSize(entries: seq<MemmapEntry>): (size: nat)
    ensures size <= MAX_PHYSICAL_MEMORY
  {
    var m := MaxReclaimableEnd(entries);
    if m > MAX_PHYSICAL_MEMORY then MAX_PHYSICAL_MEMORY else m
  }

  /**
   * The direct map reaches every reclaimable byte below the supported
   * maximum, and reaches no further than the highest reclaimable address.
   */
  lemma DirectMapCovers(entries: seq<MemmapEntry>, k: nat)
    requires k < |entries| && Reclaimable(entries[k])
    ensures entries[k].base + entries[k].length <= DirectMapSize(entries) ||
      DirectMapSize(entries) == MAX_PHYSICAL_MEMORY
    ensures DirectMapSize(entries) <= MaxReclaimableEnd(entries)
  {
    MaxReclaimableEndIsMax(entries);
  }
}
