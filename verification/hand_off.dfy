/**
 * The hand-off of free memory to the memory tracker at the end of boot
 * (`entry_point_follow` in `src/arch/x86_64/boot/limine/mod.rs`): the
 * tracker gets room for every page below the highest segment end, then
 * every whole page of every segment is marked unused, except the part of
 * the boot allocator's segment it has already handed out.
 */
module HandOff {
  import opened Prelude
  import opened Bits
  import opened Mem
  import opened Utility
  import opened Tracker
  import opened LimineReq
  import opened Segments

  /** The highest end of a segment (0 for no segment). */
  function MaxEnd(slots: seq<Segment>): nat {
    if slots == [] then 0
    else
      var rest := MaxEnd(slots[..|slots| - 1]);
      if End(slots[|slots| - 1]) > rest then End(slots[|slots| - 1]) else rest
  }

  /** The highest end bounds every segment and is the end of one of them. */
  lemma {:induction false} MaxEndIsMax(slots: seq<Segment>)
    ensures forall i :: 0 <= i < |slots| ==> End(slots[i]) <= MaxEnd(slots)
    ensures slots != [] ==> exists i :: 0 <= i < |slots| && End(slots[i]) == MaxEnd(slots)
  {
    if slots != [] {
      var prev := slots[..|slots| - 1];
      MaxEndIsMax(prev);
      assert forall i :: 0 <= i < |prev| ==> prev[i] == slots[i];
      var last := |slots| - 1;
      if End(slots[last]) > MaxEnd(prev) || prev == [] {
        assert End(slots[last]) == MaxEnd(slots);
      } else {
        var i :| 0 <= i < |prev| && End(prev[i]) == MaxEnd(prev);
        assert End(slots[i]) == MaxEnd(slots);
      }
    }
  }

  /**
   * `nb_pages`: the number of pages below the highest segment end. The
   * segments are a fixed array, so the maximum always exists.
   */
  function NbPages(slots: seq<Segment>): (n: nat)
    requires slots != []
  {
    MaxEnd(slots) / PAGE_SIZE
  }

  /**
   * The boot allocator's segment with its used prefix cut off: it now
   * starts at the allocator's next free byte. Only a non-empty segment
   * that starts at the allocator's start address is cut.
   */
  function Trim(s: Segment, bootStart: nat, peek: nat): (t: Segment)
    requires s.base == bootStart && s.length > 0 ==> s.base <= peek <= End(s)
    ensures End(t) == End(s) && s.base <= t.base
    ensures s.base == bootStart && s.length > 0 ==> t.base == peek
    ensures !(s.base == bootStart && s.length > 0) ==> t == s
  {
    if s.base == bootStart && s.length > 0 then Segment(peek, End(s) - peek) else s
  }

  /**
   * The cut as written: every segment that starts at the allocator's
   * start address is cut, empty ones included. `None` is the case where
   * the cut is longer than the segment (the debug assertion fails and the
   * subtraction overflows).
   */
  function TrimAsWritten(s: Segment, bootStart: nat, peek: nat): (r: Option<Segment>)
    requires s.base == bootStart ==> s.base <= peek
  {
    if s.base != bootStart then Some(s)
    else if peek - s.base > s.length then None
    else Some(Segment(peek, s.length - (peek - s.base)))
  }

  /** Where the cut as written succeeds, it agrees with `Trim`. */
  lemma TrimAsWrittenAgrees(s: Segment, bootStart: nat, peek: nat)
    requires s.base == bootStart ==> s.base <= peek <= End(s)
    ensures TrimAsWritten(s, bootStart, peek) == Some(Trim(s, bootStart, peek))
  {
  }

  /**
   * Usable memory at address 0 makes the boot allocator start at 0, which
   * is also the base of every unfilled slot; once the allocator has handed
   * out a page, the cut as written fails on slot 1, while `Trim` leaves it
   * alone.
   */
  lemma TrimAsWrittenFailsOnEmptySlot()
    ensures Collect([MemmapEntry(0, 0x10000, MEMMAP_USABLE)]).largest == Some(0)
    ensures Collect([MemmapEntry(0, 0x10000, MEMMAP_USABLE)]).slots[0] == Segment(0, 0x10000)
    ensures Collect([MemmapEntry(0, 0x10000, MEMMAP_USABLE)]).slots[1] == EMPTY_SEGMENT
    ensures TrimAsWritten(EMPTY_SEGMENT, 0, 0x1000).None?
    ensures Trim(EMPTY_SEGMENT, 0, 0x1000) == EMPTY_SEGMENT
  {
    var entries := [MemmapEntry(0, 0x10000, MEMMAP_USABLE)];
    assert entries[..0] == [];
  }

  /** The pages `start`, `start + 4096`, ... that end at or before `end`, in increasing order. */
  function PageRange(start: nat, end: nat): (pages: seq<nat>)
    decreases end
  {
    if end < start + PAGE_SIZE then [] else PageRange(start, end - PAGE_SIZE) + [end - PAGE_SIZE]
  }

  /** A page lies in a segment. */
  predicate InSlot(p: nat, s: Segment) {
    s.base <= p && p + PAGE_SIZE <= End(s)
  }

  /** Between two page boundaries, the range holds exactly the page boundaries in between. */
  lemma {:induction false} PageRangeExact(start: nat, end: nat)
    requires start % PAGE_SIZE == 0 && end % PAGE_SIZE == 0
    ensures forall k :: 0 <= k < |PageRange(start, end)| ==>
      PageRange(start, end)[k] % PAGE_SIZE == 0 && start <= PageRange(start, end)[k] && PageRange(start, end)[k] + PAGE_SIZE <= end
    ensures forall k, l :: 0 <= k < l < |PageRange(start, end)| ==> PageRange(start, end)[k] < PageRange(start, end)[l]
    ensures forall p: nat :: p % PAGE_SIZE == 0 && start <= p && p + PAGE_SIZE <= end ==> p in PageRange(start, end)
    decreases end
  {
    if end >= start + PAGE_SIZE {
      PageRangeExact(start, end - PAGE_SIZE);
    }
  }

  /** The page boundary `align_page_up` rounds to. */
  function PageUp(x: nat): (r: nat)
    ensures r % PAGE_SIZE == 0 && x <= r < x + PAGE_SIZE
  {
    x + Padding(x)
  }

  /** `align_page_up` rounds to `PageUp`. */
  lemma AlignPageUpIs(x: nat)
    requires x + 0xfff < U64_LIMIT
    ensures AlignPageUp(x) == PageUp(x)
  {
    var up := AlignPageUp(x);
    AlignedAbove(x, PageUp(x), up);
    AlignedAbove(x, up, PageUp(x));
  }

  /**
   * The whole pages of a segment that go to the tracker: from the cut base
   * rounded up to a page boundary to the segment's end, which already is
   * one.
   */
  function SlotPages(s: Segment, bootStart: nat, peek: nat): (pages: seq<nat>)
    requires s.base == bootStart && s.length > 0 ==> s.base <= peek <= End(s)
  {
    PageRange(PageUp(Trim(s, bootStart, peek).base), End(s))
  }

  /** What the hand-off demands of the segments. */
  predicate SlotsOk(slots: seq<Segment>, bootStart: nat, peek: nat) {
    && (forall i :: 0 <= i < |slots| ==> slots[i].base % PAGE_SIZE == 0 && slots[i].length % PAGE_SIZE == 0)
    && (forall i :: 0 <= i < |slots| ==> End(slots[i]) + 0xfff < U64_LIMIT)
    && (forall i :: 0 <= i < |slots| && slots[i].base == bootStart && slots[i].length > 0 ==>
          slots[i].base <= peek <= End(slots[i]))
    && (forall i, j {:trigger Apart(slots[i], slots[j])} :: 0 <= i < |slots| && 0 <= j < |slots| && i != j ==> Apart(slots[i], slots[j]))
  }

  /** Two segments overlap in no byte unless one of them is empty. */
  predicate Apart(a: Segment, b: Segment) {
    a.length > 0 && b.length > 0 ==> End(a) <= b.base || End(b) <= a.base
  }

  /** Every page handed to the tracker, segment by segment. */
  function HandOffPages(slots: seq<Segment>, bootStart: nat, peek: nat): (pages: seq<nat>)
    requires SlotsOk(slots, bootStart, peek)
  {
    if slots == [] then []
    else
      var prev := slots[..|slots| - 1];
      assert SlotsOk(prev, bootStart, peek) by {
        assert forall i :: 0 <= i < |prev| ==> prev[i] == slots[i];
      }
      HandOffPages(prev, bootStart, peek) + SlotPages(slots[|slots| - 1], bootStart, peek)
  }

  /** The tracker's page indices of a list of pages. */
  function Indices(pages: seq<nat>): (r: seq<nat>)
    ensures |r| == |pages|
  {
    if pages == [] then [] else Indices(pages[..|pages| - 1]) + [pages[|pages| - 1] / PAGE_SIZE]
  }

  /** Each index is its page divided by the page size. */
  lemma {:induction false} IndicesAt(pages: seq<nat>)
    ensures forall k :: 0 <= k < |pages| ==> Indices(pages)[k] == pages[k] / PAGE_SIZE
  {
    if pages != [] {
      IndicesAt(pages[..|pages| - 1]);
    }
  }

  /**
   * The pages of one segment are page boundaries inside it, past the
   * allocator's next free byte when it is the boot allocator's segment;
   * every such page is handed over.
   */
  lemma SlotPagesExact(s: Segment, bootStart: nat, peek: nat)
    requires s.base % PAGE_SIZE == 0 && s.length % PAGE_SIZE == 0
    requires s.base == bootStart && s.length > 0 ==> s.base <= peek <= End(s)
    ensures var pages := SlotPages(s, bootStart, peek);
      forall k :: 0 <= k < |pages| ==>
        pages[k] % PAGE_SIZE == 0 && InSlot(pages[k], s) && (s.base == bootStart && s.length > 0 ==> peek <= pages[k])
    ensures var pages := SlotPages(s, bootStart, peek);
      forall k, l :: 0 <= k < l < |pages| ==> pages[k] < pages[l]
    ensures forall p: nat :: p % PAGE_SIZE == 0 && InSlot(p, s) && (s.base == bootStart && s.length > 0 ==> peek <= p) ==>
      p in SlotPages(s, bootStart, peek)
  {
    var t := Trim(s, bootStart, peek);
    var start := PageUp(t.base);
    var pages := PageRange(start, End(s));
    EndAligned(s);
    PageRangeExact(start, End(s));
    forall p: nat | p % PAGE_SIZE == 0 && InSlot(p, s) && (s.base == bootStart && s.length > 0 ==> peek <= p)
      ensures p in pages
    {
      AlignedAbove(t.base, p, start);
    }
  }

  /** Rounding up to a page boundary never passes a page boundary at or above the value. */
  lemma AlignedAbove(x: nat, p: nat, up: nat)
    requires p % PAGE_SIZE == 0 && x <= p && up % PAGE_SIZE == 0 && x <= up < x + PAGE_SIZE
    ensures up <= p
  {
    if up > p {
      assert false;
    }
  }

  /** Page boundaries compare as their page indices do. */
  lemma IndexOrder(p: nat, q: nat)
    requires p % PAGE_SIZE == 0 && q % PAGE_SIZE == 0
    ensures p < q <==> p / PAGE_SIZE < q / PAGE_SIZE
    ensures p == q <==> p / PAGE_SIZE == q / PAGE_SIZE
  {
    assert p == (p / PAGE_SIZE) * PAGE_SIZE;
    assert q == (q / PAGE_SIZE) * PAGE_SIZE;
  }

  /** A page ending at or below `m` has an index below `m`'s page count. */
  lemma IndexBelow(p: nat, m: nat)
    requires p % PAGE_SIZE == 0 && p + PAGE_SIZE <= m
    ensures p / PAGE_SIZE < m / PAGE_SIZE
  {
    assert (p + PAGE_SIZE) / PAGE_SIZE == p / PAGE_SIZE + 1;
  }

  /** The demands on the segments hold for every prefix. */
  lemma SlotsOkPrefix(slots: seq<Segment>, bootStart: nat, peek: nat, n: nat)
    requires SlotsOk(slots, bootStart, peek) && n <= |slots|
    ensures SlotsOk(slots[..n], bootStart, peek)
  {
    assert forall i :: 0 <= i < n ==> slots[..n][i] == slots[i];
  }

  /**
   * Every page handed over is a page boundary inside a non-empty segment
   * (the one returned), and past the allocator's next free byte when that
   * is the boot allocator's segment.
   */
  lemma {:induction false} HandOffPageSound(slots: seq<Segment>, bootStart: nat, peek: nat, k: nat) returns (j: nat)
    requires SlotsOk(slots, bootStart, peek) && k < |HandOffPages(slots, bootStart, peek)|
    ensures HandOffPages(slots, bootStart, peek)[k] % PAGE_SIZE == 0
    ensures j < |slots| && slots[j].length > 0 && InSlot(HandOffPages(slots, bootStart, peek)[k], slots[j])
    ensures slots[j].base == bootStart ==> peek <= HandOffPages(slots, bootStart, peek)[k]
  {
    var prev := slots[..|slots| - 1];
    var last := slots[|slots| - 1];
    SlotsOkPrefix(slots, bootStart, peek, |slots| - 1);
    var before := HandOffPages(prev, bootStart, peek);
    var own := SlotPages(last, bootStart, peek);
    assert HandOffPages(slots, bootStart, peek) == before + own;
    if k < |before| {
      j := HandOffPageSound(prev, bootStart, peek, k);
      assert slots[j] == prev[j];
    } else {
      SlotPagesExact(last, bootStart, peek);
      j := |slots| - 1;
      assert own[k - |before|] == HandOffPages(slots, bootStart, peek)[k];
    }
  }

  /** No page handed over lies in a segment disjoint from every non-empty segment. */
  lemma {:induction false} HandOffPagesOutside(slots: seq<Segment>, bootStart: nat, peek: nat, s: Segment)
    requires SlotsOk(slots, bootStart, peek)
    requires forall j :: 0 <= j < |slots| && slots[j].length > 0 ==> End(slots[j]) <= s.base || End(s) <= slots[j].base
    ensures forall k :: 0 <= k < |HandOffPages(slots, bootStart, peek)| ==>
      HandOffPages(slots, bootStart, peek)[k] % PAGE_SIZE == 0 && !InSlot(HandOffPages(slots, bootStart, peek)[k], s)
  {
    if slots != [] {
      var prev := slots[..|slots| - 1];
      var last := slots[|slots| - 1];
      SlotsOkPrefix(slots, bootStart, peek, |slots| - 1);
      assert forall j :: 0 <= j < |prev| ==> prev[j] == slots[j];
      HandOffPagesOutside(prev, bootStart, peek, s);
      SlotPagesExact(last, bootStart, peek);
    }
  }

  /**
   * Every page boundary inside a segment is handed over, unless the boot
   * allocator has already handed it out.
   */
  lemma {:induction false} HandOffPagesComplete(slots: seq<Segment>, bootStart: nat, peek: nat, j: nat, p: nat)
    requires SlotsOk(slots, bootStart, peek) && j < |slots|
    requires p % PAGE_SIZE == 0 && InSlot(p, slots[j])
    requires slots[j].base == bootStart ==> peek <= p
    ensures p in HandOffPages(slots, bootStart, peek)
  {
    var prev := slots[..|slots| - 1];
    SlotsOkPrefix(slots, bootStart, peek, |slots| - 1);
    if j == |slots| - 1 {
      SlotPagesExact(slots[j], bootStart, peek);
    } else {
      assert prev[j] == slots[j];
      HandOffPagesComplete(prev, bootStart, peek, j, p);
    }
  }

  /** The index of page `p` is not among `before` and is one the tracker manages. */
  predicate FreshIndex(before: seq<nat>, pageCount: nat, p: nat) {
    p / PAGE_SIZE !in before && p / PAGE_SIZE < pageCount
  }

  /**
   * A page of a segment is in no earlier segment, since the segments are
   * disjoint, and its index fits the tracker.
   */
  lemma FreshFromEarlier(slots: seq<Segment>, bootStart: nat, peek: nat, i: nat, first: nat, start: nat)
    requires SlotsOk(slots, bootStart, peek) && i < |slots|
    requires first == PageUp(Trim(slots[i], bootStart, peek).base)
    requires first <= start && start % PAGE_SIZE == 0 && start + PAGE_SIZE <= End(slots[i])
    ensures SlotsOk(slots[..i], bootStart, peek)
    ensures FreshIndex(Indices(HandOffPages(slots[..i], bootStart, peek)), NbPages(slots), start)
  {
    SlotsOkPrefix(slots, bootStart, peek, i);
    var prev := slots[..i];
    var before := HandOffPages(prev, bootStart, peek);
    assert slots[i].length > 0 && InSlot(start, slots[i]);
    assert forall j :: 0 <= j < |prev| ==> prev[j] == slots[j] && Apart(slots[j], slots[i]);
    HandOffPagesOutside(prev, bootStart, peek, slots[i]);
    IndicesAt(before);
    forall k | 0 <= k < |before|
      ensures before[k] / PAGE_SIZE != start / PAGE_SIZE
    {
      IndexOrder(before[k], start);
    }
    MaxEndIsMax(slots);
    IndexBelow(start, MaxEnd(slots));
  }

  /** Every page of a segment past the cut is fresh with respect to the earlier segments. */
  lemma SegmentFresh(slots: seq<Segment>, bootStart: nat, peek: nat, i: nat, first: nat)
    requires SlotsOk(slots, bootStart, peek) && i < |slots|
    requires first == PageUp(Trim(slots[i], bootStart, peek).base)
    ensures SlotsOk(slots[..i], bootStart, peek)
    ensures forall p :: first <= p < End(slots[i]) && p % PAGE_SIZE == 0 ==>
      FreshIndex(Indices(HandOffPages(slots[..i], bootStart, peek)), NbPages(slots), p)
  {
    SlotsOkPrefix(slots, bootStart, peek, i);
    EndAligned(slots[i]);
    forall p | first <= p < End(slots[i]) && p % PAGE_SIZE == 0
      ensures FreshIndex(Indices(HandOffPages(slots[..i], bootStart, peek)), NbPages(slots), p)
    {
      NextPage(p, End(slots[i]));
      FreshFromEarlier(slots, bootStart, peek, i, first, p);
    }
  }

  /** The pages of a segment marked so far all lie below the next one. */
  lemma FreshInRange(first: nat, start: nat)
    requires first % PAGE_SIZE == 0 && start % PAGE_SIZE == 0
    ensures start / PAGE_SIZE !in Indices(PageRange(first, start))
  {
    var mine := PageRange(first, start);
    PageRangeExact(first, start);
    IndicesAt(mine);
    forall k | 0 <= k < |mine|
      ensures mine[k] / PAGE_SIZE != start / PAGE_SIZE
    {
      IndexOrder(mine[k], start);
    }
  }

  /** The page ranges of a segment grow one page at a time. */
  lemma PageRangeGrows(first: nat, start: nat)
    requires first <= start
    ensures PageRange(first, start + PAGE_SIZE) == PageRange(first, start) + [start]
  {
  }

  /** Indices of a concatenation. */
  lemma IndicesAppend(a: seq<nat>, b: seq<nat>)
    ensures Indices(a + b) == Indices(a) + Indices(b)
  {
    IndicesAt(a);
    IndicesAt(b);
    IndicesAt(a + b);
  }

  /** The pages handed over grow one segment at a time. */
  lemma HandOffPagesStep(slots: seq<Segment>, bootStart: nat, peek: nat, i: nat)
    requires SlotsOk(slots, bootStart, peek) && i < |slots|
    ensures SlotsOk(slots[..i], bootStart, peek) && SlotsOk(slots[..i + 1], bootStart, peek)
    ensures HandOffPages(slots[..i + 1], bootStart, peek) ==
      HandOffPages(slots[..i], bootStart, peek) + SlotPages(slots[i], bootStart, peek)
  {
    SlotsOkPrefix(slots, bootStart, peek, i);
    SlotsOkPrefix(slots, bootStart, peek, i + 1);
    assert slots[..i + 1][..i] == slots[..i];
  }

  /**
   * The loop of `entry_point_follow` that marks the free pages: for each
   * segment, the boot allocator's segment cut at its next free byte, the
   * whole pages are marked unused in order. The tracker ends up holding
   * exactly the pages handed over.
   */
  method HandOffSegments(slots: seq<Segment>, bootStart: nat, peek: nat, tracker: MemoryTracker)
    requires SlotsOk(slots, bootStart, peek) && slots != []
    requires tracker.Valid() && tracker.FreeList() == [] && tracker.pageCount == NbPages(slots)
    modifies tracker, tracker.freePages
    ensures tracker.Valid()
    ensures tracker.FreeList() == Indices(HandOffPages(slots, bootStart, peek))
  {
    for i := 0 to |slots|
      invariant SlotsOk(slots[..i], bootStart, peek)
      invariant tracker.Valid()
      invariant tracker.FreeList() == Indices(HandOffPages(slots[..i], bootStart, peek))
    {
      HandOffPagesStep(slots, bootStart, peek, i);
      MarkSegment(slots, bootStart, peek, i, tracker);
      IndicesAppend(HandOffPages(slots[..i], bootStart, peek), SlotPages(slots[i], bootStart, peek));
    }
    assert slots[..|slots|] == slots;
  }

  /** The pages of one segment, from its first page boundary up to its end, marked unused in order. */
  method MarkSegment(slots: seq<Segment>, bootStart: nat, peek: nat, i: nat, tracker: MemoryTracker)
    requires SlotsOk(slots, bootStart, peek) && i < |slots|
    requires SlotsOk(slots[..i], bootStart, peek)
    requires tracker.Valid() && tracker.pageCount == NbPages(slots)
    requires tracker.FreeList() == Indices(HandOffPages(slots[..i], bootStart, peek))
    modifies tracker, tracker.freePages
    ensures tracker.Valid()
    ensures tracker.FreeList() == old(tracker.FreeList()) + Indices(SlotPages(slots[i], bootStart, peek))
  {
    var segment := slots[i];
    if segment.base == bootStart && segment.length > 0 {
      var diff := peek - segment.base;
      segment := Segment(segment.base + diff, segment.length - diff);
    }
    assert segment == Trim(slots[i], bootStart, peek);
    EndAligned(slots[i]);
    var start, end := PageBounds(segment);
    AlignedAbove(segment.base, end, start);
    ghost var before := tracker.FreeList();
    SegmentFresh(slots, bootStart, peek, i, start);
    assert Indices(PageRange(start, start)) == [];
    assert tracker.FreeList() == before + Indices(PageRange(start, start));
    MarkRange(before, start, end, tracker);
  }

  /** The tracker is valid and holds the pages of the earlier segments, then this segment's pages from `first` up to `start`. */
  ghost predicate MarkedUpTo(tracker: MemoryTracker, before: seq<nat>, first: nat, start: nat)
    reads tracker, tracker.freePages
  {
    tracker.Valid() && tracker.FreeList() == before + Indices(PageRange(first, start))
  }

  /** The marking loop: every page boundary from `first` up to `end`, in order. */
  method MarkRange(ghost before: seq<nat>, first: nat, end: nat, tracker: MemoryTracker)
    requires first <= end && first % PAGE_SIZE == 0 && end % PAGE_SIZE == 0
    requires forall p :: first <= p < end && p % PAGE_SIZE == 0 ==> FreshIndex(before, tracker.pageCount, p)
    requires MarkedUpTo(tracker, before, first, first)
    modifies tracker, tracker.freePages
    ensures MarkedUpTo(tracker, before, first, end)
  {
    var start := first;
    while start != end
      invariant first <= start <= end && start % PAGE_SIZE == 0
      invariant MarkedUpTo(tracker, before, first, start)
      decreases end - start
    {
      NextPage(start, end);
      MarkPage(before, first, start, tracker);
      start := start + PAGE_SIZE;
    }
  }

  /** One iteration of the marking loop: the page is fresh, so it can be marked, and the marked range grows by it. */
  method MarkPage(ghost before: seq<nat>, ghost first: nat, start: nat, tracker: MemoryTracker)
    requires first <= start && first % PAGE_SIZE == 0 && start % PAGE_SIZE == 0
    requires FreshIndex(before, tracker.pageCount, start)
    requires MarkedUpTo(tracker, before, first, start)
    modifies tracker, tracker.freePages
    ensures MarkedUpTo(tracker, before, first, start + PAGE_SIZE)
  {
    FreshInRange(first, start);
    ghost var marked := Indices(PageRange(first, start));
    tracker.MarkAsUnused(start);
    assert tracker.FreeList() == before + (marked + [start / PAGE_SIZE]);
    PageRangeGrows(first, start);
    IndicesAppend(PageRange(first, start), [start]);
    assert Indices(PageRange(first, start + PAGE_SIZE)) == marked + [start / PAGE_SIZE];
  }

  /** `align_page_up` of the base and `align_page_down` of the end of a segment whose end is a page boundary. */
  method PageBounds(segment: Segment) returns (start: nat, end: nat)
    requires End(segment) + 0xfff < U64_LIMIT && End(segment) % PAGE_SIZE == 0
    ensures start == PageUp(segment.base) && end == End(segment)
  {
    var e := End(segment);
    assert e % 4096 == 0;
    AlignPageUpIs(segment.base);
    AlignDownUp(e);
    start := AlignPageUp(segment.base);
    end := AlignPageDown(e);
  }

  /** Below another page boundary, the next page boundary is at most that one. */
  lemma NextPage(start: nat, end: nat)
    requires start % PAGE_SIZE == 0 && end % PAGE_SIZE == 0 && start < end
    ensures (start + PAGE_SIZE) % PAGE_SIZE == 0 && start + PAGE_SIZE <= end
  {
    IndexOrder(start, end);
    assert start == (start / PAGE_SIZE) * PAGE_SIZE;
    assert end == (end / PAGE_SIZE) * PAGE_SIZE;
    assert start + PAGE_SIZE == (start / PAGE_SIZE + 1) * PAGE_SIZE;
  }

  /** A segment whose base and length are whole pages ends on a page boundary. */
  lemma EndAligned(s: Segment)
    requires s.base % PAGE_SIZE == 0 && s.length % PAGE_SIZE == 0
    ensures End(s) % PAGE_SIZE == 0
  {
    assert s.base == (s.base / PAGE_SIZE) * PAGE_SIZE;
    assert s.length == (s.length / PAGE_SIZE) * PAGE_SIZE;
    assert End(s) == (s.base / PAGE_SIZE + s.length / PAGE_SIZE) * PAGE_SIZE;
  }
}
