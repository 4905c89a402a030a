/**
 * The physical page allocator used after boot
 * (`src/arch/x86_64/mem/memory_tracker.rs`): a stack of free page indices
 * in a buffer of `page_count` words taken from the boot allocator.
 */
module Tracker {
  import opened Bits
  import opened Prelude
  import opened Mem
  import opened BootAlloc

  /** All elements are below `n` and no two are equal. */
  ghost predicate DistinctBelow(s: seq<nat>, n: nat)
  {
    && (forall i :: 0 <= i < |s| ==> s[i] < n)
    && (forall i, j :: 0 <= i < j < |s| ==> s[i] != s[j])
  }

  /** Pigeonhole: at most `n` distinct values lie below `n`. */
  lemma {:induction false} DistinctBelowLength(s: seq<nat>, n: nat)
    requires DistinctBelow(s, n)
    ensures |s| <= n
    decreases n
  {
    if |s| > 0 {
      assert s[0] < n;
      if i :| 0 <= i < |s| && s[i] == n - 1 {
        var t := s[..i] + s[i + 1..];
        assert forall k :: 0 <= k < |t| ==> t[k] == (if k < i then s[k] else s[k + 1]);
        DistinctBelowLength(t, n - 1);
      } else {
        DistinctBelowLength(s, n - 1);
      }
    }
  }

  class MemoryTracker {
    /** The number of pages the tracker can manage. */
    const pageCount: nat
    /** Where the buffer of free page indices lives (in the direct map). */
    var freePagesAddress: nat
    /** The buffer of free page indices; the first `freePagesLen` are in use. */
    const freePages: array<nat>
    /** How many indices of `freePages` are free pages. */
    var freePagesLen: nat

    /**
     * The buffer holds `pageCount` words and its used prefix lists distinct
     * page indices below `pageCount`.
     */
    ghost predicate Valid()
      reads this, freePages
    {
      && freePages.Length == pageCount
      && freePagesLen <= pageCount
      && DistinctBelow(freePages[..freePagesLen], pageCount)
    }

    /** The free page indices, the last one on top. */
    ghost function FreeList(): seq<nat>
      reads this, freePages
      requires Valid()
    {
      freePages[..freePagesLen]
    }

    constructor Empty(pageCount: nat, address: nat)
      ensures Valid() && fresh(freePages)
      ensures this.pageCount == pageCount && freePagesAddress == address && FreeList() == []
    {
      this.pageCount := pageCount;
      freePagesAddress := address;
      freePages := new nat[pageCount](_ => 0);
      freePagesLen := 0;
    }

    /**
     * `MemoryTracker::new`: reserves `page_count` words (8-byte aligned) from
     * the boot allocator for the free list and starts with no free page.
     */
    static method New(pageCount: nat, boot: BootAllocator) returns (r: Result<MemoryTracker, OutOfMemory>)
      requires boot.Valid() && boot.start + 7 < U64_LIMIT
      modifies boot
      ensures boot.Valid() && boot.stop == old(boot.stop)
      ensures r.Err? <==> AlignUp(old(boot.start), 8) + pageCount * 8 > old(boot.stop)
      ensures r.Err? ==> boot.start == old(boot.start)
      ensures r.Ok? ==> r.value.Valid() && fresh(r.value) && fresh(r.value.freePages)
      ensures r.Ok? ==> r.value.pageCount == pageCount && r.value.FreeList() == []
      ensures r.Ok? ==> r.value.freePagesAddress == AlignUp(old(boot.start), 8) + HHDM_OFFSET
      ensures r.Ok? ==> boot.start == AlignUp(old(boot.start), 8) + pageCount * 8
    {
      assert IsPowerOfTwo(8) by {
        assert IsPowerOfTwo(1);
        assert IsPowerOfTwo(2);
        assert IsPowerOfTwo(4);
      }
      var block := boot.Allocate(pageCount * 8, 8);
      if block.Err? {
        return Err(OutOfMemory);
      }
      var t := new MemoryTracker.Empty(pageCount, block.value + HHDM_OFFSET);
      return Ok(t);
    }

    /**
     * `mark_as_unused`: pushes the index of `page` on the free list. The
     * caller guarantees the page is aligned, managed by the tracker and not
     * already free; these guarantees are what keep the push within the buffer.
     */
    method MarkAsUnused(page: nat)
      requires Valid()
      requires page % PAGE_SIZE == 0 && page / PAGE_SIZE < pageCount
      requires page / PAGE_SIZE !in FreeList()
      modifies this, freePages
      ensures Valid()
      ensures FreeList() == old(FreeList()) + [page / PAGE_SIZE]
      ensures freePagesAddress == old(freePagesAddress)
    {
      var s := freePages[..freePagesLen] + [page / PAGE_SIZE];
      assert DistinctBelow(s, pageCount);
      DistinctBelowLength(s, pageCount);
      freePages[freePagesLen] := page / PAGE_SIZE;
      freePagesLen := freePagesLen + 1;
      assert freePages[..freePagesLen] == s;
    }

    /**
     * `allocate`: pops the most recently freed page and returns its
     * physical address, or `OutOfMemory` when no page is free.
     */
    method Allocate() returns (r: Result<nat, OutOfMemory>)
      requires Valid()
      modifies this
      ensures Valid()
      ensures old(FreeList()) == [] ==> r == Err(OutOfMemory) && FreeList() == []
      ensures old(FreeList()) != [] ==>
        && FreeList() == old(FreeList())[..|old(FreeList())| - 1]
        && r == Ok(old(FreeList())[|old(FreeList())| - 1] * PAGE_SIZE)
      ensures r.Ok? ==> r.value % PAGE_SIZE == 0 && r.value / PAGE_SIZE < pageCount
      ensures r.Ok? ==> r.value / PAGE_SIZE !in FreeList()
      ensures freePagesAddress == old(freePagesAddress)
    {
      if freePagesLen == 0 {
        return Err(OutOfMemory);
      }
      freePagesLen := freePagesLen - 1;
      var ret := freePages[freePagesLen] * PAGE_SIZE;
      assert freePages[..freePagesLen] == old(FreeList())[..|old(FreeList())| - 1];
      return Ok(ret);
    }
  }

  /** Freeing a page and allocating again hands back that same page and leaves the free list as it was. */
  method FreeThenAllocate(t: MemoryTracker, page: nat) returns (r: Result<nat, OutOfMemory>)
    requires t.Valid()
    requires page % PAGE_SIZE == 0 && page / PAGE_SIZE < t.pageCount
    requires page / PAGE_SIZE !in t.FreeList()
    modifies t, t.freePages
    ensures t.Valid() && r == Ok(page) && t.FreeList() == old(t.FreeList())
  {
    t.MarkAsUnused(page);
    r := t.Allocate();
  }
}
