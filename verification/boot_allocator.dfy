/**
 * The boot-time bump allocator (`src/arch/x86_64/mem/boot_allocator.rs`):
 * it hands out the block `[start, stop)` front to back and never takes
 * anything back.
 */
module BootAlloc {
  import opened Bits
  import opened Prelude
  import opened Mem

  /** `n` is a power of two (`usize::is_power_of_two`). */
  predicate IsPowerOfTwo(n: nat)
  {
    n == 1 || (n > 1 && n % 2 == 0 && IsPowerOfTwo(n / 2))
  }

  /** The exponent of a power of two. */
  function Log2(n: nat): (j: nat)
    requires IsPowerOfTwo(n)
    ensures Pow2(j) == n
  {
    if n == 1 then 0 else Log2(n / 2) + 1
  }

  /**
   * `(start + (align - 1)) & !(align - 1)`: the first multiple of `align`
   * at or above `start`.
   */
  function AlignUp(start: nat, align: nat): (r: nat)
    requires IsPowerOfTwo(align) && start + align - 1 < U64_LIMIT
    ensures r % align == 0 && start <= r < start + align
  {
    var j := Log2(align);
    RoundDownMask(start + (align - 1), j);
    RoundUpBounds(start, align);
    And(start + (align - 1), Not64(align - 1))
  }

  /** Rounding `start + align - 1` down to a multiple of `align` lands in `[start, start + align)`. */
  lemma RoundUpBounds(start: nat, align: nat)
    requires align > 0
    ensures var x := start + (align - 1); start <= x - x % align < start + align
  {
  }

  class BootAllocator {
    /** The first address still available. */
    var start: nat
    /** The first address that is not available. */
    var stop: nat

    /** Where the block began. */
    ghost const base: nat
    /** Every block handed out so far, as (address, size), in order. */
    ghost var allocations: seq<(nat, nat)>

    /**
     * The blocks handed out lie in order, without overlap, between `base`
     * and `start`, and `start` never passes `stop`.
     */
    ghost predicate Valid()
      reads this
    {
      && base <= start <= stop
      && (forall i :: 0 <= i < |allocations| ==> base <= allocations[i].0 && allocations[i].0 + allocations[i].1 <= start)
      && (forall i, j :: 0 <= i < j < |allocations| ==> allocations[i].0 + allocations[i].1 <= allocations[j].0)
    }

    /** `BootAllocator::new`: the whole of `[base, base + length)` is available; nothing is aligned. */
    constructor (base: nat, length: nat)
      ensures Valid()
      ensures start == base && stop == base + length
      ensures this.base == base && allocations == []
    {
      start := base;
      stop := base + length;
      this.base := base;
      allocations := [];
    }

    /** `remaining_length`: the number of bytes still available. */
    function RemainingLength(): (n: nat)
      reads this
      requires Valid()
      ensures start + n == stop
    {
      stop - start
    }

    /**
     * `peek`: the address the next allocation starts from (before
     * alignment). Every block handed out so far ends at or before it, and
     * what lies from it to `stop` is still available.
     */
    function Peek(): (p: nat)
      reads this
      ensures Valid() ==> base <= p <= stop && p + RemainingLength() == stop
      ensures Valid() ==> forall i :: 0 <= i < |allocations| ==> allocations[i].0 + allocations[i].1 <= p
    {
      start
    }

    /**
     * `allocate`: the first `align`-aligned block of `size` bytes at or after
     * `start`, or `OutOfMemory` (and no change) when it would pass `stop`.
     */
    method Allocate(size: nat, align: nat) returns (r: Result<nat, OutOfMemory>)
      requires Valid()
      requires IsPowerOfTwo(align) && start + align - 1 < U64_LIMIT
      modifies this
      ensures Valid() && stop == old(stop)
      ensures r.Ok? ==> r.value % align == 0 && old(start) <= r.value && r.value + size <= stop
      ensures r.Ok? ==> start == r.value + size && allocations == old(allocations) + [(r.value, size)]
      ensures r.Err? ==> start == old(start) && allocations == old(allocations)
      ensures r.Err? <==> AlignUp(old(start), align) + size > old(stop)
      ensures r.Ok? ==> r.value == AlignUp(old(start), align)
    {
      var ret := AlignUp(start, align);
      if ret + size - start > RemainingLength() {
        return Err(OutOfMemory);
      }
      start := ret + size;
      allocations := allocations + [(ret, size)];
      return Ok(ret);
    }
  }

  /**
   * When `peek` is already aligned, the next allocation with that
   * alignment, if it succeeds, starts exactly at `peek`: the "next page
   * that will be allocated" of its documentation.
   */
  lemma PeekIsNextBlock(b: BootAllocator, align: nat)
    requires b.Valid() && IsPowerOfTwo(align) && b.start + align - 1 < U64_LIMIT
    requires b.Peek() % align == 0
    ensures AlignUp(b.Peek(), align) == b.Peek()
  {
    AlignedWithin(b.Peek(), AlignUp(b.Peek(), align), align);
  }

  /** The only multiple of `align` in `[p, p + align)` is `p` itself, when `p` is one. */
  lemma AlignedWithin(p: nat, r: nat, align: nat)
    requires align > 0 && p % align == 0 && r % align == 0 && p <= r < p + align
    ensures r == p
  {
    var k := r / align - p / align;
    assert r - p == align * k;
    assert k == 0;
  }
}
