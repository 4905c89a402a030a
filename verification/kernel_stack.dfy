/** The kernel stack (`src/arch/x86_64/kernel_stack.rs`). */
module KernelStack {
  import opened Bits
  import opened Prelude
  import opened Mem
  import opened BootAlloc

  /** The size of the kernel stack: 16 pages. */
  const KERNEL_STACK_SIZE: nat := PAGE_SIZE * 16

  /** The kernel's global `KERNEL_STACK_TOP`, zero until `Init` runs. */
  class KernelStackTop {
    var top: nat

    constructor ()
      ensures top == 0
    {
      top := 0;
    }

    /**
     * `init`: takes `KERNEL_STACK_SIZE` bytes from the boot allocator and
     * records (and returns) the end of that block as the stack top.
     */
    method Init(boot: BootAllocator) returns (r: Result<nat, OutOfMemory>)
      requires boot.Valid() && boot.start < U64_LIMIT
      modifies this, boot
      ensures boot.Valid() && boot.stop == old(boot.stop)
      ensures old(boot.RemainingLength()) >= KERNEL_STACK_SIZE ==>
        r == Ok(old(boot.start) + KERNEL_STACK_SIZE) && top == r.value && boot.start == r.value
      ensures old(boot.RemainingLength()) < KERNEL_STACK_SIZE ==>
        r == Err(OutOfMemory) && top == old(top) && boot.start == old(boot.start)
    {
      var base := boot.Allocate(KERNEL_STACK_SIZE, 1);
      if base.Err? {
        return Err(OutOfMemory);
      }
      var t := base.value + KERNEL_STACK_SIZE;
      top := t;
      return Ok(t);
    }
  }
}
