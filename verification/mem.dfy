/**
 * Constants of the kernel's memory layout and the allocation error
 * (`src/arch/x86_64/mem/mod.rs`).
 */
module Mem {

  /** The largest amount of physical memory the kernel supports: 1 TiB. */
  const MAX_PHYSICAL_MEMORY: nat := 1024 * 1024 * 1024 * 1024

  /** The size of a physical page. */
  const PAGE_SIZE: nat := 4096

  /** The higher-half direct map: virtual address of physical address 0. */
  const HHDM_OFFSET: nat := 0xFFFF_8000_0000_0000

  /** The last address a userland process may use (the lower half). */
  const USER_TOP: nat := 0x0000_7FFF_FFFF_FFFF

  /** The allocator cannot satisfy the request. */
  datatype OutOfMemory = OutOfMemory
}
