# Fabric x86_64 kernel core, modelled in Dafny

Fabric is a small x86_64 exokernel. This project models its deterministic
bookkeeping: the integer and table manipulation around the inline assembly
and raw hardware access. Each Dafny module follows one part of the kernel:

- **`Utility`, `Bits`, `Mem`, `Prelude`**: page alignment, a bit library on
  unbounded naturals (bitwise `and`/`or`/`not` on 64-bit values, written out),
  and the kernel's memory constants (`PAGE_SIZE`, `HHDM_OFFSET`, `USER_TOP`,
  `MAX_PHYSICAL_MEMORY`).
- **`BootAlloc`, `Tracker`, `KernelStack`**: the boot bump allocator and the
  LIFO free-page stack (classes whose methods update their fields), and the
  kernel stack carved from the boot allocator. The source comment on
  `BootAllocator::new` promises an aligned block, but the code applies no
  alignment; the model follows the code.
- **`PageEntry`, `PageTree`, `Paging`, `KernelSpace`**: x86-64 4-level paging
  (section 4.5 of the Intel SDM, Volume 3A). Physical memory is a class whose
  field maps each page-aligned table address to its 512 entries. Ghost level
  and parent maps keep the tables a tree. Every operation is specified against
  a reference definition of the processor's address translation, `Translate`.
  Flag fusion, `directory_entry_mut`, `try_directory_entry_mut`, the three
  `map_*` functions, `unmap_4kib`, `create_direct_map` and
  `create_kernel_address_space` are methods. Their contracts state which
  addresses translate where afterwards and that nothing else changes.
- **`SysResult`, `Abi`, `ReprC`, `PublicData`, `PublicLayout`, `Process`**:
  the system-call result encoding, the call numbers and `MapFlags`, the
  `repr(C)` layout of `Framebuffer`, the public data page with the
  framebuffer ownership word, and the `fabric_init` header.
- **`SystemCall`, `Handlers`**: the dispatch rule, the STAR and EFER values,
  and the four implemented handlers (`map_memory`, `unmap_memory`,
  `acquire_framebuffer`, `release_framebuffer`) over the page tables and the
  memory tracker.
- **`LimineReq`, `LimineBoot`, `Segments`, `HandOff`**: the boot path. It
  reads the bootloader's answers, coalesces and aligns the memory map into at
  most 16 segments, picks the boot allocator's block, sizes the direct map,
  hands every free page to the tracker, validates `fabric_init` and converts
  the framebuffers.
- **`Gdt`, `Idt`**: the GDT selectors, the TSS descriptor and TSS stacks
  (section 7.2.3 of the Intel SDM, Volume 3A), and the IDT gate descriptors
  and vector assignment (section 6.14.1).
- **`Fmt`**: `write_dec` and the human-readable byte count.

Where the code does not do what it evidently means to, the model keeps two
definitions. One follows the code as written; a lemma exhibits the input on
which it goes wrong. The other is the corrected definition, which the rest
of the model uses. Both are listed under "Findings".

## Model

| member | source | states |
|---|---|---|
| Utility.AlignPageUp | src/utility/mod.rs:11-16 | the result is a multiple of 4096, at least `x` and less than `x + 4096`, when `x + 0xfff` fits in 64 bits |
| Utility.AlignPageDown | src/utility/mod.rs:20-25 | the result is a multiple of 4096, at most `x` and more than `x - 4096` |
| Utility.RoundDownPage | src/utility/mod.rs:23 | masking with `!0xfff` subtracts exactly the remainder by 4096 |
| Utility.AlignDownUp | src/utility/mod.rs:11-25 | rounding down never exceeds rounding up; they agree exactly when `x` is page aligned, and then both are the identity |
| Utility.AlignIdempotent | src/utility/mod.rs:11-25 | rounding up twice or down twice gives the same result as once |
| BootAlloc.AlignUp | src/arch/x86_64/mem/boot_allocator.rs:64-65 | `(start + align - 1) & !(align - 1)` is the least multiple of `align` at or above `start` |
| BootAlloc.BootAllocator.constructor | src/arch/x86_64/mem/boot_allocator.rs:29-34 | `start = base` and `stop = base + length`, with no alignment applied (the doc comment at lines 26-28 says otherwise) |
| BootAlloc.BootAllocator.RemainingLength | src/arch/x86_64/mem/boot_allocator.rs:38-40 | the remaining length is `stop - start` |
| BootAlloc.BootAllocator.Peek | src/arch/x86_64/mem/boot_allocator.rs:44-46 | the next allocation starts from `peek`: every block handed out so far ends at or before it, and it plus the remaining length is `stop` |
| BootAlloc.PeekIsNextBlock | src/arch/x86_64/mem/boot_allocator.rs:42-46 | an aligned `peek` is where the next allocation with that alignment starts, the "next page that will be allocated" |
| BootAlloc.BootAllocator.Allocate | src/arch/x86_64/mem/boot_allocator.rs:61-74 | fails with `OutOfMemory` exactly when the rounded-up start plus `size` passes `stop`, changing nothing; otherwise returns the rounded-up start, which is aligned and at or above the old start, and moves `start` past the block; `stop` never moves, and the blocks handed out stay ordered, disjoint and inside `[base, stop)` |
| Tracker.MemoryTracker.Empty | src/arch/x86_64/mem/memory_tracker.rs:49-53 | a tracker of `page_count` pages with an empty free list |
| Tracker.MemoryTracker.New | src/arch/x86_64/mem/memory_tracker.rs:41-54 | reserves `page_count` 8-byte words, 8-byte aligned, from the boot allocator and returns an empty tracker whose buffer is that block in the direct map; the allocator's `OutOfMemory` is passed on and then nothing changes |
| Tracker.MemoryTracker.MarkAsUnused | src/arch/x86_64/mem/memory_tracker.rs:71-89 | for an aligned page the tracker manages and that is not yet free, pushes `page / 4096` on the free list; no index is on the list twice, so the list never outgrows `page_count`; the buffer address stays |
| Tracker.MemoryTracker.Allocate | src/arch/x86_64/mem/memory_tracker.rs:93-101 | on an empty list returns `OutOfMemory` and changes nothing; otherwise pops the index pushed last and returns it times 4096, a page the tracker manages that is no longer free; the buffer address stays |
| Tracker.DistinctBelowLength | src/arch/x86_64/mem/memory_tracker.rs:64-88 | a list of distinct indices below `page_count` has at most `page_count` entries |
| Tracker.FreeThenAllocate | src/arch/x86_64/mem/memory_tracker.rs:82-100 | `mark_as_unused(p)` followed by `allocate()` returns `p` and leaves the free list as it was |
| KernelStack.KernelStackTop.constructor | src/arch/x86_64/kernel_stack.rs:7 | `KERNEL_STACK_TOP` starts at 0 |
| KernelStack.KernelStackTop.Init | src/arch/x86_64/kernel_stack.rs:14-23 | with at least 64 KiB left, returns base + 64 KiB, stores it in `KERNEL_STACK_TOP` and leaves the allocator's `peek()` there; otherwise returns `OutOfMemory` and writes nothing |
| SysResult.IsSuccess | lib/src/sys_result.rs:39-47 | every word is exactly one of a success and an error |
| SysResult.Success | lib/src/sys_result.rs:29-35 | a value below `FIRST_ERROR` is a success carrying that value |
| SysResult.Expect | lib/src/sys_result.rs:55-61 | a success yields its raw value; an error panics with the given message |
| SysResult.Unwrap | lib/src/sys_result.rs:69-71 | a success yields its raw value; an error panics with the `unwrap` message |
| SysResult.UnwrapSuccess | lib/src/sys_result.rs:29-71 | unwrapping `success(v)` gives back `v` |
| SysResult.Code | lib/src/sys_result.rs:109-120 | the error offsets are 0 to 3 |
| SysResult.ErrorValue | lib/src/sys_result.rs:84 | each error constant is `FIRST_ERROR` plus its offset, and is an error |
| SysResult.ErrorOf | lib/src/sys_result.rs:84-120 | a word decoded as an error code is that code's constant |
| SysResult.ErrorRoundTrip | lib/src/sys_result.rs:84-120 | decoding an error constant gives back its code |
| SysResult.ErrorValuesDistinct | lib/src/sys_result.rs:109-120 | the four error constants are pairwise distinct |
| SysResult.DebugAsWritten | lib/src/sys_result.rs:88-103 | the `Debug` output as written: compares the raw word against the offsets 0 to 3 |
| SysResult.DebugAsWrittenNeverNames | lib/src/sys_result.rs:94-101 | as written, every error word prints as `<unknown error>` |
| SysResult.Debug | lib/src/sys_result.rs:88-103 | corrected `Debug`: a success prints as a tuple; an error prints `<unknown error>` exactly when it is none of the four constants |
| SysResult.DebugNamesErrors | lib/src/sys_result.rs:95-98 | corrected `Debug` prints each error constant's name |
| Abi.Number | lib/src/arch/x86_64/mod.rs:14-22 | each call number is below 5 |
| Abi.FromNumber | lib/src/arch/x86_64/mod.rs:14-22 | a number names a system call exactly when it is below 5, and then the one with that discriminant |
| Abi.NumberRoundTrip | lib/src/arch/x86_64/mod.rs:14-22 | decoding a call's number gives back the call |
| Abi.FlagBits | lib/src/arch/x86_64/mod.rs:26-38 | `WRITABLE` is bit 0, `EXECUTABLE` is bit 1, and no other bit is set |
| Abi.FromBits | lib/src/arch/x86_64/mod.rs:26-38 | `from_bits` accepts exactly the words below 4, and then the flags encode back to the word |
| Abi.FromBitsRejectsUnknown | lib/src/arch/x86_64/mod.rs:26-38 | `from_bits` fails exactly when some bit from 2 up is set |
| Abi.FlagsRoundTrip | lib/src/arch/x86_64/mod.rs:26-38 | decoding the bits of some flags gives back those flags |
| Abi.EncodeProcessId | lib/src/arch/x86_64/mod.rs:59-96 | `None` is encoded as 0 and only `None` is; the code fits in 64 bits |
| Abi.DecodeProcessId | lib/src/process.rs:34-37 | 0 decodes to `None` and only 0 does |
| Abi.ProcessIdRoundTrip | lib/src/arch/x86_64/mod.rs:96 | decoding an encoded process id gives it back |
| Process.FromLeBytes | lib/src/process.rs:21 | reading bytes in little-endian order gives a number below `2^(8n)` |
| Process.BytesRoundTrip | lib/src/process.rs:21 | writing a number below `2^(8n)` as `n` little-endian bytes and reading them back gives the number |
| Process.WordRoundTrip | lib/src/process.rs:21 | reading bytes as a number and writing it back gives the bytes |
| Process.Reverse | lib/src/process.rs:21 | byte `i` of the reversal is byte `n - 1 - i` of the input |
| Process.SwapBytes | lib/src/process.rs:21 | `swap_bytes` of a word is a word |
| Process.MagicNotSymmetric | lib/src/process.rs:20-21 | `MAGIC` is the bytes `<limine>` read as a little-endian word, and swapping its bytes changes it |
| Process.NewInitHeader | lib/src/process.rs:25-31 | the new header carries `MAGIC`, the given image start and the given entry point |
| PublicData.ColorModeByte | lib/src/arch/x86_64/public/framebuffer.rs:4-18 | a color mode is stored as one byte |
| PublicData.ColorModeOf | lib/src/arch/x86_64/public/framebuffer.rs:4-18 | a byte names a color mode exactly when it is 0 or 1, and then the mode with that discriminant |
| PublicData.ColorModeRoundTrip | lib/src/arch/x86_64/public/framebuffer.rs:4-18 | decoding a mode's byte gives back the mode |
| PublicData.BytesPerPixel | lib/src/arch/x86_64/public/framebuffer.rs:7-16 | `Rgb24` uses 3 bytes per pixel and `Rgb32` 4 |
| PublicData.RowsInBuffer | lib/src/arch/x86_64/public/framebuffer.rs:46-49 | every row of the framebuffer lies inside `pitch * height` bytes |
| PublicData.Owner | lib/src/arch/x86_64/public/framebuffer.rs:37-41 | `owned_by` 0 means free; any other value is the owning process id |
| PublicData.WithOwnerUnchanged | src/arch/x86_64/syscall/handlers.rs:181-187 | setting a framebuffer's owner to its current owner changes nothing |
| PublicData.WithOwnerTwice | src/arch/x86_64/syscall/handlers.rs:181-249 | the second owner update wins; restoring the first owner gives back the original list |
| PublicData.FramebufferOffsets | lib/src/arch/x86_64/public/framebuffer.rs:21-42 | the `repr(C)` field offsets of `Framebuffer` are 0, 8, 16, 24, 32, 33 and 40 |
| PublicData.FramebufferEnd | lib/src/arch/x86_64/public/framebuffer.rs:21-42 | the last field of `Framebuffer` ends at byte 48, and its strictest alignment is 8 |
| PublicData.FramebufferLayout | lib/src/arch/x86_64/public/framebuffer.rs:21-42 | `Framebuffer` is a well-formed `repr(C)` struct of 48 bytes with the offsets above |
| PublicData.PublicDataLayout | lib/src/arch/x86_64/public/mod.rs:12-18 | `PublicData` has its fields at offsets 0 and 8 and is 16 bytes |
| PublicData.PublicState.constructor | lib/src/arch/x86_64/public/mod.rs:12-18 | the public area holds the given framebuffer list |
| PublicData.PublicState.CompareExchangeOwner | src/arch/x86_64/syscall/handlers.rs:181-246 | sequential compare-and-set of `owned_by`: succeeds exactly when the owner equals `current`, and then only that framebuffer's owner becomes `replacement` |
| PublicLayout.PartsDisjoint | src/arch/x86_64/public.rs:26-40 | `root` is 0, the `PublicData` record ends at or before `framebuffers`, and framebuffer `i` is 8-byte aligned and ends within `size` |
| PublicLayout.EmptyLayout | src/arch/x86_64/public.rs:26-40 | with no framebuffers the area is just the 16-byte `PublicData` |
| PublicLayout.SizeGrows | src/arch/x86_64/public.rs:33-39 | the size grows strictly with the framebuffer count, by 48 bytes per framebuffer |
| ReprC.RoundUpIsNextMultiple | lib/src/arch/x86_64/public/framebuffer.rs:21-22 | rounding up to an alignment gives the least multiple at or above the value |
| ReprC.OffsetsOrdered | lib/src/arch/x86_64/public/framebuffer.rs:21-22 | `repr(C)` places each field at an aligned offset, after the previous field and before the end |
| ReprC.MaxAlignBounds | lib/src/arch/x86_64/public/framebuffer.rs:21-22 | a struct's alignment is at least 1 and at least every field's |
| ReprC.SizeOfBounds | lib/src/arch/x86_64/public/framebuffer.rs:21-22 | a struct's size is a multiple of its alignment and covers every field |
| SystemCall.TableMatchesNumbers | src/arch/x86_64/syscall/mod.rs:20-141 | the table has 5 slots and slot `n` holds the handler of the call whose discriminant is `n` |
| SystemCall.Arguments | src/arch/x86_64/syscall/mod.rs:41-94 | a handler receives six arguments, taken from `rdi`, `rsi`, `rdx`, `r10`, `r8` and `r9` |
| SystemCall.Dispatch | src/arch/x86_64/syscall/mod.rs:83-105 | a number of 5 or more returns `INVALID_VALUE`, an error, without calling a handler; a smaller number calls the handler with that number on the six arguments |
| SystemCall.DispatchMatchesAbi | src/arch/x86_64/syscall/mod.rs:83-105 | the kernel rejects exactly the numbers that name no `Syscall`, and otherwise calls the one they name |
| SystemCall.DispatchIgnoresArguments | src/arch/x86_64/syscall/mod.rs:83-84 | whether and which handler is called depends on `rax` alone |
| SystemCall.ReturnValue | src/arch/x86_64/syscall/mod.rs:83-105 | the value left in `rax` is `INVALID_VALUE` for an unknown number and otherwise the handler's result, unchanged |
| SystemCall.SavedStackSlot | src/arch/x86_64/syscall/mod.rs:86-112 | the user stack pointer is saved in the last word below the kernel stack top, in the direct map, inside the kernel stack |
| SystemCall.SelectorBasesConsistent | src/arch/x86_64/syscall/mod.rs:167-181 | user selectors have RPL 3 and sit at the `sysret` base plus 16 and 8; kernel selectors have RPL 0 and sit at the `syscall` base and base plus 8 |
| SystemCall.BasesWidened | src/arch/x86_64/syscall/mod.rs:186 | widening the two 16-bit bases to 64 bits keeps their values |
| SystemCall.StarSelectsSegments | src/arch/x86_64/syscall/mod.rs:183-188 | the STAR value makes `syscall` load the kernel code and data selectors and `sysret` the user code and data selectors (section 5.8.8 of Intel SDM Vol. 3A); its low 32 bits are 0 |
| SystemCall.EnableSyscall | src/arch/x86_64/syscall/mod.rs:148-152 | EFER gets bit 0 (`SYSCALL_ENABLE`) set and every other bit kept |
| SystemCall.EnableSyscallIdempotent | src/arch/x86_64/syscall/mod.rs:148-152 | setting the bit twice is setting it once, and a set bit is left alone |
| Fmt.DigitChar | src/utility/fmt.rs:14-16 | a digit prints as the character `'0' + d` |
| Fmt.DigitValue | src/utility/fmt.rs:14-16 | reading a digit character back gives the digit |
| Fmt.Decimal | src/utility/fmt.rs:14-25 | `{}` on an integer prints at least one digit and no leading zero |
| Fmt.DecimalRoundTrip | src/utility/fmt.rs:14-25 | reading the printed digits back gives the number |
| Fmt.DecimalInjective | src/utility/fmt.rs:14-25 | different numbers print differently |
| Fmt.UnitSize | src/utility/fmt.rs:24-47 | every unit is at least one byte |
| Fmt.Granule | src/utility/fmt.rs:32-44 | the divisor of the value passed to `write_dec` for a unit is that unit's size over 1024 |
| Fmt.ScaleChoosesUnit | src/utility/fmt.rs:22-47 | counts below 1024 print in bytes; otherwise the unit is the largest one not above the count, capped at TiB, and `write_dec` gets the count divided by 1024 once per step up |
| Fmt.Hundredths | src/utility/fmt.rs:12 | `((n % 1024) * 100) / 1024` is below 100 and is the floor of the fraction in hundredths |
| Fmt.DisplayNeverOverstates | src/utility/fmt.rs:11-47 | the whole units and hundredths shown never exceed the byte count |
| Fmt.WriteDecNeverOverstates | src/utility/fmt.rs:11-18 | `n / 1024` units plus the hundredths never exceed `n / 1024` as a fraction |
| Fmt.DisplayWholeUnits | src/utility/fmt.rs:14-47 | the whole part shown is the count divided by the unit size, at least 1, and below 1024 except in TiB |
| Fmt.UnpaddedHundredthsMisread | src/utility/fmt.rs:12-16 | as written, 1076 bytes print as `1.5 KiB`: the hundredths 5 are printed without padding and read back as 50 |
| Fmt.TwoDigits | src/utility/fmt.rs:16 | a hundredths value prints as exactly two digits that read back as it |
| Fmt.DisplayPaddedReadsBack | src/utility/fmt.rs:11-47 | with zero padding the text is the whole units, then the point and two digits only when the hundredths are not zero, then the unit; the digits read back as the whole units and the hundredths |
| Gdt.Selector | src/arch/x86_64/cpu/gdt.rs:9-13 | a selector is its table index times 8 plus its requested privilege level, and both can be read back (section 3.4.2 of Intel SDM Vol. 3A) |
| Gdt.SelectorsNameSlots | src/arch/x86_64/cpu/gdt.rs:9-13 | kernel code is slot 1, kernel data 2, user data 3 and user code 4 (the user ones with RPL 3), and the TSS is slot 5 |
| Gdt.SelectorsWithinLimit | src/arch/x86_64/cpu/gdt.rs:78-81 | the GDTR limit is `7 * 8 - 1 = 55`; every segment selector names a descriptor inside it, and the 16-byte TSS descriptor ends exactly at it |
| Gdt.SegmentsMatchSelectors | src/arch/x86_64/cpu/gdt.rs:30-76 | the four segment descriptors are present with the 4 GiB page-granular limit; each selector names 64-bit code or writable data whose privilege level is the selector's RPL |
| Gdt.TssLayout | src/arch/x86_64/raw.rs:70-78 | the packed TSS has its fields at offsets 0, 4, 28, 36, 92, 100 and 102 and is 104 bytes, so its limit is `0x67` |
| Gdt.TssDescriptorRoundTrip | src/arch/x86_64/cpu/gdt.rs:118-123 | the TSS descriptor decodes back to the TSS address (bits 0-23 at 16-39 of `GDT[5]`, 24-31 at 56-63, 32-63 in the low half of `GDT[6]`), the limit `0x67`, a present available 64-bit TSS of ring 0, and a zero upper half in `GDT[6]` (section 7.2.3 of Intel SDM Vol. 3A) |
| Gdt.DescriptorTable.constructor | src/arch/x86_64/cpu/gdt.rs:30-76 | the static table: null, kernel code, kernel data, user data, user code, and two zero TSS slots |
| Gdt.DescriptorTable.InstallTss | src/arch/x86_64/cpu/gdt.rs:118-123 | only slots 5 and 6 change, to the two halves of the TSS descriptor |
| Gdt.TaskStateSegment.constructor | src/arch/x86_64/cpu/gdt.rs:84-92 | the TSS stack tables start zeroed |
| Gdt.TaskStateSegment.SetStacks | src/arch/x86_64/cpu/gdt.rs:114-116 | only `IST[0]` and `RSP0` change, to the given values |
| Gdt.Init | src/arch/x86_64/cpu/gdt.rs:102-123 | fails with `OutOfMemory` exactly when less than 16 KiB is left, and then changes nothing; otherwise takes 16 KiB from the boot allocator, sets `IST[0]` to the block's end in the direct map, `RSP0` to the kernel stack top in the direct map, and installs the TSS descriptor |
| Idt.KernelCodeWidened | src/arch/x86_64/cpu/idt.rs:72 | the selector written into every gate is the GDT's kernel code selector, 8 |
| Idt.CreateGateDecodes | src/arch/x86_64/cpu/idt.rs:54-75 | a gate built from `(disable, offset, ist)` with `ist <= 7` reads back the full 64-bit offset, the kernel code selector, the IST slot, type `0xE` when interrupts are disabled and `0xF` otherwise, present with DPL 0, and zero reserved bits (section 6.14.1 of Intel SDM Vol. 3A) |
| Idt.GateOffset | src/arch/x86_64/cpu/idt.rs:60-62 | the offset bits split over both words read back as the handler address |
| Idt.GateSelector | src/arch/x86_64/cpu/idt.rs:72 | bits 16-31 read back as the kernel code selector |
| Idt.GateIst | src/arch/x86_64/cpu/idt.rs:55-64 | bits 32-34 read back as `ist` |
| Idt.GateTypeBits | src/arch/x86_64/cpu/idt.rs:63-70 | the type is the interrupt gate exactly when interrupts are disabled, otherwise the trap gate; present, DPL 0 |
| Idt.GateReserved | src/arch/x86_64/cpu/idt.rs:57-74 | the bits the architecture reserves stay zero |
| Idt.CreateGateInjective | src/arch/x86_64/cpu/idt.rs:54-75 | different arguments (with `ist <= 7`) never give the same gate |
| Idt.DoubleFaultIstWidened | src/arch/x86_64/cpu/idt.rs:108 | the IST field of the double-fault gate is `DOUBLE_FAULT_STACK_INDEX + 1`, since the field counts from 1 |
| Idt.InstalledVectors | src/arch/x86_64/cpu/idt.rs:100-125 | `init` writes exactly the vectors 0-8, 10-14, 16-21, 28-30, `0x64` and `0x65`, all inside the 256-entry table |
| Idt.InstalledGates | src/arch/x86_64/cpu/idt.rs:100-125 | each written gate points at its handler through the kernel code selector, is present with DPL 0, is an interrupt gate exactly for the two APIC vectors and a trap gate otherwise, and switches stack only for the double fault, to its IST slot |
| Idt.InitTable | src/arch/x86_64/cpu/idt.rs:100-125 | the table after `init` still has 256 gates (its contents are stated by `Idt.InitTableInstalls`) |
| Idt.LowExceptionGates | src/arch/x86_64/cpu/idt.rs:100-108 | the table after the first nine writes still has 256 gates |
| Idt.HighExceptionGates | src/arch/x86_64/cpu/idt.rs:109-119 | the table after the next eleven writes still has 256 gates |
| Idt.LateGates | src/arch/x86_64/cpu/idt.rs:120-125 | the table after the last five writes still has 256 gates |
| Idt.LowRunSets | src/arch/x86_64/cpu/idt.rs:100-107 | vectors 0-7 hold trap gates to their handlers |
| Idt.LowRunKeeps | src/arch/x86_64/cpu/idt.rs:100-108 | the first nine writes leave every vector above 8 alone |
| Idt.HighRunSets | src/arch/x86_64/cpu/idt.rs:109-119 | vectors 10-14 and 16-21 hold trap gates to their handlers |
| Idt.HighRunKeeps | src/arch/x86_64/cpu/idt.rs:109-119 | those writes leave every other vector alone |
| Idt.LateRunSets | src/arch/x86_64/cpu/idt.rs:120-125 | vectors 28-30 hold trap gates and the APIC vectors interrupt gates |
| Idt.LateRunKeeps | src/arch/x86_64/cpu/idt.rs:120-125 | those writes leave every other vector alone |
| Idt.RunGates | src/arch/x86_64/cpu/idt.rs:100-125 | the gate each write stores is the one `Installed` names for that vector |
| Idt.RunsAreInstalled | src/arch/x86_64/cpu/idt.rs:100-125 | the three runs of writes cover exactly the installed vectors and do not overlap |
| Idt.InitTableInstalls | src/arch/x86_64/cpu/idt.rs:100-125 | after `init` every installed vector holds its gate and every other vector its old contents |
| Idt.InterruptTable.constructor | src/arch/x86_64/cpu/idt.rs:42 | the static table is 256 zero gates |
| Idt.InterruptTable.Set | src/arch/x86_64/cpu/idt.rs:100 | one assignment `IDT[v] = g` changes only entry `v` |
| Idt.InterruptTable.Init | src/arch/x86_64/cpu/idt.rs:95-126 | the table afterwards is `InitTable` of the old one |
| Idt.InterruptTable.WriteLowExceptions | src/arch/x86_64/cpu/idt.rs:100-108 | the table afterwards is `LowExceptionGates` of the old one |
| Idt.InterruptTable.WriteHighExceptions | src/arch/x86_64/cpu/idt.rs:109-119 | the table afterwards is `HighExceptionGates` of the old one |
| Idt.InterruptTable.WriteLate | src/arch/x86_64/cpu/idt.rs:120-125 | the table afterwards is `LateGates` of the old one |
| LimineReq.HhdmOffset | src/arch/x86_64/boot/limine/req.rs:100-112 | the kernel dies exactly when the direct-map request was not answered; otherwise it returns the bootloader's offset |
| LimineReq.Framebuffers | src/arch/x86_64/boot/limine/req.rs:145-164 | an unanswered framebuffer request means an empty list, not a failure; otherwise the list is the response |
| LimineReq.AnyMisaligned | src/arch/x86_64/boot/limine/req.rs:213-219 | true exactly when some usable, bootloader-reclaimable or ACPI-reclaimable entry has a base or length that is not a multiple of 4096 |
| LimineReq.ReadMemoryMap | src/arch/x86_64/boot/limine/req.rs:185-227 | the kernel dies exactly when the memory-map request was not answered; otherwise the map is returned unchanged, and the kernel warns exactly when `AnyMisaligned` holds |
| LimineReq.LastSlash | src/arch/x86_64/boot/limine/req.rs:282 | `rposition`: the index of a slash with no slash after it, or none when the path has no slash |
| LimineReq.FileNameIsTail | src/arch/x86_64/boot/limine/req.rs:281-289 | the file name is a suffix of the path with no slash in it, and it is the whole path or follows a slash |
| LimineReq.LastSlashIsLast | src/arch/x86_64/boot/limine/req.rs:282 | a slash with no slash after it is the one `rposition` finds |
| LimineReq.FindInit | src/arch/x86_64/boot/limine/req.rs:274-292 | `find`: the first module whose file name is `fabric_init`, or none when no module has that name |
| LimineReq.FabricInit | src/arch/x86_64/boot/limine/req.rs:248-307 | the kernel dies when the module request was not answered or no module is named `fabric_init`; otherwise it returns one of the modules, and that module has that name |
| LimineReq.InitFoundByFileName | src/arch/x86_64/boot/limine/req.rs:281-289 | a path that only has `fabric_init` in a directory part is not taken; `a/fabric_init` after it is |
| LimineReq.KernelPhysicalAddress | src/arch/x86_64/boot/limine/req.rs:320-339 | the kernel dies exactly when the kernel-address request was not answered; otherwise it returns the physical base, warning (and carrying on) exactly when the virtual base is not the linked image start |
| LimineBoot.TryConvert | src/arch/x86_64/boot/limine/mod.rs:566-596 | a framebuffer converts exactly when it is supported (the RGB model at 24 or 32 bits per pixel), and then keeps its size and pitch, gets a colour mode of its depth, the physical address under the direct map, and no owner |
| LimineBoot.SupportedCount | src/arch/x86_64/boot/limine/mod.rs:237-258 | the number of supported framebuffers never exceeds the number reported |
| LimineBoot.Converted | src/arch/x86_64/boot/limine/mod.rs:290-298 | the records written are exactly as many as the supported framebuffers |
| LimineBoot.ConvertedExact | src/arch/x86_64/boot/limine/mod.rs:290-298 | every record written starts unowned, every supported framebuffer's record is among them, and none is dropped exactly when every framebuffer is supported |
| LimineBoot.CountSupported | src/arch/x86_64/boot/limine/mod.rs:237-258 | the counting loop returns the number of supported framebuffers |
| LimineBoot.WriteFramebuffers | src/arch/x86_64/boot/limine/mod.rs:290-298 | the loop that advances `cur` only past converted framebuffers fills the area with exactly the converted records, in order |
| LimineBoot.CountGrows | src/arch/x86_64/boot/limine/mod.rs:239-258 | the count of a prefix plus the next framebuffer's contribution never exceeds the total, so a write never passes the end of the area |
| LimineBoot.RootAsWritten | src/arch/x86_64/boot/limine/mod.rs:280-287 | the root as written advertises as many records as the bootloader reported framebuffers |
| LimineBoot.Root | src/arch/x86_64/boot/limine/mod.rs:280-287 | the corrected root advertises as many records as were written |
| LimineBoot.RootAsWrittenOvercounts | src/arch/x86_64/boot/limine/mod.rs:286 | one unsupported framebuffer makes the root as written advertise a record that lies past the end of the area |
| LimineBoot.RootAdvertisesWritten | src/arch/x86_64/boot/limine/mod.rs:266-298 | with the corrected count, every advertised record lies inside the area after the root and holds an unowned converted framebuffer |
| LimineBoot.ValidateInit | src/arch/x86_64/boot/limine/mod.rs:471-496 | the image is refused as too small exactly when it is shorter than the 24-byte header; it is accepted exactly when the magic matches and the entry point is non-null and within `[image_start, image_start + len)`; a bad magic says whether it is the byte-swapped magic |
| LimineBoot.ReadHeaderBytes | lib/src/process.rs:5-14 | reading the header back from its native-endian bytes gives the header that was laid out |
| LimineBoot.BuiltImageAccepted | src/arch/x86_64/boot/limine/mod.rs:471-496 | an image starting with a header made by `InitHeader::new` whose entry point is inside the image is accepted |
| LimineBoot.OtherEndianRefused | src/arch/x86_64/boot/limine/mod.rs:478-483 | an image whose magic is byte-swapped is refused and reported as built for the other byte order |
| Segments.PickLargest | src/arch/x86_64/boot/limine/mod.rs:137-149 | the pick either stays or becomes the slot the entry opens |
| Segments.Step | src/arch/x86_64/boot/limine/mod.rs:114-171 | one iteration keeps the state shaped: sixteen slots, at most sixteen filled, the pick a slot index |
| Segments.Collect | src/arch/x86_64/boot/limine/mod.rs:112-171 | the whole loop keeps the state shaped (what it computes is stated by `Segments.CollectOk` and `Segments.CollectPlacesAll`) |
| Segments.StepKeeps | src/arch/x86_64/boot/limine/mod.rs:114-171 | each iteration keeps the loop invariant: unfilled slots empty, every placed entry inside a filled slot, the openers placed entries with none counted twice, each filled slot beginning where the entry that opened it begins and at least as long, and the pick a slot opened by a usable entry, at least as long as every usable entry that opened a slot, present exactly when one did |
| Segments.MergeKeeps | src/arch/x86_64/boot/limine/mod.rs:151-160 | merging an adjacent entry into the previous slot keeps the invariant |
| Segments.MergeGrows | src/arch/x86_64/boot/limine/mod.rs:151-160 | a merge lengthens only the last filled slot, by the entry's length, and keeps the count, the openers and the pick; the slots past the filled ones stay empty |
| Segments.MergeCovers | src/arch/x86_64/boot/limine/mod.rs:151-160 | after a merge every placed entry, the new one included, lies inside a filled slot |
| Segments.MergeOpeners | src/arch/x86_64/boot/limine/mod.rs:151-160 | after a merge the openers are still placed entries, and each filled slot still begins with the entry that opened it and is at least as long |
| Segments.PickGrows | src/arch/x86_64/boot/limine/mod.rs:151-160 | slots that only grow keep the pick a slot opened by a usable entry and at least as long as every usable opener |
| Segments.AppendKeeps | src/arch/x86_64/boot/limine/mod.rs:163-170 | starting a new slot keeps the invariant |
| Segments.AppendGrows | src/arch/x86_64/boot/limine/mod.rs:163-170 | a new slot is the entry itself, the entry becomes its opener, the count grows by one, the pick is updated by `PickLargest`, no other slot changes, and the slots past the filled ones stay empty |
| Segments.AppendCovers | src/arch/x86_64/boot/limine/mod.rs:163-170 | after a new slot every placed entry lies inside a filled slot |
| Segments.AppendOpeners | src/arch/x86_64/boot/limine/mod.rs:163-170 | after a new slot the entry is its opener, the openers are still placed entries, and each filled slot begins with the entry that opened it |
| Segments.LargestKept | src/arch/x86_64/boot/limine/mod.rs:137-149 | after an entry opens a new slot, the pick is still a slot opened by a usable entry and at least as long as every usable entry that opened a slot, and present exactly when one did |
| Segments.CollectOk | src/arch/x86_64/boot/limine/mod.rs:112-171 | the loop over any memory map ends with the invariant |
| Segments.ReclaimableEntries | src/arch/x86_64/boot/limine/mod.rs:115-120 | the entries the loop looks at are at most all of them |
| Segments.CollectPlacesAll | src/arch/x86_64/boot/limine/mod.rs:114-133 | unless the loop stopped, it placed exactly the reclaimable entries in order; it stops only with sixteen slots filled |
| Segments.StoppedStays | src/arch/x86_64/boot/limine/mod.rs:122-133 | once the loop has stopped, the later entries change nothing |
| Segments.CollectNext | src/arch/x86_64/boot/limine/mod.rs:114 | one more entry is one more step |
| Segments.CollectSegments | src/arch/x86_64/boot/limine/mod.rs:112-171 | the loop over the fixed array of sixteen slots leaves the slots, count and pick that `Collect` describes, with the pick taken after the merge test |
| Segments.PlaceEntry | src/arch/x86_64/boot/limine/mod.rs:137-170 | one placement in the array matches `Step`: a merged entry leaves the pick alone, and an entry that opens a slot is compared with the picked slot |
| Segments.LargestAsWritten | src/arch/x86_64/boot/limine/mod.rs:137-149 | the pick as written is a slot index no greater than the count |
| Segments.LargestAsWrittenNamesEmptySlot | src/arch/x86_64/boot/limine/mod.rs:142-146 | two adjacent usable entries merge into slot 0, but the pick as written names slot 1, which is empty |
| Segments.Padding | src/arch/x86_64/boot/limine/mod.rs:180-182 | the padding is less than a page and brings the base to a page boundary |
| Segments.AlignSegment | src/arch/x86_64/boot/limine/mod.rs:178-186 | the re-aligned slot starts on a page boundary less than a page above the old base, holds whole pages, and, when not empty, ends inside the old slot |
| Segments.AlignSegmentKeepsPages | src/arch/x86_64/boot/limine/mod.rs:178-186 | every whole page inside the old slot is inside the re-aligned one |
| Segments.AlignAsWrittenAgrees | src/arch/x86_64/boot/limine/mod.rs:178-186 | when the subtraction as written does not underflow, it gives the corrected slot |
| Segments.AlignAsWrittenOverflows | src/arch/x86_64/boot/limine/mod.rs:183 | a 16-byte ACPI-reclaimable entry at `0x1001` is collected, and re-aligning it as written underflows; the corrected slot is empty |
| Segments.AlignAll | src/arch/x86_64/boot/limine/mod.rs:178-186 | every slot is re-aligned, and the count of slots is kept |
| Segments.AlignSegments | src/arch/x86_64/boot/limine/mod.rs:178-186 | the loop re-aligns each slot of the array in place |
| Segments.BootBlock | src/arch/x86_64/boot/limine/mod.rs:188-189 | the kernel runs out of memory exactly when there is no pick, and otherwise takes the picked slot |
| Segments.BootBlockFromLargest | src/arch/x86_64/boot/limine/mod.rs:135-192 | with the corrected pick, the kernel runs out of memory exactly when no usable entry opened a slot. Otherwise the boot allocator gets the whole pages of a slot opened by a usable entry of the map. The block starts at that entry's first page boundary, and when the entry holds a whole page from there, the block's first page lies inside the entry. The slot, before re-alignment, is at least as long as every usable entry that opened a slot |
| Segments.OpenerFirstPage | src/arch/x86_64/boot/limine/mod.rs:178-189 | the re-aligned slot starts at the first page boundary of the entry that opened it, and holds that entry's first whole page when it has one |
| Segments.MergedUsableNotPicked | src/arch/x86_64/boot/limine/mod.rs:137-160 | bootloader-reclaimable memory at `0x1000` followed by usable memory at `0x2000` fill one slot; the corrected pick does not name it, and there is no boot block |
| Segments.BootBlockAsWrittenEmpty | src/arch/x86_64/boot/limine/mod.rs:188-192 | with the pick as written, two adjacent usable entries give the boot allocator an empty block |
| Segments.MaxReclaimableEndIsMax | src/arch/x86_64/boot/limine/mod.rs:200-209 | the highest reclaimable end is at least every reclaimable entry's end and is one of them (or 0 when there is none) |
| Segments.DirectMapSize | src/arch/x86_64/boot/limine/mod.rs:211-227 | the direct map never exceeds the supported maximum |
| Segments.DirectMapCovers | src/arch/x86_64/boot/limine/mod.rs:199-227 | the direct map reaches the end of every reclaimable entry unless it is capped at the maximum, and never goes past the highest reclaimable end |
| HandOff.MaxEndIsMax | src/arch/x86_64/boot/limine/mod.rs:401-406 | the highest segment end bounds every segment's end and is the end of one of them, so the tracker covers every page below it |
| HandOff.Trim | src/arch/x86_64/boot/limine/mod.rs:417-426 | the cut keeps the segment's end; the boot allocator's non-empty segment now starts at the allocator's next free byte, and every other segment is unchanged |
| HandOff.TrimAsWrittenAgrees | src/arch/x86_64/boot/limine/mod.rs:417-426 | where the cut as written does not underflow it gives the corrected cut |
| HandOff.TrimAsWrittenFailsOnEmptySlot | src/arch/x86_64/boot/limine/mod.rs:417-423 | with one usable entry at address 0 the empty slots also start at the boot allocator's start, so the cut as written computes `0 - 0x1000` on an empty slot; the corrected cut leaves it empty |
| HandOff.PageRangeExact | src/arch/x86_64/boot/limine/mod.rs:428-437 | between two page boundaries the loop visits exactly the page boundaries in between, in increasing order |
| HandOff.PageUp | src/utility/mod.rs:11-16 | rounding up gives a page boundary less than a page above the input |
| HandOff.AlignPageUpIs | src/utility/mod.rs:11-16 | `align_page_up` computes that rounding whenever `x + 0xfff` fits in 64 bits |
| HandOff.IndicesAt | src/arch/x86_64/boot/limine/mod.rs:435 | each index handed to the tracker is its page divided by the page size |
| HandOff.SlotPagesExact | src/arch/x86_64/boot/limine/mod.rs:411-437 | the pages of one segment are increasing page boundaries inside it, past the allocator's next free byte in the boot allocator's segment, and every such page is among them |
| HandOff.HandOffPageSound | src/arch/x86_64/boot/limine/mod.rs:411-437 | every page handed over is a page boundary inside a non-empty segment and not one the boot allocator has handed out |
| HandOff.HandOffPagesOutside | src/arch/x86_64/boot/limine/mod.rs:411-437 | no page handed over lies in a range disjoint from every segment |
| HandOff.HandOffPagesComplete | src/arch/x86_64/boot/limine/mod.rs:411-437 | every page boundary inside a segment is handed over unless the boot allocator already handed it out |
| HandOff.HandOffPagesStep | src/arch/x86_64/boot/limine/mod.rs:411 | the pages handed over grow one segment at a time |
| HandOff.FreshFromEarlier | src/arch/x86_64/boot/limine/mod.rs:407-437 | a page of segment `i` is not among the pages of the earlier segments and is below the tracker's page count |
| HandOff.SegmentFresh | src/arch/x86_64/boot/limine/mod.rs:428-437 | every page of segment `i` is such a fresh page |
| HandOff.FreshInRange | src/arch/x86_64/boot/limine/mod.rs:431-436 | a page is not among the pages below it that the loop has already marked |
| HandOff.HandOffSegments | src/arch/x86_64/boot/limine/mod.rs:407-437 | starting from an empty tracker sized `nb_pages`, the loop leaves the tracker valid with exactly the pages handed over, in order, on its free list; since each is marked once, none is marked twice |
| HandOff.MarkSegment | src/arch/x86_64/boot/limine/mod.rs:412-437 | one segment's pages are appended to the free list, and the tracker stays valid |
| HandOff.MarkRange | src/arch/x86_64/boot/limine/mod.rs:431-437 | the `while start != end` loop marks the pages of `[start, end)` in order |
| HandOff.MarkPage | src/arch/x86_64/boot/limine/mod.rs:435-436 | marking one fresh page appends its index and keeps the tracker valid |
| HandOff.PageBounds | src/arch/x86_64/boot/limine/mod.rs:428-429 | `start` is the cut base rounded up and `end` the segment's end, which rounding down leaves alone |
| Handlers.SaturatingAddAbove | src/arch/x86_64/syscall/handlers.rs:47 | for 64-bit operands, the saturating sum exceeds a bound below `2^64 - 1` exactly when the true sum does |
| Handlers.RangeErrorCases | src/arch/x86_64/syscall/handlers.rs:113-125 | a range is accepted exactly when the caller names itself (identifier 0) and the address and length are page aligned with `virt + length <= USER_TOP`; a foreign identifier gives `INVALID_PROCESS_ID`, any other rejection `INVALID_VALUE` |
| Handlers.MapErrorCases | src/arch/x86_64/syscall/handlers.rs:37-51 | `map_memory` goes on exactly when the range is accepted and the flags have no bit beyond `WRITABLE` and `EXECUTABLE` |
| Handlers.PageFlagsBits | src/arch/x86_64/syscall/handlers.rs:56-64 | the page flags hold `USER`, `WRITABLE` exactly for writable mappings, `NO_EXECUTE` exactly for non-executable ones, and nothing else |
| Handlers.PageFlagsMeaning | src/arch/x86_64/syscall/handlers.rs:56-64 | the same, as the flags `map_4kib` accepts |
| Handlers.LeavesKept | src/arch/x86_64/syscall/handlers.rs:78-90 | mapping the next page keeps the entries of the pages mapped before |
| Handlers.LeavesPush | src/arch/x86_64/syscall/handlers.rs:78-90 | the new page's entry joins those of the pages mapped before |
| Handlers.LeafPermits | src/arch/x86_64/syscall/handlers.rs:56-64 | an entry built from the page flags of a request lets user code reach the page, write exactly when `WRITABLE` was asked and execute exactly when `EXECUTABLE` was asked |
| Handlers.MappedPermits | src/arch/x86_64/syscall/handlers.rs:56-90 | every page `map_memory` mapped is a user page with exactly the write and execute rights asked for |
| Handlers.MapPage | src/arch/x86_64/syscall/handlers.rs:75-95 | one round pops a frame and maps the next page to it; the page tables stay well formed, nothing outside the range changes, and the frame is one taken off the free list that no earlier page got; the new page's 4 KiB entry is the frame with `PRESENT` and the page flags, and the entries of the earlier pages stay as they were; a failed round leaves the free list empty |
| Handlers.PageTables | src/arch/x86_64/syscall/handlers.rs:78-90 | after `map_4kib` in the loop, the pages outside the range keep their translation and the earlier pages keep their entries; a success adds the new page, with its entry, to the mapped prefix |
| Handlers.MapPages | src/arch/x86_64/syscall/handlers.rs:74-96 | the loop maps a prefix of the range page by page, each page to its own frame taken off the free list, and each page's 4 KiB entry is that frame with `PRESENT` and the page flags; it reports success exactly when the prefix is the whole range, fails only with the free list empty, and nothing else in the window changes |
| Handlers.MapMemory | src/arch/x86_64/syscall/handlers.rs:26-99 | a failed check returns its error and changes nothing; otherwise the call returns success exactly when every page of the range is mapped to its own frame off the free list, and `OUT_OF_MEMORY` otherwise, only once the free list is empty, keeping the pages mapped so far; every page it mapped is a user page, writable exactly when `WRITABLE` was asked and executable exactly when `EXECUTABLE` was asked |
| Handlers.UnmapStep | src/arch/x86_64/syscall/handlers.rs:135-156 | one round keeps the loop state: the pages unmapped so far map nothing, and every other page and the rest of the window translate as before |
| Handlers.UnmapPage | src/arch/x86_64/syscall/handlers.rs:136-155 | one round unmaps the page exactly when it is mapped with a 4 KiB entry and then pushes its virtual page number on the free list; the pages unmapped so far are exactly the 4 KiB-mapped pages before the next one |
| Handlers.UnmapOne | src/arch/x86_64/syscall/handlers.rs:140-145 | `unmap_4kib` in the loop succeeds exactly when the page was mapped with a 4 KiB entry at the start, and the loop state moves to the next page |
| Handlers.FreeVirtualPage | src/arch/x86_64/syscall/handlers.rs:147-149 | `mark_as_unused(virtual_address)` pushes the page's virtual page number after those of the pages unmapped before it; the later pages stay off the free list |
| Handlers.ChoiceStep | src/arch/x86_64/syscall/handlers.rs:140-149 | one round keeps the choice of pages: the unmapped pages are exactly the earlier pages the starting tables mapped with a 4 KiB entry, and the later pages are mapped as at the start |
| Handlers.PageIndices | src/arch/x86_64/syscall/handlers.rs:148 | the number pushed for each page is its address divided by the page size |
| Handlers.UnmapMemory | src/arch/x86_64/syscall/handlers.rs:102-159 | as written: a failed check returns its error and changes nothing; otherwise the call succeeds, the pages it unmaps are exactly the pages of the range mapped with a 4 KiB entry, they now map nothing, the others are untouched, and their VIRTUAL page numbers are pushed on the free list |
| Handlers.UnmapRange | src/arch/x86_64/syscall/handlers.rs:135-156 | the as-written loop unmaps exactly the pages of the range mapped with a 4 KiB entry, leaves them mapping nothing and the rest untouched, and pushes their virtual page numbers in order |
| Handlers.UnmapHandsOverVirtualPage | src/arch/x86_64/syscall/handlers.rs:148 | `unmap_memory(0, 0x7FFF_FFFF_E000, 4096)` passes the checks, yet its page number is beyond a tracker of 2^20 pages: `mark_as_unused` is handed a virtual page, not a frame |
| Handlers.MappedTranslates | src/arch/x86_64/syscall/handlers.rs:140-145 | a page `unmap_4kib` succeeds on had a translation |
| Handlers.OwnedPush | src/arch/x86_64/syscall/handlers.rs:147-149 | pushing the frame of the first page keeps the frames of the rest distinct from the free list |
| Handlers.OwnedTail | src/arch/x86_64/syscall/handlers.rs:135-156 | skipping a page keeps what is known about the rest |
| Handlers.UnmapFrame | src/arch/x86_64/syscall/handlers.rs:136-155 | corrected round: unmaps the page exactly when it is mapped with a 4 KiB entry and then pushes its frame's number on the free list |
| Handlers.FrameFree | src/arch/x86_64/syscall/handlers.rs:147-149 | the frame of a page still mapped is the one it had at the start, page aligned, managed by the tracker and not free |
| Handlers.FreeingStep | src/arch/x86_64/syscall/handlers.rs:135-156 | one corrected round keeps the loop state, including which pages are unmapped |
| Handlers.FreedPush | src/arch/x86_64/syscall/handlers.rs:147-149 | pushing the frame of a mapped page extends the free list by that page's frame number and keeps the rest owned |
| Handlers.FreeingStart | src/arch/x86_64/syscall/handlers.rs:133-135 | the corrected loop state holds before the first round |
| Handlers.FreeRange | src/arch/x86_64/syscall/handlers.rs:135-156 | the corrected loop walks the whole range and keeps its state: exactly the 4 KiB-mapped pages are unmapped and their frames freed |
| Handlers.UnmapFrames | src/arch/x86_64/syscall/handlers.rs:133-156 | the corrected loop unmaps exactly the pages of the range mapped with a 4 KiB entry and pushes, in order, the frame numbers they had |
| Handlers.UnmapMemoryFrames | src/arch/x86_64/syscall/handlers.rs:102-159 | `unmap_memory` as evidently intended: same checks and result; the unmapped pages are exactly the 4 KiB-mapped pages of the range, and the free list grows by exactly the frames they were mapped to |
| Handlers.MappedFramesOwned | src/arch/x86_64/syscall/handlers.rs:74-96 | the frames `map_memory` mapped are distinct, managed and not free, which is what the corrected `unmap_memory` needs to hand them back |
| Handlers.FramePoint | src/arch/x86_64/syscall/handlers.rs:74-96 | after `map_memory`, page `j` of the range translates to the `j`-th frame |
| Handlers.FramebufferFlags | src/arch/x86_64/syscall/handlers.rs:204 | the framebuffer is mapped `USER`, `WRITABLE` and `NO_EXECUTE`, and with no other flag |
| Handlers.RangeLeavesStep | src/arch/x86_64/syscall/handlers.rs:197-215 | mapping the next framebuffer page extends the range whose entries carry the flags, keeping the entries of the pages before |
| Handlers.RangePermits | src/arch/x86_64/syscall/handlers.rs:204 | pages mapped with the page flags of a request grant what it asks: for the framebuffer, user pages that are writable and not executable |
| Handlers.FramebufferErrorCases | src/arch/x86_64/syscall/handlers.rs:169-179 | the framebuffer calls go on exactly when the caller names itself and the index names a framebuffer; otherwise `INVALID_PROCESS_ID` or `INVALID_VALUE` |
| Handlers.MapFramebufferPage | src/arch/x86_64/syscall/handlers.rs:197-215 | one round maps the next page of `at` to the next page of the buffer with the given flags, touching nothing outside the range and keeping the entries of the pages mapped before; a failure leaves the free list empty |
| Handlers.MapContiguous | src/arch/x86_64/syscall/handlers.rs:193-216 | the loop with the given flags: on success every page of `[at, at + size)` maps to the matching page of the buffer and its 4 KiB entry is that frame with `PRESENT` and the flags; a failure leaves the free list empty; nothing outside the range changes either way |
| Handlers.MapFramebuffer | src/arch/x86_64/syscall/handlers.rs:193-216 | the loop with `FRAMEBUFFER_FLAGS`: on success every page of `[at, at + size)` maps to the matching page of the buffer as a user page that is writable and not executable; a failure leaves the free list empty; nothing outside the range changes either way |
| Handlers.AcquireFramebuffer | src/arch/x86_64/syscall/handlers.rs:161-219 | as written: a failed check returns its error; a framebuffer with an owner gives `CONFLICT`; otherwise the buffer is mapped at `at`, giving success or, only with the free list empty, `OUT_OF_MEMORY`; on success every page is a user page, writable and not executable, mapped to the matching page of the buffer; since the owner written is the caller's identifier 0, the framebuffer never becomes owned |
| Handlers.Countdown | src/arch/x86_64/syscall/handlers.rs:213 | `size` after `k` rounds, with 64-bit wrap-around, is a 64-bit value |
| Handlers.CountdownMissesZero | src/arch/x86_64/syscall/handlers.rs:195-216 | a size that is not a whole number of pages never reaches 0, so the loop never ends |
| Handlers.CountdownReachesZero | src/arch/x86_64/syscall/handlers.rs:195-216 | a whole number of pages reaches 0 after `size / 4096` rounds |
| Handlers.OddFramebufferSize | src/arch/x86_64/syscall/handlers.rs:193-216 | an 800x600 framebuffer with a pitch of 3200 bytes is 1 920 000 bytes, 3072 past a page boundary, and its countdown never reaches 0 |
| Handlers.ReleaseFramebuffer | src/arch/x86_64/syscall/handlers.rs:221-252 | as written: a failed check returns its error; the call succeeds exactly when the framebuffer has no owner, and the public data never changes |
| Handlers.AcquireFramebufferOwned | src/arch/x86_64/syscall/handlers.rs:161-219 | as evidently intended: a misaligned `at` or one whose page-rounded mapping passes `USER_TOP` is `INVALID_VALUE`, an owned framebuffer `CONFLICT`, both changing nothing; otherwise the framebuffer is owned by the caller and the result is success, with its buffer rounded up to whole pages mapped at `at` as user pages that are writable and not executable, or `OUT_OF_MEMORY` with the free list empty |
| Handlers.ReleaseFramebufferOwned | src/arch/x86_64/syscall/handlers.rs:221-252 | as evidently intended: succeeds exactly when the caller owns the framebuffer, which then has no owner; otherwise `CONFLICT`, and nothing changes |
| Handlers.OwnershipRoundTrip | src/arch/x86_64/syscall/handlers.rs:181-187 | a framebuffer acquired by the caller is owned, so another acquire or another process's release is refused, and releasing it gives back the framebuffers as they were |
| Handlers.KernelAddressAccepted | src/arch/x86_64/syscall/handlers.rs:161-187 | `acquire_framebuffer(0, 0, 0xFFFF_8000_0000_0000)` with one framebuffer passes every check, though that address is in the kernel's half; the corrected check refuses it and any misaligned address |
| PageEntry.FlagBits | src/arch/x86_64/raw.rs:80-105 | each page flag is the single bit the architecture gives it: `PRESENT` 0, `WRITABLE` 1, `USER` 2, `WRITE_THROUGH` 3, `DISABLE_CACHE` 4, `ACCESSED` 5, `DIRTY` 6, `HUGE` 7, `GLOBAL` 8, `NO_EXECUTE` 63 (section 4.5 of Intel SDM Vol. 3A) |
| PageEntry.MaskBits | src/arch/x86_64/cpu/paging.rs:24-32 | the OR mask is bits 0, 1, 2 and 6; the AND mask bits 3, 4, 8 and 63; the preserved bits are 5, 9-47 and 52-61; the address mask of `directory_entry_mut` is bits 12-59 |
| PageEntry.PreservedLiteralBits | src/arch/x86_64/cpu/paging.rs:32 | `0x3FF0_FFFF_FFFF_FE00` is bits 9-47 and 52-61 |
| PageEntry.AddressMaskBits | src/arch/x86_64/cpu/paging.rs:93 | `0x0fffffff_fffff000` is bits 12-59 |
| PageEntry.FuseFlags | src/arch/x86_64/cpu/paging.rs:15-43 | bit by bit: the preserved bits come from `a`, the OR bits are set when either has them, the AND bits only when both do, and every other bit (`HUGE` among them) is clear |
| PageEntry.MapFlagsNotPreserved | src/arch/x86_64/cpu/paging.rs:16-20 | the flags a mapping is made with never touch a preserved bit, so the debug assertion of `fuse_flags` holds |
| PageEntry.FuseIdempotent | src/arch/x86_64/cpu/paging.rs:15-43 | fusing the same flags twice gives the same entry as fusing them once |
| PageEntry.EntryAddress | src/arch/x86_64/cpu/paging.rs:93 | the next table's address is bits 12-59 of the entry |
| PageEntry.TableIndex | src/arch/x86_64/cpu/paging.rs:145-148 | `(virt >> shift) & 0o777` is the shifted address modulo 512, so always below 512 |
| PageEntry.LinearIndex | src/arch/x86_64/cpu/paging.rs:145-148 | the index used at each level is below 512 |
| PageEntry.DigitIsDiv | src/arch/x86_64/cpu/paging.rs:145-148 | the `n`-th 9-bit group of an address is the address shifted by `9n` modulo 512 |
| PageEntry.LowDigitsIsMod | src/arch/x86_64/cpu/paging.rs:145-148 | the lowest `n` groups are the address modulo `2^(9n)` |
| PageEntry.LinearIndexIsTableIndex | src/arch/x86_64/cpu/paging.rs:145-148 | the index at level `l` is `(virt >> (12 + 9(l-1))) & 0o777` |
| PageEntry.OffsetIsMod | src/arch/x86_64/cpu/paging.rs:145-148 | the offset inside a page of level `l` is the address modulo the page size of that level |
| PageEntry.Frame | src/arch/x86_64/cpu/paging.rs:155 | the frame of a leaf entry is its bits from the page-size bit up to bit 51 |
| PageEntry.FrameMask | src/arch/x86_64/cpu/paging.rs:155 | the mask of those bits |
| PageEntry.WriteFrame | src/arch/x86_64/cpu/paging.rs:150-155 | a write to an entry a walk does not read leaves that walk's result unchanged |
| PageEntry.SameMeaningBits | src/arch/x86_64/cpu/paging.rs:92 | entries that agree on the present and huge bits and the address bits agree on every frame |
| PageEntry.SameMeaningFrame | src/arch/x86_64/cpu/paging.rs:92 | such entries have the same frame at every page size |
| PageEntry.SameMeaningLookup | src/arch/x86_64/cpu/paging.rs:92 | rewriting an entry with one of the same meaning, as fusing the flags does, changes no walk |
| PageEntry.FlagTest | src/arch/x86_64/cpu/paging.rs:112-118 | `entry & flag == 0` exactly when the flag's bit is clear |
| PageEntry.EntryFrame | src/arch/x86_64/cpu/paging.rs:155 | `phys` OR `flags` with an aligned `phys` below `2^52` and flags outside bits 12-51 has frame `phys` |
| PageTree.DirectoryAddress | src/arch/x86_64/cpu/paging.rs:93 | for a directory entry the kernel writes, its mask `0x0fffffff_fffff000` and the processor find the same page-aligned table |
| PageTree.NewDirectoryEntry | src/arch/x86_64/cpu/paging.rs:89 | `page` OR `PRESENT` OR the flags for a fresh table is a directory entry naming that table |
| PageTree.FuseDirectory | src/arch/x86_64/cpu/paging.rs:92 | fusing mapping flags into a directory entry keeps it a directory entry that the processor reads alike |
| PageTree.Write | src/arch/x86_64/cpu/paging.rs:89 | writing one slot changes that slot and nothing else |
| PageTree.SameSlotDigits | src/arch/x86_64/cpu/paging.rs:145-148 | two addresses share the slot of a level exactly when their indices above it agree |
| PageTree.SlotsInWindow | src/arch/x86_64/cpu/paging.rs:145-148 | within one 256 TiB window, sharing a level-`m` slot is having the same address above the level's page size |
| PageTree.ReadsOnlySameSlot | src/arch/x86_64/cpu/paging.rs:150-155 | in a well-formed tree, the walk of `v` reads the slot the walk of `w` reaches at level `m` only when `v` and `w` share that slot |
| PageTree.WalkLookup | src/arch/x86_64/cpu/paging.rs:150-155 | addresses sharing a slot reach the same table, and their translation is decided below it |
| PageTree.NotMappedBelow | src/arch/x86_64/cpu/paging.rs:238-240 | a walk that stops above level 1 leaves no 4 KiB page mapped |
| PageTree.LeafWrite | src/arch/x86_64/cpu/paging.rs:154-155 | writing the slot a walk reaches changes the translation of that slot's addresses only |
| PageTree.LeafKeepsForest | src/arch/x86_64/cpu/paging.rs:155 | writing a leaf, or zero, into a slot keeps the tables well formed |
| PageTree.AddTable | src/arch/x86_64/cpu/paging.rs:83-89 | a fresh zeroed table under a zero slot keeps the tables well formed and changes only that slot |
| PageTree.AddTableLookup | src/arch/x86_64/cpu/paging.rs:83-89 | and it changes no translation, since the new table maps nothing |
| PageTree.NewTableLookup | src/arch/x86_64/cpu/paging.rs:83-89 | the walk into the new table and the walk through the old zero slot both end with no translation |
| PageTree.FuseKeepsForest | src/arch/x86_64/cpu/paging.rs:90-93 | fusing flags into a used slot keeps the tables well formed, and the slot names the same table |
| PageTree.AllocStep | src/arch/x86_64/cpu/paging.rs:83-89 | a new directory keeps the tree well formed below the same root, adds exactly one table, one level below its parent, and changes no translation |
| PageTree.FuseStep | src/arch/x86_64/cpu/paging.rs:90-93 | fusing flags into a used slot keeps the tree well formed and changes no translation |
| PageTree.FuseEntry | src/arch/x86_64/cpu/paging.rs:90-93 | the fused entry is the bitwise fusion of the old entry and the flags, and names the same table, one level down |
| PageTree.Descend | src/arch/x86_64/cpu/paging.rs:150-152 | after `directory_entry_mut` at level `k` the walk reaches the table it returned at level `k - 1`, still with no large page on the way |
| PageTree.LeafEntry | src/arch/x86_64/cpu/paging.rs:155 | `phys` OR `PRESENT` OR the flags, with `HUGE` for large pages, is a present, non-zero entry with those flags and that frame |
| PageTree.LeafFrame | src/arch/x86_64/cpu/paging.rs:155 | an aligned `phys` below `2^52` is the frame the processor reads back |
| PageTree.MapLeaf | src/arch/x86_64/cpu/paging.rs:154-155 | writing the leaf keeps the tree well formed, puts the entry at the walk's slot and changes nothing outside that slot |
| PageTree.MapLeafTranslates | src/arch/x86_64/cpu/paging.rs:154-155 | after writing the leaf, every address of the slot translates to `phys` plus its offset in the page |
| PageTree.LeafLookup | src/arch/x86_64/cpu/paging.rs:155 | a walk reaching a leaf at level `m` translates to the frame plus the offset in a page of that level |
| PageTree.RootNotHuge | src/arch/x86_64/cpu/paging.rs:145-152 | no walk meets a large page at the root |
| PageTree.LeafKeepsNoHuge | src/arch/x86_64/cpu/paging.rs:150-155 | writing a leaf puts no large page on any other slot's walk |
| PageTree.UnmapLeaf | src/arch/x86_64/cpu/paging.rs:242-247 | clearing a 4 KiB leaf keeps the tree well formed, changes no translation outside that page, leaves every other page mapped or unmapped as it was, and leaves the page mapped to nothing |
| PageTree.LeafKeepsMapped | src/arch/x86_64/cpu/paging.rs:246-247 | writing the level-1 slot of one page leaves every other page mapped with a 4 KiB entry exactly when it was, and with the same entry, since no other walk reads that slot |
| PageTree.LeafIsMapped | src/arch/x86_64/cpu/paging.rs:155 | a page whose 4 KiB entry is a leaf written with `PRESENT` is mapped with a 4 KiB entry |
| PageTree.LeafKept | src/arch/x86_64/cpu/paging.rs:154-155 | a page outside the written slot keeps the leaf entry it had |
| PageTree.EntriesKeptThen | src/arch/x86_64/cpu/paging.rs:134-158 | keeping the 4 KiB entries is kept by composing the steps of `map_4kib` |
| PageTree.WalkKept | src/arch/x86_64/cpu/paging.rs:83-93 | writing a directory slot that was zero, or fusing flags into it while keeping its table, leaves every walk that reached a table before reaching the same table |
| PageTree.DirectoryKeepsEntries | src/arch/x86_64/cpu/paging.rs:83-93 | such a directory write leaves the 4 KiB entry of every mapped page as it was |
| Paging.PhysicalMemory.constructor | src/arch/x86_64/cpu/paging.rs:369-370 | a fresh address space is one zeroed root table, which is a well-formed tree |
| Paging.AllocPage | src/arch/x86_64/cpu/paging.rs:372 | a page from the boot allocator or the memory tracker is page-aligned, below `2^48` and not already a table, and stays out of the source's free pages; the free pages never grow, and a failure leaves none |
| Paging.AddDirectory | src/arch/x86_64/cpu/paging.rs:83-89 | a zero slot gets a fresh zeroed table with the mapping flags; the tree stays well formed, only that slot and the new table change, and no translation and no 4 KiB entry changes |
| Paging.FuseDirectory | src/arch/x86_64/cpu/paging.rs:90-93 | a used slot gets the flags fused in and names the same table one level down; nothing else changes and no translation and no 4 KiB entry changes |
| Paging.DirectoryEntryMut | src/arch/x86_64/cpu/paging.rs:73-98 | returns the table under the slot, allocating a zeroed one for a zero slot; an allocation failure changes nothing and happens only with no free page left; no translation and no 4 KiB entry changes in either case |
| Paging.LevelIndex | src/arch/x86_64/cpu/paging.rs:145-148 | `(virt >> shift) & 0o777` is the address's index at that level |
| Paging.NextTable | src/arch/x86_64/cpu/paging.rs:150-152 | one step of the walk in `map_*`: on success the returned table is the next one on the address's walk, with no large page below it; it fails only with no free page left; the 4 KiB entries of mapped pages stay as they were |
| Paging.SetLeaf | src/arch/x86_64/cpu/paging.rs:154-155 | writes the leaf entry at the walk's slot, changes nothing outside that slot, and the slot then translates to `phys` (for a frame below `2^52`); a level-1 write keeps the 4 KiB entries of every other slot |
| Paging.Map4KiB | src/arch/x86_64/cpu/paging.rs:134-158 | on success the 4 KiB entry of `virt` is exactly `phys` with `PRESENT` and the flags, and the page is mapped to `phys`; other addresses keep their translation and other pages their 4 KiB entries; a failure changes no translation and happens only with no free page left |
| Paging.Map2MiB | src/arch/x86_64/cpu/paging.rs:167-189 | on success the 2 MiB page at `virt` is a large page mapped to `phys` with the flags; other addresses keep their translation; a failure changes no translation and happens only with no free page left |
| Paging.Map1GiB | src/arch/x86_64/cpu/paging.rs:198-218 | on success the 1 GiB page at `virt` is a large page mapped to `phys` with the flags; other addresses keep their translation; a failure changes no translation and happens only with no free page left |
| Paging.TryDirectoryEntry | src/arch/x86_64/cpu/paging.rs:105-124 | no table exactly when the entry is not present or is a large page; otherwise the table the entry names |
| Paging.TryDirectoryEntryWalks | src/arch/x86_64/cpu/paging.rs:238-240 | in a well-formed tree, `try_directory_entry_mut` follows the same walk as the translation |
| Paging.ClearLeaf | src/arch/x86_64/cpu/paging.rs:247 | zeroing the 4 KiB leaf unmaps that page, changes no other translation and leaves every other page mapped or unmapped as it was |
| Paging.Unmap4KiB | src/arch/x86_64/cpu/paging.rs:229-251 | succeeds exactly when a 4 KiB page was mapped at `virt`; then only its leaf is zeroed; on failure nothing changes; afterwards no 4 KiB page is mapped there, and every other page is mapped or unmapped as before |
| Paging.LeafTable | src/arch/x86_64/cpu/paging.rs:238-240 | the three `try_directory_entry_mut` steps of `unmap_4kib` reach the level-1 table of the processor's walk, or stop exactly where it stops, and then no 4 KiB page is mapped at `virt` |
| Paging.StepLevel | src/arch/x86_64/cpu/paging.rs:279-292 | picks the largest page that fits the remaining size and that both addresses are aligned to |
| Paging.DirectMapSpan | src/arch/x86_64/cpu/paging.rs:278-302 | the pages chosen cover at least `size` and less than one more 4 KiB page |
| Paging.DirectMapTiles | src/arch/x86_64/cpu/paging.rs:278-302 | the chosen pages follow one another without gap or overlap, each aligned to its size, at the same offset from `phys` as from `virt` |
| Paging.SpanIsPageRound | src/arch/x86_64/cpu/paging.rs:278-302 | the pages chosen cover exactly `size` rounded up to 4 KiB |
| Paging.DirectMapAsWrittenOvershoots | src/arch/x86_64/cpu/paging.rs:291-296 | as written, once a 2 MiB-aligned size is used up the loop still maps one 4 KiB page past the end |
| Paging.DirectMapAsWrittenSpan | src/arch/x86_64/cpu/paging.rs:278-302 | as written, such a size maps `size + 4096` bytes |
| Paging.DirectMapAsWrittenExample | src/arch/x86_64/cpu/paging.rs:278-302 | as written, mapping 2 MiB from 0 maps a 2 MiB page and then a 4 KiB page at 2 MiB |
| Paging.RangeStep | src/arch/x86_64/cpu/paging.rs:278-302 | mapping the next page after a mapped prefix extends the mapped range by that page |
| Paging.RangePoint | src/arch/x86_64/cpu/paging.rs:278-302 | each address of the extended range translates to the same offset from `phys` |
| Paging.BesideStep | src/arch/x86_64/cpu/paging.rs:278-302 | a page mapped inside the range changes no translation outside it |
| Paging.PendingStep | src/arch/x86_64/cpu/paging.rs:278-302 | a page mapped inside the range puts no large page on the walk of the part still to map |
| Paging.RemainingStep | src/arch/x86_64/cpu/paging.rs:278-302 | each step's page is aligned, fits before the end, and leaves the rest of the range to map |
| Paging.MapStep | src/arch/x86_64/cpu/paging.rs:279-300 | one iteration maps the chosen page, keeps everything outside the range, and extends the mapped prefix |
| Paging.PageRound | src/arch/x86_64/cpu/paging.rs:294-296 | `size` rounded up to a multiple of 4 KiB |
| Paging.CreateDirectMap | src/arch/x86_64/cpu/paging.rs:262-305 | on success maps `[virt, virt + size)`, rounded up to 4 KiB, to the same offsets from `phys` (for frames below `2^52`); nothing outside the range changes, even after a failure |
| KernelSpace.DirectMapSize | src/arch/x86_64/cpu/paging.rs:359-362 | the direct map is the requested size, raised to four gigabytes when smaller |
| KernelSpace.KernelSizeAsWritten | src/arch/x86_64/cpu/paging.rs:355-356 | as written, the size is the image size plus the rounded-down start itself |
| KernelSpace.KernelSize | src/arch/x86_64/cpu/paging.rs:353-357 | the corrected size makes the mapping from the rounded-down start end where the image ends |
| KernelSpace.KernelSizeAsWrittenMisses | src/arch/x86_64/cpu/paging.rs:356 | the size as written ends there exactly when the kernel starts at 0 |
| KernelSpace.KernelSizeAsWrittenExample | src/arch/x86_64/cpu/paging.rs:356 | a kernel of one page at `0x800` is mapped only up to `0x1000`, not to `0x1800` |
| KernelSpace.KernelFlags | src/arch/x86_64/cpu/paging.rs:383-409 | `WRITABLE` with `GLOBAL`, and those with `USER`, are mapping flags |
| KernelSpace.ZeroRoot | src/arch/x86_64/cpu/paging.rs:369-370 | a zeroed root maps nothing and has no large page |
| KernelSpace.NoHugeKept | src/arch/x86_64/cpu/paging.rs:374-410 | mapping one region puts no large page on the walks of a region apart from it |
| KernelSpace.MapsKept | src/arch/x86_64/cpu/paging.rs:374-410 | mapping one region keeps the mapping of a region apart from it |
| KernelSpace.MapRegions | src/arch/x86_64/cpu/paging.rs:374-410 | on success the direct map, the kernel image and the public data are all mapped to their physical addresses |
| KernelSpace.CreateKernelAddressSpace | src/arch/x86_64/cpu/paging.rs:343-414 | on success returns a fresh page-aligned root from the boot allocator, under which the direct map of at least four gigabytes, the kernel and the public data are mapped |

Some definitions carry no contract of their own. The lemmas named beside them state their properties, and those lemmas' rows cite the same source lines:

- `Fmt.WriteDec` (src/utility/fmt.rs:11-18): `Fmt.WriteDecNeverOverstates`, `Fmt.UnpaddedHundredthsMisread`.
- `Fmt.Display` (src/utility/fmt.rs:20-48): `Fmt.DisplayNeverOverstates`, `Fmt.DisplayWholeUnits`, `Fmt.DisplayPaddedReadsBack`.
- `Fmt.Scale` (src/utility/fmt.rs:22-47): `Fmt.ScaleChoosesUnit`.
- `PublicLayout.Compute` (src/arch/x86_64/public.rs:26-40): `PublicLayout.PartsDisjoint`, `PublicLayout.EmptyLayout`, `PublicLayout.SizeGrows`.
- `Idt.CreateGate` (src/arch/x86_64/cpu/idt.rs:54-75): `Idt.CreateGateDecodes`, `Idt.CreateGateInjective`.
- `Idt.Installed` (src/arch/x86_64/cpu/idt.rs:100-125): `Idt.InstalledVectors`, `Idt.InstalledGates`.
- `Gdt.TssDescriptorLow` and `Gdt.TssDescriptorHigh` (src/arch/x86_64/cpu/gdt.rs:118-123): `Gdt.TssDescriptorRoundTrip`.
- `LimineReq.FileName` (src/arch/x86_64/boot/limine/req.rs:281-289): `LimineReq.FileNameIsTail`, `LimineReq.InitFoundByFileName`.
- `Segments.MaxReclaimableEnd` (src/arch/x86_64/boot/limine/mod.rs:200-209): `Segments.MaxReclaimableEndIsMax`.
- `Segments.AlignSegmentAsWritten` (src/arch/x86_64/boot/limine/mod.rs:178-186): `Segments.AlignAsWrittenAgrees`, `Segments.AlignAsWrittenOverflows`.
- `HandOff.TrimAsWritten` (src/arch/x86_64/boot/limine/mod.rs:417-426): `HandOff.TrimAsWrittenAgrees`, `HandOff.TrimAsWrittenFailsOnEmptySlot`.
- `HandOff.NbPages` (src/arch/x86_64/boot/limine/mod.rs:401-406): `HandOff.FreshFromEarlier`, `HandOff.HandOffSegments`.
- `Paging.DirectMapAsWritten` and `Paging.DirectMapLoopAsWritten` (src/arch/x86_64/cpu/paging.rs:278-302): `Paging.DirectMapAsWrittenOvershoots`, `Paging.DirectMapAsWrittenSpan`, `Paging.DirectMapAsWrittenExample`.
- `PublicData.WithOwner` (src/arch/x86_64/syscall/handlers.rs:181-187): `PublicData.WithOwnerUnchanged`, `PublicData.WithOwnerTwice`.
- `Handlers.SaturatingAdd` (src/arch/x86_64/syscall/handlers.rs:47): `Handlers.SaturatingAddAbove`.
- `Handlers.RangeError` (src/arch/x86_64/syscall/handlers.rs:113-125): `Handlers.RangeErrorCases`.
- `Handlers.MapError` (src/arch/x86_64/syscall/handlers.rs:37-51): `Handlers.MapErrorCases`.
- `Handlers.FramebufferError` (src/arch/x86_64/syscall/handlers.rs:169-179): `Handlers.FramebufferErrorCases`.
- `SysResult.Name` (lib/src/sys_result.rs:95-98): `SysResult.DebugNamesErrors`.

## Left out

- Inline assembly and privileged instructions (`lgdt`, `lidt`, `ltr`, `wrmsr`, `invlpg`, `sysretq`, the stack and `cr3` switches) are not modelled. Of the `system_call` entry stub only the values it moves between registers are modelled.
- The locks around the memory tracker and the public data are left out, and the ownership compare-exchange is modelled as one sequential step. No concurrency is modelled.
- Logging, the serial port, the APIC, the exception handlers and every `debug_assert!` are left out. The `warn` paths of the boot code appear only as a boolean `warned` in the result.
- `terminate` (handlers.rs:22) is `todo!()` in the source and is not modelled.
- `release_framebuffer` leaves the framebuffer mapped in the process (a TODO in the source). The model does the same and does not unmap it.
- The linker symbols (`image_begin`, `image_end`, `public_data_address`), the handler addresses written into the IDT and the TSS base written into the GDT are parameters.
- The boot entry function's glue is left out: switching to the kernel address space and the kernel stack, the `gdt`/`idt`/`syscall` init calls, mapping the init process and jumping to it. The algorithms it runs are modelled one by one (`Segments`, `HandOff`, `LimineBoot`, `KernelSpace`).
- 64-bit wrap-around of `usize` arithmetic is not modelled: addresses and sizes are unbounded naturals. Where the source's overflow or underflow matters (`AlignSegmentAsWritten`, `Countdown`, `KernelSizeAsWritten`, `SaturatingAdd`), it is written out.
- PageTree.Frame: the processor's frame is taken as bits 12 to 51, while the kernel's directory mask `0x0fffffff_fffff000` also keeps bits 52 to 59. Tables are assumed to sit below `2^48` (`TABLE_LIMIT`), because `fuse_flags` keeps only address bits 12 to 47. Leaves are proved to translate only for frames below `2^52`.
- Paging.CreateDirectMap: translation is proved within one `2^48` window of virtual addresses, since the four 9-bit indices only see bits 12 to 47. It requires that no large page lies on the walks of the range (`NoHugeIn`), which holds for the fresh tables of `create_kernel_address_space` and is a caller obligation elsewhere.
- Paging.Map4KiB: like `Map2MiB`, it requires that no large page lies on the address's walk. The source's `directory_entry_mut` would follow a large-page entry as if it named a table.
- KernelSpace.MapRegions: states only where each region translates, not its leaf flags. It does not state that the direct map and the kernel carry `WRITABLE` and `GLOBAL` and the public data also `USER` (paging.rs:383, 394, 409). `create_direct_map` mixes 1 GiB, 2 MiB and 4 KiB leaves, and the entry-keeping predicate (`PageTree.LeafIs`) covers 4 KiB leaves only. Each single `Map2MiB`, `Map1GiB` and `Map4KiB` does state the flags of the entry it writes.
- KernelSpace.CreateKernelAddressSpace: requires that the direct map, the kernel and the public data lie in the higher-half window and do not overlap. The source checks only the first pair, with a `debug_assert!`.
- Handlers.MapMemory: when `map_4kib` fails after a frame was popped, that frame is lost, as in the source. The contract says that earlier pages stay mapped, the free list shrank by the frames used and is then empty; it does not name the lost frame.
- Handlers.AcquireFramebuffer: the as-written handler is proved only for a framebuffer whose size is a multiple of 4096 and for a page-aligned `at` whose range stays in one window. Outside that the source underflows `size` or hands `map_4kib` an address it assumes never comes; those inputs are shown by `OddFramebufferSize` and `KernelAddressAccepted`.
- Handlers.AcquireFramebufferOwned: an out-of-memory failure part way keeps the ownership claim and the pages already mapped, as the source would.
- Handlers.UnmapMemory: requires that the page numbers of the range are within the tracker and not already free, so that `mark_as_unused` can be modelled at all. `UnmapHandsOverVirtualPage` shows a valid request that breaks this.
- HandOff.HandOffSegments: requires disjoint segments (and the trimmed boot block) as the boot path produces them. That they are disjoint is not derived from the memory map.
- LimineBoot.TryConvert: requires that a supported framebuffer's address is at least the direct-map offset, as the bootloader guarantees.
- LimineBoot.ValidateInit: the overflow of `image_start + len` in the source is not modelled.
- Segments.BootBlockFromLargest: the corrected pick considers only usable entries that open a slot. A usable entry merged into a slot opened by reclaimable memory is never picked, so a map whose only usable memory follows reclaimable memory directly runs out of memory in the corrected model (`Segments.MergedUsableNotPicked`). The picked slot can also go on past the usable entry into reclaimable memory merged after it. The allocator reaches that memory only once the entry's own pages are used up, and the model does not bound the allocator by the entry.
- Segments.BootBlockAsWrittenEmpty: shows that the as-written pick yields an empty block. It does not model the out-of-memory death that follows.
- Gdt.Init: requires the GDT and the two TSS stack arrays to be distinct objects, as the source's statics are.
- `validate_entry_point` (req.rs:128) only logs a warning and is not modelled. The load-address check of `kernel_physical_address` also only warns; it appears as the `warned` flag.

## Findings

| source | as written | input that shows it | evidently intended | confidence | as-written member | corrected member |
|---|---|---|---|---|---|---|
| src/arch/x86_64/cpu/paging.rs:291-296 | after a 1 GiB or 2 MiB step uses up `size`, the loop enters the 4 KiB branch with `size == 0` and maps one more page | `create_direct_map(phys 0, virt 0, size 2 MiB)` maps a 2 MiB page and then a 4 KiB page at 2 MiB; the 4 GiB direct map of `create_kernel_address_space` hits it too | stop once no byte is left to map | high, not executed | Paging.DirectMapAsWrittenExample | Paging.CreateDirectMap |
| src/arch/x86_64/cpu/paging.rs:356 | adds `kernel_start & !0xFFF`, the rounded-down start, to the kernel size | a one-page kernel at `0x800` is mapped only to `0x1000`, missing its last `0x800` bytes | add the offset inside the first page, `kernel_start & 0xFFF` | high, not executed | KernelSpace.KernelSizeAsWrittenExample | KernelSpace.KernelSize |
| lib/src/sys_result.rs:95-97 | matches the raw word against the error offsets 0 to 3, which are successes | `OUT_OF_MEMORY` prints as `<unknown error>` | match against the error words `FIRST_ERROR + 0..3` | high, not executed | SysResult.DebugAsWrittenNeverNames | SysResult.DebugNamesErrors |
| src/arch/x86_64/syscall/handlers.rs:148 | hands the virtual address of an unmapped page to `mark_as_unused` | `unmap_memory(0, 0x7FFF_FFFF_E000, 4096)` passes the checks and frees a page number beyond a tracker of 4 GiB | free the physical frame the page was mapped to | high, not executed | Handlers.UnmapHandsOverVirtualPage | Handlers.UnmapMemoryFrames |
| src/arch/x86_64/syscall/handlers.rs:181-187 | stores `process_id`, which is always 0 here, so the framebuffer never becomes owned | `acquire_framebuffer(0, 0, at)` twice: both succeed, since the owner stays 0 | store the id of the calling process | high, not executed | Handlers.AcquireFramebuffer | Handlers.OwnershipRoundTrip |
| src/arch/x86_64/syscall/handlers.rs:213 | `size -= PAGE_SIZE` with a size that is not a multiple of 4096 | an 800 by 600 framebuffer with 3200-byte rows is 1,920,000 bytes; the countdown skips 0, underflows and never ends | map the size rounded up to whole pages | high, not executed | Handlers.OddFramebufferSize | Handlers.AcquireFramebufferOwned |
| src/arch/x86_64/syscall/handlers.rs:164-204 | `at` is never checked, although the documented contract says an unaligned `at` is refused | `acquire_framebuffer(0, 0, 0xFFFF_8000_0000_0000)` maps the buffer, user-accessible, over the kernel's half | refuse an unaligned `at` or a range outside user space with `INVALID_VALUE` | high, not executed | Handlers.KernelAddressAccepted | Handlers.AcquireFramebufferOwned |
| src/utility/fmt.rs:16 | prints the hundredths without a leading zero | 1076 bytes, 1.05 KiB, prints as `1.5 KiB` | pad the hundredths to two digits | high, not executed | Fmt.UnpaddedHundredthsMisread | Fmt.DisplayPaddedReadsBack |
| src/arch/x86_64/boot/limine/mod.rs:142-146 | records the largest segment's index before the merge check, so a merged entry names the next, unfilled slot | usable entries `0x1000+0x1000` and `0x2000+0x2000` merge into slot 0, but slot 1 is picked, and the boot allocator gets an empty block | take the pick after the merge test, only for a usable entry that opens a new slot, so that the boot allocator starts in usable memory | high, not executed | Segments.LargestAsWrittenNamesEmptySlot | Segments.BootBlockFromLargest |
| src/arch/x86_64/boot/limine/mod.rs:183 | subtracts the alignment gap from a length shorter than it | an ACPI-reclaimable entry at `0x1001` of length `0x10` underflows | clamp the length to zero | high, not executed | Segments.AlignAsWrittenOverflows | Segments.AlignSegmentKeepsPages |
| src/arch/x86_64/boot/limine/mod.rs:286 | publishes `framebuffers.len()` as the framebuffer count | one unsupported framebuffer: the root advertises one record in an area sized for none | publish the number of supported framebuffers written at lines 292-298 | high, not executed | LimineBoot.RootAsWrittenOvercounts | LimineBoot.RootAdvertisesWritten |
| src/arch/x86_64/boot/limine/mod.rs:417-423 | every slot whose base equals the boot block's base is cut, unfilled slots included | usable memory at address 0: unfilled slot 1 also has base 0, and `peek() - base` exceeds its length 0 | cut only the boot allocator's own slot | medium, not executed | HandOff.TrimAsWrittenFailsOnEmptySlot | HandOff.HandOffSegments |
