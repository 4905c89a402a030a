/**
 * `create_kernel_address_space` (`src/arch/x86_64/cpu/paging.rs`): a new
 * root table from the boot allocator, the higher-half direct map of
 * physical memory, the kernel image and the public data, each laid out by
 * `create_direct_map`. The linker symbols that place the image and the
 * public data are parameters.
 */
module KernelSpace {
  import opened Bits
  import opened Prelude
  import opened Mem
  import opened BootAlloc
  import opened PageEntry
  import opened PageTree
  import opened Utility
  import opened Paging

  /** The direct map is never smaller than four gigabytes: some devices are mapped there. */
  const MIN_DIRECT_MAP: nat := 4 * ONE_GIB

  /** The size of the direct map for a requested size: raised to `MIN_DIRECT_MAP` when below it. */
  function DirectMapSize(requested: nat): (size: nat)
    ensures size >= requested && size >= MIN_DIRECT_MAP
    ensures size == requested || size == MIN_DIRECT_MAP
  {
    if requested < MIN_DIRECT_MAP then MIN_DIRECT_MAP else requested
  }

  /**
   * The size of the kernel mapping as the source computes it: the image
   * size plus `kernel_start & !0xFFF`, the rounded-down start itself.
   */
  function KernelSizeAsWritten(imageSize: nat, kernelStart: nat): (size: nat)
    requires kernelStart < U64_LIMIT
    ensures size == imageSize + (kernelStart - kernelStart % PAGE_SIZE)
  {
    RoundDownPage(kernelStart);
    imageSize + And(kernelStart, Not64(0xFFF))
  }

  /**
   * The size of the kernel mapping as intended: the image size plus the
   * part of the first page below `kernel_start`, so that the mapping from
   * the rounded-down start ends where the image ends.
   */
  function KernelSize(imageSize: nat, kernelStart: nat): (size: nat)
    requires kernelStart < U64_LIMIT
    ensures AlignPageDown(kernelStart) + size == kernelStart + imageSize
  {
    RoundDownPage(kernelStart);
    imageSize + kernelStart % PAGE_SIZE
  }

  /**
   * The size as written ends the mapping where the image ends only when
   * the kernel starts at physical address 0: otherwise it maps too little
   * (a start inside the first page) or far too much.
   */
  lemma KernelSizeAsWrittenMisses(imageSize: nat, kernelStart: nat)
    requires kernelStart < U64_LIMIT
    ensures AlignPageDown(kernelStart) + KernelSizeAsWritten(imageSize, kernelStart) == kernelStart + imageSize
      <==> kernelStart == 0
  {
    var down := AlignPageDown(kernelStart);
    if down + KernelSizeAsWritten(imageSize, kernelStart) == kernelStart + imageSize {
      SmallMultiple(down);
    }
  }

  /** The only multiple of a page below a page is 0. */
  lemma SmallMultiple(x: nat)
    requires x % PAGE_SIZE == 0 && x < PAGE_SIZE
    ensures x == 0
  {
    DivModOf(x, PAGE_SIZE);
  }

  /** A kernel loaded at 0x800 with a one-page image: the mapping as written stops 0x800 bytes short. */
  lemma KernelSizeAsWrittenExample()
    ensures AlignPageDown(0x800) + KernelSizeAsWritten(0x1000, 0x800) == 0x1000
    ensures AlignPageDown(0x800) + KernelSize(0x1000, 0x800) == 0x1800
  {
    RoundDownPage(0x800);
  }

  /** `WRITABLE | GLOBAL`: the flags of the direct map and of the kernel image. */
  const KERNEL_FLAGS: nat := Or(WRITABLE, GLOBAL)
  /** `WRITABLE | GLOBAL | USER`: the flags of the public data. */
  const PUBLIC_FLAGS: nat := Or(KERNEL_FLAGS, USER)

  /** Both flag sets may be given to the mapping functions. */
  lemma KernelFlags()
    ensures IsMapFlags(KERNEL_FLAGS) && IsMapFlags(PUBLIC_FLAGS)
  {
    FlagBits();
  }

  /** A zeroed root table translates no address, and no walk meets a large page. */
  lemma ZeroRoot(l4: nat, v: nat)
    ensures Translate(map[l4 := Zeros()], l4, v) == None
    ensures NoHugeOnWalk(map[l4 := Zeros()], l4, 4, v, 1)
  {
    var tables := map[l4 := Zeros()];
    assert Entry(tables, l4, LinearIndex(v, 4)) == 0;
    ZeroBit(0);
    ZeroBit(7);
  }

  /** A zeroed root table has no large page on the walk of any address of a region. */
  lemma ZeroRootNoHuge(l4: nat, virt: nat, size: nat)
    ensures NoHugeIn(map[l4 := Zeros()], l4, virt, virt + PageRound(size))
  {
    forall v | virt <= v < virt + PageRound(size) ensures NoHugeOnWalk(map[l4 := Zeros()], l4, 4, v, 1) {
      ZeroRoot(l4, v);
    }
  }

  /** The page-aligned region of `size` bytes at `virt` lies in the window of the direct map. */
  predicate InHigherHalf(virt: nat, size: nat)
  {
    virt % PAGE_SIZE == 0 && virt / WINDOW == HHDM_OFFSET / WINDOW && virt % WINDOW + size <= WINDOW
  }

  /** Every address of such a region, rounded up to a page, is in that window. */
  lemma InHigherHalfPoint(virt: nat, size: nat, v: nat)
    requires InHigherHalf(virt, size) && virt <= v < virt + PageRound(size)
    ensures v / WINDOW == HHDM_OFFSET / WINDOW
  {
    WindowOffset(virt);
    RoundedFits(virt % WINDOW, size, PageRound(size), WINDOW);
    InWindow(v, virt, virt + PageRound(size));
  }

  /** The page-rounded regions at `v1` and `v2` do not overlap. */
  predicate Apart(v1: nat, s1: nat, v2: nat, s2: nat)
  {
    v1 + PageRound(s1) <= v2 || v2 + PageRound(s2) <= v1
  }

  /** A region `create_direct_map` has not touched still meets no large page. */
  lemma NoHugeKept(a: Tables, b: Tables, l4: nat, lo: nat, size: nat, virt: nat, len: nat)
    requires InHigherHalf(lo, size) && InHigherHalf(virt, len) && Apart(lo, size, virt, len)
    requires NoHugeIn(a, l4, virt, virt + PageRound(len))
    requires NoHugeBeside(a, b, l4, lo, lo + PageRound(size))
    ensures NoHugeIn(b, l4, virt, virt + PageRound(len))
  {
    forall v | virt <= v < virt + PageRound(len) ensures NoHugeOnWalk(b, l4, 4, v, 1) {
      InHigherHalfPoint(virt, len, v);
    }
  }

  /** Translations of a region that `create_direct_map` has not touched stay as they were. */
  lemma MapsKept(a: Tables, b: Tables, l4: nat, lo: nat, size: nat, virt: nat, phys: nat, len: nat)
    requires InHigherHalf(lo, size) && InHigherHalf(virt, len) && Apart(lo, size, virt, len)
    requires MapsRange(a, l4, virt, phys, PageRound(len))
    requires SameBeside(a, b, l4, lo, lo + PageRound(size))
    ensures MapsRange(b, l4, virt, phys, PageRound(len))
  {
    forall v | virt <= v < virt + PageRound(len) ensures Translate(b, l4, v) == Some(phys + (v - virt)) {
      InHigherHalfPoint(virt, len, v);
    }
  }

  /**
   * Where the three regions go: each lies in the window of the direct map
   * and no two overlap once rounded up to whole pages.
   */
  predicate Layout(directMap: nat, image: nat, imageSize: nat, public: nat, publicSize: nat)
  {
    && InHigherHalf(HHDM_OFFSET, directMap) && InHigherHalf(image, imageSize) && InHigherHalf(public, publicSize)
    && Apart(HHDM_OFFSET, directMap, image, imageSize)
    && Apart(HHDM_OFFSET, directMap, public, publicSize)
    && Apart(image, imageSize, public, publicSize)
  }

  /**
   * `create_kernel_address_space`: allocates and zeroes the root table,
   * then maps the first `DirectMapSize(requestedSize)` bytes of physical
   * memory at `HHDM_OFFSET`, the kernel image (whose first byte is at
   * `kernelStart`) at `imageBegin` from the page holding `kernelStart`, and
   * the public data at `publicAddress`, all writable and global (the public
   * data also user-accessible). The linker symbols `image_begin`,
   * `image_end` and `public_data_address` are the parameters `imageBegin`,
   * `imageEnd` and `publicAddress`. Returns the root table's address, or
   * `OutOfMemory` when the boot allocator runs out.
   */
  method CreateKernelAddressSpace(boot: BootAllocator, requestedSize: nat, kernelStart: nat,
                                  publicPhys: nat, publicSize: nat,
                                  imageBegin: nat, imageEnd: nat, publicAddress: nat)
    returns (r: Result<nat, OutOfMemory>, mem: PhysicalMemory?)
    requires boot.Valid() && boot.stop <= TABLE_LIMIT && boot.start + PAGE_SIZE - 1 < U64_LIMIT
    requires kernelStart < U64_LIMIT && imageBegin <= imageEnd && publicPhys % PAGE_SIZE == 0
    requires Layout(DirectMapSize(requestedSize), imageBegin, KernelSize(imageEnd - imageBegin, kernelStart),
                    publicAddress, publicSize)
    modifies boot
    ensures boot.Valid()
    ensures r.Ok? ==> r.value % PAGE_SIZE == 0 && old(boot.start) <= r.value < old(boot.start) + PAGE_SIZE
    ensures r.Ok? ==> mem != null && fresh(mem) && mem.Valid(r.value)
    ensures r.Ok? ==> MapsRange(mem.tables, r.value, HHDM_OFFSET, 0, PageRound(DirectMapSize(requestedSize)))
    ensures r.Ok? && AlignPageDown(kernelStart) + KernelSize(imageEnd - imageBegin, kernelStart) <= PHYS_LIMIT ==>
      MapsRange(mem.tables, r.value, imageBegin, AlignPageDown(kernelStart), PageRound(KernelSize(imageEnd - imageBegin, kernelStart)))
    ensures r.Ok? && publicPhys + publicSize <= PHYS_LIMIT ==>
      MapsRange(mem.tables, r.value, publicAddress, publicPhys, PageRound(publicSize))
  {
    var kernelSize := KernelSize(imageEnd - imageBegin, kernelStart);
    var kernelPhys := AlignPageDown(kernelStart);
    var directMap := DirectMapSize(requestedSize);
    PageSizeIsPowerOfTwo();
    var root := boot.Allocate(PAGE_SIZE, PAGE_SIZE);
    if root.Err? {
      return Err(root.error), null;
    }
    var l4 := root.value;
    mem := new PhysicalMemory(l4);
    var res := MapRegions(mem, Boot(boot), l4, directMap, kernelPhys, imageBegin, kernelSize, publicPhys, publicAddress, publicSize);
    if res.Err? {
      return Err(res.error), mem;
    }
    r := Ok(l4);
  }

  /**
   * The three `create_direct_map` calls of `create_kernel_address_space`
   * on the zeroed root table at `l4`: each region maps as it should, and
   * no later call disturbs an earlier region.
   */
  method MapRegions(mem: PhysicalMemory, src: PageSource, l4: nat, directMap: nat,
                    kernelPhys: nat, imageBegin: nat, kernelSize: nat,
                    publicPhys: nat, publicAddress: nat, publicSize: nat)
    returns (r: Result<(), OutOfMemory>)
    requires mem.Valid(l4) && mem.tables == map[l4 := Zeros()] && SourceOk(src, mem.tables.Keys)
    requires kernelPhys % PAGE_SIZE == 0 && publicPhys % PAGE_SIZE == 0
    requires Layout(directMap, imageBegin, kernelSize, publicAddress, publicSize)
    modifies mem, SourceObjects(src)
    ensures mem.Valid(l4) && SourceOk(src, mem.tables.Keys)
    ensures r.Ok? ==> MapsRange(mem.tables, l4, HHDM_OFFSET, 0, PageRound(directMap))
    ensures r.Ok? && kernelPhys + kernelSize <= PHYS_LIMIT ==> MapsRange(mem.tables, l4, imageBegin, kernelPhys, PageRound(kernelSize))
    ensures r.Ok? && publicPhys + publicSize <= PHYS_LIMIT ==> MapsRange(mem.tables, l4, publicAddress, publicPhys, PageRound(publicSize))
  {
    ghost var t0 := mem.tables;
    KernelFlags();
    ZeroRootNoHuge(l4, HHDM_OFFSET, directMap);
    ZeroRootNoHuge(l4, imageBegin, kernelSize);
    ZeroRootNoHuge(l4, publicAddress, publicSize);
    r := CreateDirectMap(mem, src, l4, 0, HHDM_OFFSET, directMap, KERNEL_FLAGS);
    if r.Err? {
      return;
    }

    ghost var t1 := mem.tables;
    NoHugeKept(t0, t1, l4, HHDM_OFFSET, directMap, imageBegin, kernelSize);
    NoHugeKept(t0, t1, l4, HHDM_OFFSET, directMap, publicAddress, publicSize);
    r := CreateDirectMap(mem, src, l4, kernelPhys, imageBegin, kernelSize, KERNEL_FLAGS);
    if r.Err? {
      return;
    }

    ghost var t2 := mem.tables;
    MapsKept(t1, t2, l4, imageBegin, kernelSize, HHDM_OFFSET, 0, directMap);
    NoHugeKept(t1, t2, l4, imageBegin, kernelSize, publicAddress, publicSize);
    r := CreateDirectMap(mem, src, l4, publicPhys, publicAddress, publicSize, PUBLIC_FLAGS);
    if r.Err? {
      return;
    }

    ghost var t3 := mem.tables;
    MapsKept(t2, t3, l4, publicAddress, publicSize, HHDM_OFFSET, 0, directMap);
    if kernelPhys + kernelSize <= PHYS_LIMIT {
      MapsKept(t2, t3, l4, publicAddress, publicSize, imageBegin, kernelPhys, kernelSize);
    }
  }
}
