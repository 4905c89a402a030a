/**
 * The page-table operations of `src/arch/x86_64/cpu/paging.rs`. Physical
 * memory is modelled by the tables it holds: a map from the page-aligned
 * physical address of each table to its 512 entries. The operations are
 * specified against the processor's translation, `PageEntry.Translate`,
 * under a well-formedness invariant of the tree (`TreeOk`) that ghost
 * state maintains: every table has a level, and every directory entry
 * names a table one level down that no other entry names.
 */
module Paging {
  import opened Bits
  import opened Prelude
  import opened Mem
  import opened BootAlloc
  import opened Tracker
  import opened PageEntry
  import opened PageTree
  import opened Utility

  const ONE_GIB: nat := 1024 * 1024 * 1024
  const TWO_MIB: nat := 1024 * 1024 * 2
  const FOUR_KIB: nat := 1024 * 4

  /** The physical memory holding the page tables. */
  class PhysicalMemory {
    /** The tables, by physical address. */
    var tables: Tables
    /** The level of each table: 4 for the root, 1 for a table of 4 KiB pages. */
    ghost var level: map<nat, nat>
    /** The directory slot naming each table. */
    ghost var parent: map<nat, (nat, nat)>

    ghost predicate Valid(l4: nat)
      reads this
    {
      TreeOk(tables, l4, level, parent)
    }

    /** Memory holding just the root table at `l4`, zeroed. */
    constructor (l4: nat)
      requires l4 % PAGE_SIZE == 0 && l4 < TABLE_LIMIT
      ensures Valid(l4) && tables == map[l4 := Zeros()]
    {
      tables := map[l4 := Zeros()];
      level := map[l4 := 4];
      parent := map[];
    }
  }

  /*
   * The page allocator handed to the mapping functions.
   */

  /**
   * The `alloc_page` closure: the boot allocator while the kernel address
   * space is built, the memory tracker in the system calls.
   */
  datatype PageSource = Boot(boot: BootAllocator) | Tracker(tracker: MemoryTracker)

  ghost function SourceObjects(src: PageSource): set<object>
  {
    match src
    case Boot(b) => {b}
    case Tracker(t) => {t, t.freePages}
  }

  /**
   * The source can hand out pages and none of them is in `used`: the boot
   * allocator's block lies above every used page, and no used page is on
   * the tracker's free list. Either way the pages lie below `TABLE_LIMIT`.
   */
  ghost predicate SourceOk(src: PageSource, used: set<nat>)
    reads SourceObjects(src)
  {
    match src
    case Boot(b) => b.Valid() && b.stop <= TABLE_LIMIT && forall a :: a in used ==> a < b.start
    case Tracker(t) =>
      t.Valid() && t.pageCount * PAGE_SIZE <= TABLE_LIMIT && forall a :: a in used ==> a / PAGE_SIZE !in t.FreeList()
  }

  /** The tracker's free list; the boot allocator keeps none. */
  ghost function FreeOf(src: PageSource): seq<nat>
    reads SourceObjects(src)
  {
    match src
    case Boot(_) => []
    case Tracker(t) => if t.Valid() then t.FreeList() else []
  }

  lemma PageSizeIsPowerOfTwo()
    ensures IsPowerOfTwo(PAGE_SIZE)
  {
    assert IsPowerOfTwo(1);
    assert IsPowerOfTwo(2);
    assert IsPowerOfTwo(4);
    assert IsPowerOfTwo(8);
    assert IsPowerOfTwo(16);
    assert IsPowerOfTwo(32);
    assert IsPowerOfTwo(64);
    assert IsPowerOfTwo(128);
    assert IsPowerOfTwo(256);
    assert IsPowerOfTwo(512);
    assert IsPowerOfTwo(1024);
    assert IsPowerOfTwo(2048);
  }

  /** Calls `alloc_page`: a page-aligned page that is not in `used`, or `OutOfMemory`. */
  method AllocPage(src: PageSource, ghost used: set<nat>) returns (r: Result<nat, OutOfMemory>)
    requires SourceOk(src, used)
    modifies SourceObjects(src)
    ensures r.Ok? ==> r.value !in used && r.value % PAGE_SIZE == 0 && r.value < TABLE_LIMIT
    ensures r.Ok? ==> SourceOk(src, used + {r.value})
    ensures r.Err? ==> SourceOk(src, used) && FreeOf(src) == []
    ensures FreeOf(src) <= old(FreeOf(src))
  {
    match src
    case Boot(b) =>
      PageSizeIsPowerOfTwo();
      r := b.Allocate(PAGE_SIZE, PAGE_SIZE);
    case Tracker(t) =>
      r := t.Allocate();
      if r.Ok? {
        forall a | a in used + {r.value} ensures a / PAGE_SIZE !in t.FreeList() {
          if a in used {
            assert a / PAGE_SIZE !in old(t.FreeList());
          }
        }
      }
  }

  /*
   * The table operations.
   */

  /**
   * The zero slot `index` of the directory at `t` gets the new table `p`,
   * zeroed, through the entry `p | PRESENT | flags`.
   */
  method AddDirectory(mem: PhysicalMemory, t: nat, index: nat, p: nat, flags: nat, ghost l4: nat)
    requires mem.Valid(l4) && t in mem.tables && mem.level[t] >= 2 && index < 512 && mem.tables[t][index] == 0
    requires p !in mem.tables && p % PAGE_SIZE == 0 && p < TABLE_LIMIT && IsMapFlags(flags)
    modifies mem
    ensures mem.Valid(l4) && mem.tables.Keys == old(mem.tables.Keys) + {p}
    ensures mem.tables == Write(old(mem.tables)[p := Zeros()], t, index, mem.tables[t][index])
    ensures EntryOf(mem.tables[t][index], p, flags, false)
    ensures Extends(old(mem.tables), old(mem.level), mem.tables, mem.level)
    ensures AgreeExcept(old(mem.tables), mem.tables, t, index)
    ensures SameTranslation(old(mem.tables), mem.tables, l4)
    ensures IsDirectoryEntry(mem.tables[t][index]) && Frame(mem.tables[t][index], 12) == p
    ensures EntryAddress(mem.tables[t][index]) == p && mem.level[p] + 1 == mem.level[t]
    ensures EntriesKept(old(mem.tables), mem.tables, l4)
  {
    var a := mem.tables;
    ghost var la, pa := mem.level, mem.parent;
    var b := Write(a[p := Zeros()], t, index, Or(p, Or(PRESENT, flags)));
    ghost var lb, pb := la[p := la[t] - 1], pa[p := (t, index)];
    AllocStep(a, l4, la, pa, t, index, p, flags);
    DirectoryKeepsEntries(a, b, l4, la, pa, t, index);
    mem.tables, mem.level, mem.parent := b, lb, pb;
  }

  /** `flags` fused into the used, non-huge slot `index` of the directory at `t`. */
  method FuseDirectory(mem: PhysicalMemory, t: nat, index: nat, flags: nat, ghost l4: nat)
    requires mem.Valid(l4) && t in mem.tables && mem.level[t] >= 2 && index < 512 && IsMapFlags(flags)
    requires mem.tables[t][index] != 0 && !Bit(mem.tables[t][index], 7)
    modifies mem
    ensures mem.Valid(l4) && mem.level == old(mem.level) && mem.tables.Keys == old(mem.tables.Keys)
    ensures mem.tables == Write(old(mem.tables), t, index, mem.tables[t][index])
    ensures Fused(old(mem.tables[t][index]), flags, mem.tables[t][index])
    ensures Frame(old(mem.tables[t][index]), 12) == EntryAddress(mem.tables[t][index])
    ensures Extends(old(mem.tables), old(mem.level), mem.tables, mem.level)
    ensures AgreeExcept(old(mem.tables), mem.tables, t, index)
    ensures SameTranslation(old(mem.tables), mem.tables, l4)
    ensures IsDirectoryEntry(mem.tables[t][index])
    ensures Frame(mem.tables[t][index], 12) == EntryAddress(mem.tables[t][index])
    ensures EntryAddress(mem.tables[t][index]) in mem.tables
    ensures mem.level[EntryAddress(mem.tables[t][index])] + 1 == mem.level[t]
    ensures EntriesKept(old(mem.tables), mem.tables, l4)
  {
    var a := mem.tables;
    ghost var la, pa := mem.level, mem.parent;
    var b := Write(a, t, index, FuseFlags(a[t][index], flags));
    FuseStep(a, l4, la, pa, t, index, flags, b);
    FuseEntry(a, l4, la, pa, t, index, flags, b);
    assert SameTranslation(a, b, l4);
    mem.tables := b;
  }

  /**
   * `directory_entry_mut`: the table named by slot `index` of the
   * directory at `t`. A zero slot gets a new table from `src`, zeroed, and
   * the entry `page | PRESENT | flags`; a used slot has `flags` fused into
   * it. Either way no translation changes.
   */
  method DirectoryEntryMut(mem: PhysicalMemory, src: PageSource, t: nat, index: nat, flags: nat, ghost l4: nat)
    returns (r: Result<nat, OutOfMemory>)
    requires mem.Valid(l4) && SourceOk(src, mem.tables.Keys)
    requires t in mem.tables && mem.level[t] >= 2 && index < 512 && IsMapFlags(flags)
    requires !Bit(mem.tables[t][index], 7)
    modifies mem, SourceObjects(src)
    ensures mem.Valid(l4) && SourceOk(src, mem.tables.Keys) && FreeOf(src) <= old(FreeOf(src))
    ensures Extends(old(mem.tables), old(mem.level), mem.tables, mem.level)
    ensures AgreeExcept(old(mem.tables), mem.tables, t, index)
    ensures SameTranslation(old(mem.tables), mem.tables, l4) && EntriesKept(old(mem.tables), mem.tables, l4)
    ensures old(mem.tables[t][index]) != 0 ==>
      && r.Ok?
      && mem.tables == Write(old(mem.tables), t, index, mem.tables[t][index])
      && Fused(old(mem.tables[t][index]), flags, mem.tables[t][index])
      && Frame(old(mem.tables[t][index]), 12) == r.value
    ensures old(mem.tables[t][index]) == 0 && r.Err? ==> mem.tables == old(mem.tables)
    ensures r.Err? ==> FreeOf(src) == []
    ensures old(mem.tables[t][index]) == 0 && r.Ok? ==>
      && r.value !in old(mem.tables)
      && mem.tables == Write(old(mem.tables)[r.value := Zeros()], t, index, mem.tables[t][index])
      && EntryOf(mem.tables[t][index], r.value, flags, false)
    ensures r.Ok? ==> r.value == EntryAddress(mem.tables[t][index])
    ensures r.Ok? ==> IsDirectoryEntry(mem.tables[t][index]) && Frame(mem.tables[t][index], 12) == r.value
    ensures r.Ok? ==> r.value in mem.tables && mem.level[r.value] + 1 == mem.level[t]
  {
    if mem.tables[t][index] == 0 {
      var page := AllocPage(src, mem.tables.Keys);
      if page.Err? {
        return Err(page.error);
      }
      AddDirectory(mem, t, index, page.value, flags, l4);
      r := Ok(page.value);
    } else {
      FuseDirectory(mem, t, index, flags, l4);
      r := Ok(EntryAddress(mem.tables[t][index]));
    }
  }

  /** `(virt >> shift) & 0o777`, the index the walk of `virt` uses at `level`. */
  function LevelIndex(virt: nat, level: nat): (i: nat)
    requires 1 <= level <= 4
    ensures i == LinearIndex(virt, level)
  {
    LinearIndexIsTableIndex(virt, level);
    TableIndex(virt, Shift(level))
  }

  /** An address aligned to a large page is aligned to a 4 KiB page. */
  lemma LargeAligned(x: nat, size: nat)
    requires (size == TWO_MIB || size == ONE_GIB) && x % size == 0
    ensures x % PAGE_SIZE == 0
  {
    var q := x / size;
    assert x == q * size;
    assert x == (q * (size / PAGE_SIZE)) * PAGE_SIZE;
  }

  lemma PageSizes()
    ensures Pow2(Shift(1)) == FOUR_KIB && Pow2(Shift(2)) == TWO_MIB && Pow2(Shift(3)) == ONE_GIB
  {
    Pow2Small();
    Pow2Nine(12, 21);
    Pow2Nine(21, 30);
  }

  /**
   * One `directory_entry_mut` call on the walk of `virt`: the level-`k`
   * table at `c`, reached by the walk, yields the level-`k - 1` table the
   * walk goes on to, which still meets no large page above level `m`.
   */
  method NextTable(mem: PhysicalMemory, src: PageSource, c: nat, index: nat, flags: nat,
                   ghost l4: nat, ghost virt: nat, ghost k: nat, ghost m: nat)
    returns (r: Result<nat, OutOfMemory>)
    requires mem.Valid(l4) && SourceOk(src, mem.tables.Keys) && IsMapFlags(flags)
    requires 1 <= m < k <= 4 && index == LinearIndex(virt, k)
    requires WalkTable(mem.tables, l4, 4, virt, k) == Some(c) && c in mem.tables && mem.level[c] == k
    requires NoHugeOnWalk(mem.tables, c, k, virt, m)
    modifies mem, SourceObjects(src)
    ensures mem.Valid(l4) && SourceOk(src, mem.tables.Keys) && FreeOf(src) <= old(FreeOf(src))
    ensures SameTranslation(old(mem.tables), mem.tables, l4)
    ensures r.Ok? ==> WalkTable(mem.tables, l4, 4, virt, k - 1) == Some(r.value)
    ensures r.Ok? ==> r.value in mem.tables && mem.level[r.value] == k - 1
    ensures r.Ok? ==> NoHugeOnWalk(mem.tables, r.value, k - 1, virt, m)
    ensures r.Err? ==> FreeOf(src) == []
    ensures NoHugeKept(old(mem.tables), mem.tables, l4)
    ensures EntriesKept(old(mem.tables), mem.tables, l4)
  {
    ghost var a, la, pa := mem.tables, mem.level, mem.parent;
    r := DirectoryEntryMut(mem, src, c, index, flags, l4);
    if r.Ok? {
      Descend(a, la, pa, mem.tables, mem.level, mem.parent, l4, virt, c, k, m, r.value);
    }
  }

  /**
   * The leaf `phys | PRESENT | flags` (with `HUGE` above level 1) written
   * to slot `index` of the level-`m` table at `c` that the walk of `virt`
   * reaches: the slot's addresses now translate to `phys` plus their
   * offset, and no other address changes.
   */
  method SetLeaf(mem: PhysicalMemory, c: nat, index: nat, phys: nat, flags: nat, huge: bool,
                 ghost src: PageSource, ghost l4: nat, ghost virt: nat, ghost m: nat)
    requires mem.Valid(l4) && SourceOk(src, mem.tables.Keys) && 1 <= m <= 3 && (huge <==> m > 1) && index == LinearIndex(virt, m)
    requires WalkTable(mem.tables, l4, 4, virt, m) == Some(c) && c in mem.tables && mem.level[c] == m
    requires phys % Pow2(Shift(m)) == 0 && phys % PAGE_SIZE == 0 && IsMapFlags(flags)
    modifies mem
    ensures mem.Valid(l4) && SourceOk(src, mem.tables.Keys) && mem.tables.Keys == old(mem.tables.Keys)
    ensures FreeOf(src) == old(FreeOf(src))
    ensures mem.tables == Write(old(mem.tables), c, index, mem.tables[c][index])
    ensures WalkEntry(mem.tables, l4, virt, m) == Some(mem.tables[c][index])
    ensures EntryOf(mem.tables[c][index], phys, flags, huge) && Bit(mem.tables[c][index], 0)
    ensures SameOutside(old(mem.tables), mem.tables, l4, virt, m)
    ensures phys < PHYS_LIMIT ==> MapsSlot(mem.tables, l4, virt, m, phys)
    ensures NoHugeKeptOutside(old(mem.tables), mem.tables, l4, virt, m)
    ensures m == 1 ==> EntriesKeptOutside(old(mem.tables), mem.tables, l4, virt)
  {
    var a := mem.tables;
    ghost var la, pa := mem.level, mem.parent;
    var b := Write(a, c, index, LeafEntry(phys, flags, huge));
    assert b.Keys == a.Keys;
    mem.tables := b;
    assert SourceOk(src, mem.tables.Keys);
    MapLeaf(a, b, l4, la, pa, virt, m, c, phys, flags, huge);
    LeafKeepsNoHuge(a, b, l4, la, pa, virt, m, c, LeafEntry(phys, flags, huge));
    if m == 1 {
      LeafKeepsMapped(a, b, l4, la, pa, virt, c, LeafEntry(phys, flags, huge));
    }
    if phys < PHYS_LIMIT {
      MapLeafTranslates(a, b, l4, la, pa, virt, m, c, phys, flags, huge);
    }
  }

  /**
   * `map_4kib`: maps the 4 KiB page at `virt` to `phys`, adding the
   * missing tables on the way. On success the 4 KiB slot of `virt`
   * translates to `phys` and no other address changes; on `OutOfMemory`
   * no translation changes (tables added so far stay, empty).
   */
  method Map4KiB(mem: PhysicalMemory, src: PageSource, l4: nat, virt: nat, phys: nat, flags: nat)
    returns (r: Result<(), OutOfMemory>)
    requires mem.Valid(l4) && SourceOk(src, mem.tables.Keys)
    requires phys % FOUR_KIB == 0 && virt % FOUR_KIB == 0 && IsMapFlags(flags)
    requires NoHugeOnWalk(mem.tables, l4, 4, virt, 1)
    modifies mem, SourceObjects(src)
    ensures mem.Valid(l4) && SourceOk(src, mem.tables.Keys)
    ensures FreeOf(src) <= old(FreeOf(src))
    ensures SameOutside(old(mem.tables), mem.tables, l4, virt, 1)
    ensures r.Err? ==> SameTranslation(old(mem.tables), mem.tables, l4) && FreeOf(src) == []
    ensures r.Ok? ==> LeafIs(mem.tables, l4, virt, phys, flags)
    ensures r.Ok? && phys < PHYS_LIMIT ==> MapsSlot(mem.tables, l4, virt, 1, phys)
    ensures NoHugeKeptOutside(old(mem.tables), mem.tables, l4, virt, 1)
    ensures EntriesKeptOutside(old(mem.tables), mem.tables, l4, virt)
    ensures r.Ok? ==> Mapped4KiB(mem.tables, l4, virt)
  {
    var l4Index, l3Index, l2Index, l1Index := LevelIndex(virt, 4), LevelIndex(virt, 3), LevelIndex(virt, 2), LevelIndex(virt, 1);
    PageSizes();
    ghost var free0, t0 := FreeOf(src), mem.tables;
    var l3 := NextTable(mem, src, l4, l4Index, flags, l4, virt, 4, 1);
    if l3.Err? {
      return Err(l3.error);
    }
    assert FreeOf(src) <= free0;
    ghost var t3 := mem.tables;
    var l2 := NextTable(mem, src, l3.value, l3Index, flags, l4, virt, 3, 1);
    EntriesKeptThen(t0, t3, mem.tables, l4, virt);
    if l2.Err? {
      return Err(l2.error);
    }
    assert FreeOf(src) <= free0;
    ghost var t2 := mem.tables;
    var l1 := NextTable(mem, src, l2.value, l2Index, flags, l4, virt, 2, 1);
    EntriesKeptThen(t0, t2, mem.tables, l4, virt);
    if l1.Err? {
      return Err(l1.error);
    }
    assert FreeOf(src) <= free0;
    ghost var t1 := mem.tables;
    SetLeaf(mem, l1.value, l1Index, phys, flags, false, src, l4, virt, 1);
    EntriesKeptThen(t0, t1, mem.tables, l4, virt);
    r := Ok(());
  }

  /**
   * `map_2mib`: maps the 2 MiB page at `virt` to `phys` through a huge
   * entry in a level-2 table, adding the missing tables on the way.
   */
  method Map2MiB(mem: PhysicalMemory, src: PageSource, l4: nat, virt: nat, phys: nat, flags: nat)
    returns (r: Result<(), OutOfMemory>)
    requires mem.Valid(l4) && SourceOk(src, mem.tables.Keys)
    requires phys % TWO_MIB == 0 && virt % TWO_MIB == 0 && IsMapFlags(flags)
    requires NoHugeOnWalk(mem.tables, l4, 4, virt, 2)
    modifies mem, SourceObjects(src)
    ensures mem.Valid(l4) && SourceOk(src, mem.tables.Keys)
    ensures SameOutside(old(mem.tables), mem.tables, l4, virt, 2)
    ensures r.Err? ==> SameTranslation(old(mem.tables), mem.tables, l4) && FreeOf(src) == []
    ensures r.Ok? ==> WalkEntry(mem.tables, l4, virt, 2).Some? && EntryOf(WalkEntry(mem.tables, l4, virt, 2).value, phys, flags, true)
    ensures r.Ok? && phys < PHYS_LIMIT ==> MapsSlot(mem.tables, l4, virt, 2, phys)
    ensures NoHugeKeptOutside(old(mem.tables), mem.tables, l4, virt, 2)
  {
    var l4Index, l3Index, l2Index := LevelIndex(virt, 4), LevelIndex(virt, 3), LevelIndex(virt, 2);
    PageSizes();
    LargeAligned(phys, TWO_MIB);
    var l3 := NextTable(mem, src, l4, l4Index, flags, l4, virt, 4, 2);
    if l3.Err? {
      return Err(l3.error);
    }
    var l2 := NextTable(mem, src, l3.value, l3Index, flags, l4, virt, 3, 2);
    if l2.Err? {
      return Err(l2.error);
    }
    SetLeaf(mem, l2.value, l2Index, phys, flags, true, src, l4, virt, 2);
    r := Ok(());
  }

  /**
   * `map_1gib`: maps the 1 GiB page at `virt` to `phys` through a huge
   * entry in a level-3 table, adding that table if it is missing. The root
   * never holds a huge entry, so nothing is asked of the walk.
   */
  method Map1GiB(mem: PhysicalMemory, src: PageSource, l4: nat, virt: nat, phys: nat, flags: nat)
    returns (r: Result<(), OutOfMemory>)
    requires mem.Valid(l4) && SourceOk(src, mem.tables.Keys)
    requires phys % ONE_GIB == 0 && virt % ONE_GIB == 0 && IsMapFlags(flags)
    modifies mem, SourceObjects(src)
    ensures mem.Valid(l4) && SourceOk(src, mem.tables.Keys)
    ensures SameOutside(old(mem.tables), mem.tables, l4, virt, 3)
    ensures r.Err? ==> SameTranslation(old(mem.tables), mem.tables, l4) && FreeOf(src) == []
    ensures r.Ok? ==> WalkEntry(mem.tables, l4, virt, 3).Some? && EntryOf(WalkEntry(mem.tables, l4, virt, 3).value, phys, flags, true)
    ensures r.Ok? && phys < PHYS_LIMIT ==> MapsSlot(mem.tables, l4, virt, 3, phys)
    ensures NoHugeKeptOutside(old(mem.tables), mem.tables, l4, virt, 3)
  {
    var l4Index, l3Index := LevelIndex(virt, 4), LevelIndex(virt, 3);
    PageSizes();
    LargeAligned(phys, ONE_GIB);
    RootNotHuge(mem.tables, l4, mem.level, mem.parent, virt);
    var l3 := NextTable(mem, src, l4, l4Index, flags, l4, virt, 4, 3);
    if l3.Err? {
      return Err(l3.error);
    }
    SetLeaf(mem, l3.value, l3Index, phys, flags, true, src, l4, virt, 3);
    r := Ok(());
  }

  /**
   * `try_directory_entry_mut`: the table named by slot `index` of the
   * table at `t`, or `None` when the entry is not present or maps a large
   * page.
   */
  function TryDirectoryEntry(tables: Tables, t: nat, index: nat): (r: Option<nat>)
    requires t in tables && index < |tables[t]|
    ensures r.None? <==> !Bit(tables[t][index], 0) || Bit(tables[t][index], 7)
    ensures r.Some? ==> r.value == EntryAddress(tables[t][index])
  {
    var e := tables[t][index];
    FlagTest(e, 0);
    FlagTest(e, 7);
    if And(e, PRESENT) == 0 then None
    else if And(e, HUGE) != 0 then None
    else Some(EntryAddress(e))
  }

  /**
   * On a well-formed tree `try_directory_entry_mut` follows the
   * processor's walk: from the level-`k` table the walk of `virt`
   * reaches, it yields the level-`k - 1` table the walk goes on to, and
   * `None` exactly where the walk stops.
   */
  lemma TryDirectoryEntryWalks(tables: Tables, l4: nat, level: map<nat, nat>, parent: map<nat, (nat, nat)>, virt: nat, k: nat, c: nat)
    requires TreeOk(tables, l4, level, parent) && 2 <= k <= 4
    requires WalkTable(tables, l4, 4, virt, k) == Some(c) && c in tables && level[c] == k
    ensures TryDirectoryEntry(tables, c, LinearIndex(virt, k)) == WalkTable(tables, l4, 4, virt, k - 1)
    ensures TryDirectoryEntry(tables, c, LinearIndex(virt, k)).Some? ==>
      var d := TryDirectoryEntry(tables, c, LinearIndex(virt, k)).value; d in tables && level[d] == k - 1
  {
    var i := LinearIndex(virt, k);
    WalkStep(tables, l4, 4, virt, k);
    var e := tables[c][i];
    assert SlotOk(tables, level, parent, c, i);
    if Bit(e, 0) && !Bit(e, 7) {
      DirectoryAddress(e);
    }
  }

  /** Slot `index` of the level-1 table at `c` that the walk of `virt` reaches, zeroed. */
  method ClearLeaf(mem: PhysicalMemory, c: nat, index: nat, ghost l4: nat, ghost virt: nat)
    requires mem.Valid(l4) && index == LinearIndex(virt, 1)
    requires WalkTable(mem.tables, l4, 4, virt, 1) == Some(c) && c in mem.tables && mem.level[c] == 1
    modifies mem
    ensures mem.Valid(l4) && mem.tables == Write(old(mem.tables), c, index, 0)
    ensures SameOutside(old(mem.tables), mem.tables, l4, virt, 1)
    ensures MapsNothing(mem.tables, l4, virt, 1) && !Mapped4KiB(mem.tables, l4, virt)
    ensures MappedKeptOutside(old(mem.tables), mem.tables, l4, virt)
  {
    var a := mem.tables;
    ghost var la, pa := mem.level, mem.parent;
    var b := Write(a, c, index, 0);
    UnmapLeaf(a, b, l4, la, pa, virt, c);
    mem.tables := b;
  }

  /**
   * `unmap_4kib`: clears the 4 KiB entry of `virt`. It fails, changing
   * nothing, exactly when `virt` is not mapped by a present 4 KiB entry;
   * otherwise it zeroes that entry, so that the slot's addresses no
   * longer translate and no other address changes.
   */
  method Unmap4KiB(mem: PhysicalMemory, l4: nat, virt: nat) returns (r: Result<(), ()>)
    requires mem.Valid(l4) && virt % FOUR_KIB == 0
    modifies mem
    ensures mem.Valid(l4)
    ensures r.Err? ==> !old(Mapped4KiB(mem.tables, l4, virt)) && mem.tables == old(mem.tables)
    ensures r.Ok? <==> old(Mapped4KiB(mem.tables, l4, virt))
    ensures r.Ok? ==> old(WalkTable(mem.tables, l4, 4, virt, 1)).Some? && old(WalkTable(mem.tables, l4, 4, virt, 1)).value in old(mem.tables)
    ensures r.Ok? ==> mem.tables == Write(old(mem.tables), old(WalkTable(mem.tables, l4, 4, virt, 1)).value, LinearIndex(virt, 1), 0)
    ensures SameOutside(old(mem.tables), mem.tables, l4, virt, 1)
    ensures r.Ok? ==> MapsNothing(mem.tables, l4, virt, 1)
    ensures !Mapped4KiB(mem.tables, l4, virt)
    ensures MappedKeptOutside(old(mem.tables), mem.tables, l4, virt)
  {
    var a := mem.tables;
    var l1Index := LevelIndex(virt, 1);
    var l1 := LeafTable(mem, l4, virt);
    if l1.None? {
      return Err(());
    }
    FlagTest(a[l1.value][l1Index], 0);
    if And(a[l1.value][l1Index], PRESENT) == 0 {
      return Err(());
    }
    ClearLeaf(mem, l1.value, l1Index, l4, virt);
    r := Ok(());
  }

  /**
   * The walk of `unmap_4kib` down to the level-1 table of `virt`, through
   * `try_directory_entry_mut` at levels 4, 3 and 2: that table, or `None`
   * where the processor's walk stops, and then `virt` is not mapped by a
   * 4 KiB entry.
   */
  method LeafTable(mem: PhysicalMemory, l4: nat, virt: nat) returns (l1: Option<nat>)
    requires mem.Valid(l4)
    ensures l1 == WalkTable(mem.tables, l4, 4, virt, 1)
    ensures l1.Some? ==> l1.value in mem.tables && mem.level[l1.value] == 1 && LinearIndex(virt, 1) < |mem.tables[l1.value]|
    ensures l1.None? ==> !Mapped4KiB(mem.tables, l4, virt)
  {
    var a := mem.tables;
    ghost var la, pa := mem.level, mem.parent;
    var l4Index, l3Index, l2Index := LevelIndex(virt, 4), LevelIndex(virt, 3), LevelIndex(virt, 2);
    TryDirectoryEntryWalks(a, l4, la, pa, virt, 4, l4);
    var l3 := TryDirectoryEntry(a, l4, l4Index);
    if l3.None? {
      NotMappedBelow(a, l4, virt, 3);
      WalkStopped(a, l4, 4, virt, 3);
      WalkStopped(a, l4, 4, virt, 2);
      return None;
    }
    TryDirectoryEntryWalks(a, l4, la, pa, virt, 3, l3.value);
    var l2 := TryDirectoryEntry(a, l3.value, l3Index);
    if l2.None? {
      NotMappedBelow(a, l4, virt, 2);
      WalkStopped(a, l4, 4, virt, 2);
      return None;
    }
    TryDirectoryEntryWalks(a, l4, la, pa, virt, 2, l2.value);
    l1 := TryDirectoryEntry(a, l2.value, l2Index);
    if l1.None? {
      NotMappedBelow(a, l4, virt, 1);
    }
  }

  /*
   * The direct map.
   */

  /** One page `create_direct_map` maps: with `map_1gib` (level 3), `map_2mib` (level 2) or `map_4kib` (level 1). */
  datatype Page = Page(virt: nat, phys: nat, level: nat)

  /** The bytes a page of `level` covers. */
  function PageBytes(level: nat): (n: nat)
    ensures n % FOUR_KIB == 0 && n >= FOUR_KIB
  {
    if level == 3 then ONE_GIB else if level == 2 then TWO_MIB else FOUR_KIB
  }

  /**
   * The page size one round of the loop picks with `size` bytes left: the
   * largest that fits in `size` and that both addresses are aligned to.
   */
  function StepLevel(phys: nat, virt: nat, size: nat): (m: nat)
    ensures 1 <= m <= 3
    ensures m > 1 ==> size >= PageBytes(m) && phys % PageBytes(m) == 0 && virt % PageBytes(m) == 0
    ensures m < 3 ==> !(size >= ONE_GIB && phys % ONE_GIB == 0 && virt % ONE_GIB == 0)
    ensures m < 2 ==> !(size >= TWO_MIB && phys % TWO_MIB == 0 && virt % TWO_MIB == 0)
  {
    if size >= ONE_GIB && phys % ONE_GIB == 0 && virt % ONE_GIB == 0 then 3
    else if size >= TWO_MIB && phys % TWO_MIB == 0 && virt % TWO_MIB == 0 then 2
    else 1
  }

  /**
   * The pages the loop of `create_direct_map` maps, as written: a 4 KiB
   * page with at most 4 KiB left ends it, but a large page that leaves
   * nothing does not, so the next round maps a 4 KiB page more.
   */
  function DirectMapLoopAsWritten(phys: nat, virt: nat, size: nat): seq<Page>
    decreases size
  {
    var m := StepLevel(phys, virt, size);
    if m == 1 && size <= FOUR_KIB then [Page(virt, phys, 1)]
    else [Page(virt, phys, m)] + DirectMapLoopAsWritten(phys + PageBytes(m), virt + PageBytes(m), size - PageBytes(m))
  }

  /** `create_direct_map` as written: nothing for an empty region, else the loop. */
  function DirectMapAsWritten(phys: nat, virt: nat, size: nat): seq<Page>
  {
    if size == 0 then [] else DirectMapLoopAsWritten(phys, virt, size)
  }

  /** The pages `create_direct_map` is meant to map: the loop stops as soon as no byte is left. */
  function DirectMapPages(phys: nat, virt: nat, size: nat): seq<Page>
    decreases size
  {
    if size == 0 then []
    else
      var m := StepLevel(phys, virt, size);
      if m == 1 && size <= FOUR_KIB then [Page(virt, phys, 1)]
      else [Page(virt, phys, m)] + DirectMapPages(phys + PageBytes(m), virt + PageBytes(m), size - PageBytes(m))
  }

  /** The bytes a run of pages covers. */
  function Span(pages: seq<Page>): nat
  {
    if pages == [] then 0 else PageBytes(pages[0].level) + Span(pages[1..])
  }

  lemma {:induction false} SpanConcat(a: seq<Page>, b: seq<Page>)
    ensures Span(a + b) == Span(a) + Span(b)
  {
    if a == [] {
      assert a + b == b;
    } else {
      assert (a + b)[1..] == a[1..] + b;
      SpanConcat(a[1..], b);
    }
  }

  /** The pages of a region follow each other from `virt` (and from `phys`), each aligned to its own size. */
  ghost predicate Tiles(pages: seq<Page>, phys: nat, virt: nat)
  {
    forall i :: 0 <= i < |pages| ==>
      && 1 <= pages[i].level <= 3
      && pages[i].virt == virt + Span(pages[..i])
      && pages[i].phys == phys + Span(pages[..i])
      && pages[i].virt % PageBytes(pages[i].level) == 0
      && pages[i].phys % PageBytes(pages[i].level) == 0
  }

  lemma SumOfPages(x: nat, y: nat)
    requires x % FOUR_KIB == 0 && y % FOUR_KIB == 0
    ensures (x + y) % FOUR_KIB == 0
  {
    assert x + y == (x / FOUR_KIB + y / FOUR_KIB) * FOUR_KIB;
  }

  /** The pages of `DirectMapPages` cover `size` rounded up to a multiple of 4 KiB: every byte of the region and less than a page more. */
  lemma {:induction false} DirectMapSpan(phys: nat, virt: nat, size: nat)
    ensures var n := Span(DirectMapPages(phys, virt, size));
      n % FOUR_KIB == 0 && size <= n < size + FOUR_KIB
    decreases size
  {
    if size != 0 {
      var m := StepLevel(phys, virt, size);
      var b := PageBytes(m);
      if !(m == 1 && size <= FOUR_KIB) {
        var rest := DirectMapPages(phys + b, virt + b, size - b);
        var pages := [Page(virt, phys, m)] + rest;
        assert DirectMapPages(phys, virt, size) == pages;
        assert pages[1..] == rest;
        assert Span(pages) == b + Span(rest);
        DirectMapSpan(phys + b, virt + b, size - b);
        SumOfPages(b, Span(rest));
      }
    }
  }

  /** The pages of `DirectMapPages` follow each other from the start of the region, each aligned to its own size. */
  lemma {:induction false} DirectMapTiles(phys: nat, virt: nat, size: nat)
    requires phys % FOUR_KIB == 0 && virt % FOUR_KIB == 0
    ensures Tiles(DirectMapPages(phys, virt, size), phys, virt)
    decreases size
  {
    if size != 0 {
      var m := StepLevel(phys, virt, size);
      var b := PageBytes(m);
      var first := Page(virt, phys, m);
      if m == 1 && size <= FOUR_KIB {
        assert DirectMapPages(phys, virt, size) == [first] + [];
        TilesCons(first, [], phys, virt);
      } else {
        var rest := DirectMapPages(phys + b, virt + b, size - b);
        assert DirectMapPages(phys, virt, size) == [first] + rest;
        SumOfPages(phys, b);
        SumOfPages(virt, b);
        DirectMapTiles(phys + b, virt + b, size - b);
        TilesCons(first, rest, phys, virt);
      }
    }
  }

  /** A page aligned to its size at the start, followed by pages that tile on from its end, tiles from the start. */
  lemma TilesCons(first: Page, rest: seq<Page>, phys: nat, virt: nat)
    requires first.virt == virt && first.phys == phys && 1 <= first.level <= 3
    requires virt % PageBytes(first.level) == 0 && phys % PageBytes(first.level) == 0
    requires Tiles(rest, phys + PageBytes(first.level), virt + PageBytes(first.level))
    ensures Tiles([first] + rest, phys, virt)
  {
    var pages := [first] + rest;
    forall i | 0 <= i < |pages|
      ensures pages[i].virt == virt + Span(pages[..i]) && pages[i].phys == phys + Span(pages[..i])
    {
      if i == 0 {
        assert pages[..i] == [];
      } else {
        assert pages[i] == rest[i - 1];
        assert pages[..i] == [first] + rest[..i - 1];
        SpanCons(first, rest[..i - 1]);
      }
    }
  }

  /** A page in front adds its bytes to the span. */
  lemma SpanCons(first: Page, s: seq<Page>)
    ensures Span([first] + s) == PageBytes(first.level) + Span(s)
  {
    assert ([first] + s)[1..] == s;
  }

  /**
   * Whenever the region is a non-empty multiple of 2 MiB at addresses
   * aligned to 2 MiB, the loop as written maps the intended pages and one
   * 4 KiB page more, just past the end of the region.
   */
  lemma {:induction false} DirectMapAsWrittenOvershoots(phys: nat, virt: nat, size: nat)
    requires size > 0 && size % TWO_MIB == 0 && phys % TWO_MIB == 0 && virt % TWO_MIB == 0
    ensures DirectMapAsWritten(phys, virt, size) == DirectMapPages(phys, virt, size) + [Page(virt + size, phys + size, 1)]
    decreases size
  {
    var m := StepLevel(phys, virt, size);
    var b := PageBytes(m);
    assert m >= 2;
    var first := Page(virt, phys, m);
    var last := Page(virt + size, phys + size, 1);
    var rest := DirectMapPages(phys + b, virt + b, size - b);
    assert DirectMapPages(phys, virt, size) == [first] + rest;
    assert DirectMapLoopAsWritten(phys, virt, size) == [first] + DirectMapLoopAsWritten(phys + b, virt + b, size - b);
    if size == b {
      assert DirectMapLoopAsWritten(phys + b, virt + b, 0) == [last];
      assert rest == [];
    } else {
      TwoMiBSteps(phys, virt, size, b);
      DirectMapAsWrittenOvershoots(phys + b, virt + b, size - b);
    }
  }

  /** In that case the loop as written covers 4 KiB more than the region. */
  lemma DirectMapAsWrittenSpan(phys: nat, virt: nat, size: nat)
    requires size > 0 && size % TWO_MIB == 0 && phys % TWO_MIB == 0 && virt % TWO_MIB == 0
    ensures Span(DirectMapAsWritten(phys, virt, size)) == size + FOUR_KIB
  {
    var last := Page(virt + size, phys + size, 1);
    var pages := DirectMapPages(phys, virt, size);
    DirectMapAsWrittenOvershoots(phys, virt, size);
    DirectMapSpan(phys, virt, size);
    LargeAligned(size, TWO_MIB);
    OneMultiple(size, Span(pages));
    SpanConcat(pages, [last]);
    assert [last][1..] == [];
    assert Span([last]) == FOUR_KIB;
  }

  /** A 1 GiB or 2 MiB step keeps addresses and size multiples of 2 MiB. */
  lemma TwoMiBSteps(phys: nat, virt: nat, size: nat, b: nat)
    requires size % TWO_MIB == 0 && phys % TWO_MIB == 0 && virt % TWO_MIB == 0
    requires (b == TWO_MIB || b == ONE_GIB) && b <= size
    ensures (size - b) % TWO_MIB == 0 && (phys + b) % TWO_MIB == 0 && (virt + b) % TWO_MIB == 0
  {
    assert ONE_GIB == 512 * TWO_MIB;
  }

  /** The direct map of the first 2 MiB maps a 4 KiB page at 2 MiB as well, 2 MiB and 4 KiB in all. */
  lemma DirectMapAsWrittenExample()
    ensures DirectMapAsWritten(0, 0, TWO_MIB) == [Page(0, 0, 2), Page(TWO_MIB, TWO_MIB, 1)]
    ensures Span(DirectMapAsWritten(0, 0, TWO_MIB)) == TWO_MIB + FOUR_KIB
  {
    DirectMapAsWrittenOvershoots(0, 0, TWO_MIB);
    DirectMapAsWrittenSpan(0, 0, TWO_MIB);
    assert DirectMapPages(TWO_MIB, TWO_MIB, 0) == [];
  }

  /*
   * What the direct map does to translation.
   */

  /** Bits 48 to 63 of an address select a window of `WINDOW` bytes; the walk reads only the bits below. */
  const WINDOW: nat := 0x1_0000_0000_0000

  /** Every address of `[virt, virt + len)` translates to the same offset from `phys`. */
  ghost predicate MapsRange(tables: Tables, l4: nat, virt: nat, phys: nat, len: nat)
  {
    forall v :: virt <= v < virt + len ==> Translate(tables, l4, v) == Some(phys + (v - virt))
  }

  /** The walks of the addresses of `[lo, hi)` meet no large page above level 1. */
  ghost predicate NoHugeIn(tables: Tables, l4: nat, lo: nat, hi: nat)
  {
    forall v :: lo <= v < hi ==> NoHugeOnWalk(tables, l4, 4, v, 1)
  }

  /** Every address of the window of `lo` outside `[lo, hi)` translates in `b` as in `a`. */
  ghost predicate SameBeside(a: Tables, b: Tables, l4: nat, lo: nat, hi: nat)
  {
    forall v :: v / WINDOW == lo / WINDOW && !(lo <= v < hi) ==> Translate(b, l4, v) == Translate(a, l4, v)
  }

  /** No address of the window of `lo` outside `[lo, hi)` meets a large page in `b` that it did not meet in `a`. */
  ghost predicate NoHugeBeside(a: Tables, b: Tables, l4: nat, lo: nat, hi: nat)
  {
    forall v :: v / WINDOW == lo / WINDOW && !(lo <= v < hi) && NoHugeOnWalk(a, l4, 4, v, 1) ==> NoHugeOnWalk(b, l4, 4, v, 1)
  }

  /** The addresses of a range that fits in the window of its start all lie in that window. */
  lemma InWindow(v: nat, lo: nat, hi: nat)
    requires lo <= v < hi && lo % WINDOW + (hi - lo) <= WINDOW
    ensures v / WINDOW == lo / WINDOW
  {
  }

  /** Rounding `size` up to a page keeps a region that fits below `limit`, a multiple of 4 KiB, below it. */
  lemma RoundedFits(start: nat, size: nat, n: nat, limit: nat)
    requires start % FOUR_KIB == 0 && limit % FOUR_KIB == 0 && n % FOUR_KIB == 0
    requires size <= n < size + FOUR_KIB && start + size <= limit
    ensures start + n <= limit
  {
    SumOfPages(start, n);
  }

  /** A 4 KiB aligned address is 4 KiB aligned within its window. */
  lemma WindowOffset(virt: nat)
    requires virt % FOUR_KIB == 0
    ensures (virt % WINDOW) % FOUR_KIB == 0
  {
    var q := virt / WINDOW;
    assert virt % WINDOW == virt - q * (FOUR_KIB * 0x10_0000_0000);
  }

  /** The region the plan covers stays in the window of `virt`, and below the physical limit when `size` bytes do. */
  lemma RegionFits(phys: nat, virt: nat, size: nat, n: nat)
    requires phys % FOUR_KIB == 0 && virt % FOUR_KIB == 0 && virt % WINDOW + size <= WINDOW
    requires n == Span(DirectMapPages(phys, virt, size))
    ensures virt % WINDOW + n <= WINDOW
    ensures phys + size <= PHYS_LIMIT ==> phys + n <= PHYS_LIMIT
  {
    DirectMapSpan(phys, virt, size);
    WindowOffset(virt);
    RoundedFits(virt % WINDOW, size, n, WINDOW);
    if phys + size <= PHYS_LIMIT {
      RoundedFits(phys, size, n, PHYS_LIMIT);
    }
  }

  /** A page never straddles two windows. */
  lemma PageInWindow(v: nat, w: nat, b: nat)
    requires (b == FOUR_KIB || b == TWO_MIB || b == ONE_GIB) && w % b == 0 && w <= v < w + b
    ensures v / WINDOW == w / WINDOW && v % b == v - w && v / b == w / b
  {
    var k := WINDOW / b;
    assert b * k == WINDOW;
    SamePage(v, w, b);
    DivMod2(v, b, k);
    DivMod2(w, b, k);
  }

  /** The addresses of the block of `b` bytes at the multiple `w` of `b` share its quotient, at their distance from `w`. */
  lemma SamePage(v: nat, w: nat, b: nat)
    requires b > 0 && w % b == 0 && w <= v < w + b
    ensures v / b == w / b && v % b == v - w
  {
    DivModOf(w, b);
    DivModUnique(v, b, w / b, v - w);
  }

  /** The window is `Pow2(48)` bytes. */
  lemma WindowBytes()
    ensures Pow2(48) == WINDOW
  {
    Pow2Small();
    Pow2Nine(12, 21);
    Pow2Nine(21, 30);
    Pow2Nine(30, 39);
    Pow2Nine(39, 48);
  }

  /** The page of level `m` spans `Pow2(Shift(m))` bytes. */
  lemma SlotBytes(m: nat)
    requires 1 <= m <= 3
    ensures Pow2(Shift(m)) == PageBytes(m)
  {
    Pow2Small();
    if m > 1 {
      Pow2Nine(12, 21);
      if m > 2 {
        Pow2Nine(21, 30);
      }
    }
  }

  /** The level-`m` slot of a page-aligned `w` holds the addresses of the page at `w`, at their distance from `w`. */
  lemma InBlock(v: nat, w: nat, m: nat)
    requires 1 <= m <= 3 && w % PageBytes(m) == 0 && w <= v < w + PageBytes(m)
    ensures SameSlot(v, w, m) && v % Pow2(Shift(m)) == v - w
  {
    PageInWindow(v, w, PageBytes(m));
    SlotBytes(m);
    WindowBytes();
    SlotsInWindow(v, w, m);
  }

  /** An address outside the block of `b` bytes at the multiple `w` of `b` has another quotient by `b`. */
  lemma DifferentPages(v: nat, w: nat, b: nat)
    requires b > 0 && w % b == 0 && (v < w || w + b <= v)
    ensures v / b != w / b
  {
    DivModOf(v, b);
    DivModOf(w, b);
  }

  /** An address of the same window outside the page at `w` is outside its slot. */
  lemma OutBlock(v: nat, w: nat, m: nat)
    requires 1 <= m <= 3 && w % PageBytes(m) == 0 && v / WINDOW == w / WINDOW
    requires v < w || w + PageBytes(m) <= v
    ensures !SameSlot(v, w, m)
  {
    var b := PageBytes(m);
    SlotBytes(m);
    WindowBytes();
    DifferentPages(v, w, b);
    SlotsInWindow(v, w, m);
  }

  /**
   * Mapping the page at `virt` right after `[virt0, virt)` extends the
   * range that translates at the same offset by that page.
   */
  lemma RangeStep(a: Tables, b: Tables, l4: nat, virt0: nat, phys0: nat, virt: nat, phys: nat, m: nat)
    requires 1 <= m <= 3 && virt0 <= virt && virt - virt0 == phys - phys0 && virt % PageBytes(m) == 0
    requires virt0 % WINDOW + (virt + PageBytes(m) - virt0) <= WINDOW
    requires MapsRange(a, l4, virt0, phys0, virt - virt0)
    requires SameOutside(a, b, l4, virt, m) && MapsSlot(b, l4, virt, m, phys)
    ensures MapsRange(b, l4, virt0, phys0, virt + PageBytes(m) - virt0)
  {
    forall v | virt0 <= v < virt + PageBytes(m) ensures Translate(b, l4, v) == Some(phys0 + (v - virt0)) {
      RangePoint(a, b, l4, virt0, phys0, virt, phys, m, v);
    }
  }

  /** One address of the extended range of `RangeStep`. */
  lemma RangePoint(a: Tables, b: Tables, l4: nat, virt0: nat, phys0: nat, virt: nat, phys: nat, m: nat, v: nat)
    requires 1 <= m <= 3 && virt0 <= virt && virt - virt0 == phys - phys0 && virt % PageBytes(m) == 0
    requires virt0 % WINDOW + (virt + PageBytes(m) - virt0) <= WINDOW
    requires MapsRange(a, l4, virt0, phys0, virt - virt0)
    requires SameOutside(a, b, l4, virt, m) && MapsSlot(b, l4, virt, m, phys)
    requires virt0 <= v < virt + PageBytes(m)
    ensures Translate(b, l4, v) == Some(phys0 + (v - virt0))
  {
    if v < virt {
      InWindow(v, virt0, virt + PageBytes(m));
      InWindow(virt, virt0, virt + PageBytes(m));
      OutBlock(v, virt, m);
      assert Translate(b, l4, v) == Translate(a, l4, v);
    } else {
      InBlock(v, virt, m);
      assert Translate(b, l4, v) == Some(phys + v % Pow2(Shift(m)));
    }
  }

  /** Mapping a page inside `[lo, hi)` changes nothing of the window outside it. */
  lemma BesideStep(t0: Tables, a: Tables, b: Tables, l4: nat, lo: nat, hi: nat, virt: nat, m: nat)
    requires 1 <= m <= 3 && lo <= virt && virt + PageBytes(m) <= hi && virt % PageBytes(m) == 0
    requires lo % WINDOW + (hi - lo) <= WINDOW
    requires SameBeside(t0, a, l4, lo, hi) && NoHugeBeside(t0, a, l4, lo, hi)
    requires SameOutside(a, b, l4, virt, m) && NoHugeKeptOutside(a, b, l4, virt, m)
    ensures SameBeside(t0, b, l4, lo, hi) && NoHugeBeside(t0, b, l4, lo, hi)
  {
    forall v | v / WINDOW == lo / WINDOW && !(lo <= v < hi)
      ensures Translate(b, l4, v) == Translate(t0, l4, v)
      ensures NoHugeOnWalk(t0, l4, 4, v, 1) ==> NoHugeOnWalk(b, l4, 4, v, 1)
    {
      BesidePoint(t0, a, b, l4, lo, hi, virt, m, v);
    }
  }

  /** One address of the window outside the region of `BesideStep`. */
  lemma BesidePoint(t0: Tables, a: Tables, b: Tables, l4: nat, lo: nat, hi: nat, virt: nat, m: nat, v: nat)
    requires 1 <= m <= 3 && lo <= virt && virt + PageBytes(m) <= hi && virt % PageBytes(m) == 0
    requires lo % WINDOW + (hi - lo) <= WINDOW
    requires SameBeside(t0, a, l4, lo, hi) && NoHugeBeside(t0, a, l4, lo, hi)
    requires SameOutside(a, b, l4, virt, m) && NoHugeKeptOutside(a, b, l4, virt, m)
    requires v / WINDOW == lo / WINDOW && !(lo <= v < hi)
    ensures Translate(b, l4, v) == Translate(t0, l4, v)
    ensures NoHugeOnWalk(t0, l4, 4, v, 1) ==> NoHugeOnWalk(b, l4, 4, v, 1)
  {
    InWindow(virt, lo, hi);
    OutBlock(v, virt, m);
    assert Translate(b, l4, v) == Translate(a, l4, v);
  }

  /** Mapping the page at `virt` leaves the addresses after it free of large pages on their walks. */
  lemma PendingStep(a: Tables, b: Tables, l4: nat, lo: nat, hi: nat, virt: nat, m: nat)
    requires 1 <= m <= 3 && lo <= virt && virt + PageBytes(m) <= hi && virt % PageBytes(m) == 0
    requires lo % WINDOW + (hi - lo) <= WINDOW
    requires NoHugeIn(a, l4, virt, hi) && NoHugeKeptOutside(a, b, l4, virt, m)
    ensures NoHugeIn(b, l4, virt + PageBytes(m), hi)
  {
    forall v | virt + PageBytes(m) <= v < hi ensures NoHugeOnWalk(b, l4, 4, v, 1) {
      PendingPoint(a, b, l4, lo, hi, virt, m, v);
    }
  }

  /** One address after the page of `PendingStep`. */
  lemma PendingPoint(a: Tables, b: Tables, l4: nat, lo: nat, hi: nat, virt: nat, m: nat, v: nat)
    requires 1 <= m <= 3 && lo <= virt && virt + PageBytes(m) <= hi && virt % PageBytes(m) == 0
    requires lo % WINDOW + (hi - lo) <= WINDOW
    requires NoHugeIn(a, l4, virt, hi) && NoHugeKeptOutside(a, b, l4, virt, m)
    requires virt + PageBytes(m) <= v < hi
    ensures NoHugeOnWalk(b, l4, 4, v, 1)
  {
    InWindow(virt, lo, hi);
    InWindow(v, lo, hi);
    OutBlock(v, virt, m);
    assert NoHugeOnWalk(a, l4, 4, v, 1);
  }

  /** The bytes left after a step of `step` bytes; none once a step covers them all. */
  function Rest(size: nat, step: nat): (left: nat)
    ensures left <= size
    ensures left == 0 || left + step == size
  {
    if size <= step then 0 else size - step
  }

  /**
   * Where the loop of `create_direct_map` stands in the region that starts
   * at `phys0`/`virt0` and ends at `end`: it has reached `phys`/`virt`, at
   * the same offset from both starts, and the pages still to map with
   * `size` bytes left reach exactly to the end.
   */
  ghost predicate Remaining(phys0: nat, virt0: nat, end: nat, phys: nat, virt: nat, size: nat)
  {
    && phys % FOUR_KIB == 0 && virt % FOUR_KIB == 0
    && virt0 <= virt && phys == phys0 + (virt - virt0)
    && virt + PageRound(size) == end
  }

  /**
   * The next page, of level `m` and `b` bytes, is aligned to its size and
   * ends within the region, and after it the loop stands `b` bytes further
   * on with `size'` bytes left.
   */
  lemma RemainingStep(phys0: nat, virt0: nat, end: nat, phys: nat, virt: nat, size: nat, m: nat, b: nat)
    requires size != 0 && Remaining(phys0, virt0, end, phys, virt, size)
    requires m == StepLevel(phys, virt, size) && b == PageBytes(m)
    ensures virt % b == 0 && phys % b == 0 && virt + b <= end
    ensures Remaining(phys0, virt0, end, phys + b, virt + b, Rest(size, b))
  {
    var first := Page(virt, phys, m);
    var rest := DirectMapPages(phys + b, virt + b, Rest(size, b));
    assert DirectMapPages(phys, virt, size) == [first] + rest;
    assert ([first] + rest)[1..] == rest;
    SpanIsPageRound(phys, virt, size);
    SpanIsPageRound(phys + b, virt + b, Rest(size, b));
    SumOfPages(virt, b);
    SumOfPages(phys, b);
  }

  /** Before the first round nothing is mapped yet and nothing has changed. */
  lemma DirectMapStart(t0: Tables, l4: nat, phys0: nat, virt0: nat, end: nat, fits: bool)
    requires NoHugeIn(t0, l4, virt0, end)
    ensures DirectMapState(t0, t0, l4, phys0, virt0, virt0, end, fits)
  {
  }

  ghost predicate DirectMapState(t0: Tables, tables: Tables, l4: nat, phys0: nat, virt0: nat, virt: nat, end: nat, fits: bool)
  {
    && NoHugeIn(tables, l4, virt, end)
    && SameBeside(t0, tables, l4, virt0, end) && NoHugeBeside(t0, tables, l4, virt0, end)
    && virt0 <= virt && (fits ==> MapsRange(tables, l4, virt0, phys0, virt - virt0))
  }

  /**
   * One round of the loop of `create_direct_map`: maps the page at `virt`
   * with the largest size that fits in `size` and that `phys` and `virt`
   * are aligned to, and returns that size. Of the region `[virt0, end)`,
   * being mapped at the same offsets from `phys0`, the part up to `virt`
   * is done: afterwards the part up to the end of the new page is, and
   * nothing of the window outside the region has changed.
   */
  method MapStep(mem: PhysicalMemory, src: PageSource, l4: nat, phys: nat, virt: nat, size: nat, flags: nat,
                 ghost t0: Tables, ghost phys0: nat, ghost virt0: nat, ghost end: nat, ghost fits: bool)
    returns (res: Result<(), OutOfMemory>, step: nat)
    requires mem.Valid(l4) && SourceOk(src, mem.tables.Keys)
    requires phys % FOUR_KIB == 0 && virt % FOUR_KIB == 0 && IsMapFlags(flags)
    requires virt0 <= virt && phys == phys0 + (virt - virt0) && virt0 % WINDOW + (end - virt0) <= WINDOW
    requires virt % PageBytes(StepLevel(phys, virt, size)) == 0 && phys % PageBytes(StepLevel(phys, virt, size)) == 0
    requires virt + PageBytes(StepLevel(phys, virt, size)) <= end
    requires fits ==> phys0 + (end - virt0) <= PHYS_LIMIT
    requires DirectMapState(t0, mem.tables, l4, phys0, virt0, virt, end, fits)
    modifies mem, SourceObjects(src)
    ensures step == PageBytes(StepLevel(phys, virt, size))
    ensures mem.Valid(l4) && SourceOk(src, mem.tables.Keys)
    ensures SameBeside(t0, mem.tables, l4, virt0, end) && NoHugeBeside(t0, mem.tables, l4, virt0, end)
    ensures res.Ok? ==> DirectMapState(t0, mem.tables, l4, phys0, virt0, virt + step, end, fits)
  {
    ghost var a := mem.tables;
    ghost var m := StepLevel(phys, virt, size);
    if size >= ONE_GIB && phys % ONE_GIB == 0 && virt % ONE_GIB == 0 {
      res := Map1GiB(mem, src, l4, virt, phys, flags);
      step := ONE_GIB;
    } else if size >= TWO_MIB && phys % TWO_MIB == 0 && virt % TWO_MIB == 0 {
      NoHugeUp(mem.tables, l4, 4, virt);
      res := Map2MiB(mem, src, l4, virt, phys, flags);
      step := TWO_MIB;
    } else {
      res := Map4KiB(mem, src, l4, virt, phys, flags);
      step := FOUR_KIB;
    }
    BesideStep(t0, a, mem.tables, l4, virt0, end, virt, m);
    if res.Ok? {
      PendingStep(a, mem.tables, l4, virt0, end, virt, m);
      if fits {
        RangeStep(a, mem.tables, l4, virt0, phys0, virt, phys, m);
      }
    }
  }

  /** `size` rounded up to a whole number of pages. */
  function PageRound(size: nat): (n: nat)
    ensures n % PAGE_SIZE == 0 && size <= n < size + PAGE_SIZE
  {
    DivModOf(size + 4095, PAGE_SIZE);
    (size + 4095) / PAGE_SIZE * PAGE_SIZE
  }

  /** Whatever pages `create_direct_map` picks, they cover `size` rounded up to a page. */
  lemma SpanIsPageRound(phys: nat, virt: nat, size: nat)
    ensures Span(DirectMapPages(phys, virt, size)) == PageRound(size)
  {
    DirectMapSpan(phys, virt, size);
    var n, m := Span(DirectMapPages(phys, virt, size)), PageRound(size);
    if n < m {
      AlignedBelow(n, m);
    } else if m < n {
      AlignedBelow(m, n);
    }
  }

  /**
   * `create_direct_map`, with the loop ending once no byte is left: maps
   * `[virt, virt + size)`, rounded up to 4 KiB, to the same offsets from
   * `phys`, each step with the largest page that fits and that both
   * addresses are aligned to. Nothing else of the window changes, even
   * when a table allocation fails part way.
   */
  method CreateDirectMap(mem: PhysicalMemory, src: PageSource, l4: nat, phys: nat, virt: nat, size: nat, flags: nat)
    returns (r: Result<(), OutOfMemory>)
    requires mem.Valid(l4) && SourceOk(src, mem.tables.Keys)
    requires phys % FOUR_KIB == 0 && virt % FOUR_KIB == 0 && IsMapFlags(flags)
    requires virt % WINDOW + size <= WINDOW
    requires NoHugeIn(mem.tables, l4, virt, virt + PageRound(size))
    modifies mem, SourceObjects(src)
    ensures mem.Valid(l4) && SourceOk(src, mem.tables.Keys)
    ensures SameBeside(old(mem.tables), mem.tables, l4, virt, virt + PageRound(size))
    ensures NoHugeBeside(old(mem.tables), mem.tables, l4, virt, virt + PageRound(size))
    ensures r.Ok? && phys + size <= PHYS_LIMIT ==> MapsRange(mem.tables, l4, virt, phys, PageRound(size))
  {
    if size == 0 {
      return Ok(());
    }
    ghost var t0 := mem.tables;
    SpanIsPageRound(phys, virt, size);
    ghost var end := virt + PageRound(size);
    ghost var fits := phys + size <= PHYS_LIMIT;
    RegionFits(phys, virt, size, PageRound(size));
    DirectMapStart(t0, l4, phys, virt, end, fits);
    var p: nat, v: nat, n: nat := phys, virt, size;
    while n != 0
      invariant mem.Valid(l4) && SourceOk(src, mem.tables.Keys)
      invariant Remaining(phys, virt, end, p, v, n)
      invariant DirectMapState(t0, mem.tables, l4, phys, virt, v, end, fits)
      decreases n
    {
      RemainingStep(phys, virt, end, p, v, n, StepLevel(p, v, n), PageBytes(StepLevel(p, v, n)));
      var res, step := MapStep(mem, src, l4, p, v, n, flags, t0, phys, virt, end, fits);
      if res.Err? {
        return Err(res.error);
      }
      // A 4 KiB page with at most 4 KiB left is the last (the `break`).
      n := Rest(n, step);
      v, p := v + step, p + step;
    }
    r := Ok(());
  }
}
