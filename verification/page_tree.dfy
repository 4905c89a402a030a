/**
 * The shape of a page-table tree as the kernel keeps it, and the walk of
 * a virtual address through it. `TreeOk` is the invariant the table
 * operations of module `Paging` maintain: every table has a level, every
 * used slot of a directory is a large page or names a table one level
 * down, and ghost parent links record that no two slots name the same
 * table. The lemmas relate the walk to `PageEntry.Translate`.
 */
module PageTree {
  import opened Bits
  import opened Prelude
  import opened Mem
  import opened PageEntry

  /**
   * Page tables are taken to lie below 256 TiB: of the address in a
   * directory entry `fuse_flags` keeps bits 12 to 47 only.
   */
  const TABLE_LIMIT: nat := 0x1_0000_0000_0000

  /** The widest physical address an entry can name: 52 bits. */
  const PHYS_LIMIT: nat := 0x10_0000_0000_0000

  /** A table whose 512 entries are zero. */
  function Zeros(): seq<nat>
  {
    seq(512, _ => 0)
  }

  /**
   * A directory entry as this kernel writes it: present, not a large page,
   * and nothing at bits 48 to 59, so that the kernel's address mask and
   * the processor agree on the table it names.
   */
  ghost predicate IsDirectoryEntry(e: nat)
  {
    Bit(e, 0) && !Bit(e, 7) && forall k: nat :: 48 <= k < 60 ==> !Bit(e, k)
  }

  /** The kernel's mask and the processor find the same, page-aligned, table. */
  lemma DirectoryAddress(e: nat)
    requires IsDirectoryEntry(e)
    ensures EntryAddress(e) == Frame(e, 12)
    ensures Frame(e, 12) < TABLE_LIMIT && Frame(e, 12) % PAGE_SIZE == 0
  {
    var f := Frame(e, 12);
    BitsEqual(EntryAddress(e), f);
    BelowFromBits(f, 48);
    AlignedBits(f, 12);
    Pow2Values();
  }

  /** `page | PRESENT | flags` is a directory entry naming `page`. */
  lemma NewDirectoryEntry(page: nat, flags: nat)
    requires page % PAGE_SIZE == 0 && page < TABLE_LIMIT && IsMapFlags(flags)
    ensures IsDirectoryEntry(Or(page, Or(PRESENT, flags)))
    ensures Frame(Or(page, Or(PRESENT, flags)), 12) == page
  {
    FlagBits();
    Pow2Values();
    AlignedBits(page, 12);
    forall k: nat | k >= 48 ensures !Bit(page, k) {
      NoBitAbove(page, 48, k);
    }
    EntryFrame(page, Or(PRESENT, flags), 12);
  }

  /** Fusing mapping flags into a directory entry keeps it a directory entry for the same table. */
  lemma FuseDirectory(e: nat, flags: nat)
    requires IsDirectoryEntry(e) && IsMapFlags(flags)
    ensures IsDirectoryEntry(FuseFlags(e, flags))
    ensures SameMeaning(e, FuseFlags(e, flags))
  {
    var f := FuseFlags(e, flags);
    forall k: nat | 48 <= k < 60 ensures !Bit(f, k) {
    }
    forall k: nat | k == 0 || k == 7 || 12 <= k < 52 ensures Bit(e, k) <==> Bit(f, k) {
    }
  }

  /*
   * Well-formedness of the tables.
   */

  /** Memory after `value` is stored in slot `i` of the table at `t`. */
  function Write(tables: Tables, t: nat, i: nat, value: nat): (r: Tables)
    requires t in tables && i < |tables[t]|
    ensures r.Keys == tables.Keys && |r[t]| == |tables[t]| && r[t][i] == value
    ensures AgreeExcept(tables, r, t, i)
  {
    var row: seq<nat> := tables[t][i := value];
    tables[t := row]
  }

  /** The table at `t` has 512 entries, is page aligned, lies below `TABLE_LIMIT` and has a level from 1 to 4. */
  ghost predicate TableOk(tables: Tables, level: map<nat, nat>, t: nat)
  {
    t in tables && t in level && 1 <= level[t] <= 4 && |tables[t]| == 512 && t % PAGE_SIZE == 0 && t < TABLE_LIMIT
  }

  /** The table at `c` is one level below `t` and slot `i` of `t` is the only slot naming it. */
  ghost predicate ChildOk(tables: Tables, level: map<nat, nat>, parent: map<nat, (nat, nat)>, t: nat, i: nat, c: nat)
    requires t in level
  {
    c in tables && c in level && level[c] + 1 == level[t] && c in parent && parent[c] == (t, i)
  }

  /**
   * A used slot of a directory (a table of level 2 to 4) is present, and
   * is either a large page (at level 3 or 2 only) or a directory entry
   * naming its child.
   */
  ghost predicate SlotOk(tables: Tables, level: map<nat, nat>, parent: map<nat, (nat, nat)>, t: nat, i: nat)
  {
    t in tables && t in level && level[t] >= 2 && i < |tables[t]| && tables[t][i] != 0 ==>
      var e := tables[t][i];
      && Bit(e, 0)
      && (Bit(e, 7) ==> level[t] <= 3)
      && (!Bit(e, 7) ==> IsDirectoryEntry(e) && ChildOk(tables, level, parent, t, i, Frame(e, 12)))
  }

  ghost predicate ForestOk(tables: Tables, level: map<nat, nat>, parent: map<nat, (nat, nat)>)
  {
    && (forall t :: t in tables ==> TableOk(tables, level, t))
    && (forall t: nat, i: nat :: SlotOk(tables, level, parent, t, i))
  }

  /** The tables form a well-formed tree below the root at `l4`. */
  ghost predicate TreeOk(tables: Tables, l4: nat, level: map<nat, nat>, parent: map<nat, (nat, nat)>)
  {
    ForestOk(tables, level, parent) && l4 in tables && l4 in level && level[l4] == 4
  }


  /*
   * The walk of a virtual address.
   */

  /** The table the walk of `v` from the level-`top` table at `t` reaches at level `m`, if it gets that far. */
  ghost function WalkTable(tables: Tables, t: nat, top: nat, v: nat, m: nat): Option<nat>
    requires 1 <= m <= top <= 4
    decreases top
  {
    if m == top then Some(t)
    else
      var e := Entry(tables, t, LinearIndex(v, top));
      if Descends(e, top) then WalkTable(tables, Frame(e, 12), top - 1, v, m) else None
  }

  /** The entry the walk of `v` from the root at `l4` reads at level `m`, if it gets that far. */
  ghost function WalkEntry(tables: Tables, l4: nat, v: nat, m: nat): Option<nat>
    requires 1 <= m <= 4
  {
    match WalkTable(tables, l4, 4, v, m)
    case None => None
    case Some(c) => Some(Entry(tables, c, LinearIndex(v, m)))
  }

  /** `v` and `w` have the same table indices from level `bottom` up: the walk reads the same slots. */
  predicate SameSlot(v: nat, w: nat, bottom: nat)
    requires 1 <= bottom
  {
    forall m :: bottom <= m <= 4 ==> LinearIndex(v, m) == LinearIndex(w, m)
  }

  /** The base-512 digits `n` to 3 of `x` and `y` agree. */
  predicate DigitsAgree(x: nat, y: nat, n: nat)
  {
    forall k :: n <= k <= 3 ==> Digit(x, k) == Digit(y, k)
  }

  /**
   * Remainders of `x / p` and `y / p` by `512 * k` agree exactly when
   * their last base-512 digits and the remainders by `k` above them agree.
   */
  lemma LowDigitSplit(x: nat, y: nat, p: nat, k: nat)
    requires p > 0 && k > 0
    ensures (x / p) % (512 * k) == (y / p) % (512 * k) <==>
      (x / p) % 512 == (y / p) % 512 && ((x / p) / 512) % k == ((y / p) / 512) % k
  {
    DivMod2(x / p, 512, k);
    DivMod2(y / p, 512, k);
  }

  /** The digits `n` to 3 of `x` and `y` agree exactly when `x` and `y` agree on bits `9 * n` to 35. */
  lemma {:induction false} HighDigits(x: nat, y: nat, n: nat)
    requires n <= 3
    ensures DigitsAgree(x, y, n) <==> (x / Pow2(9 * n)) % Pow2(9 * (4 - n)) == (y / Pow2(9 * n)) % Pow2(9 * (4 - n))
    decreases 3 - n
  {
    if n == 3 {
      DigitIsDiv(x, n);
      DigitIsDiv(y, n);
      Pow2Small();
    } else {
      HighDigits(x, y, n + 1);
      DigitStep(x, y, n);
      assert DigitsAgree(x, y, n) <==> Digit(x, n) == Digit(y, n) && DigitsAgree(x, y, n + 1);
    }
  }

  /** Agreeing on bits `9 * n` to 35 is agreeing on digit `n` and on bits `9 * (n + 1)` to 35. */
  lemma DigitStep(x: nat, y: nat, n: nat)
    requires n < 3
    ensures (x / Pow2(9 * n)) % Pow2(9 * (4 - n)) == (y / Pow2(9 * n)) % Pow2(9 * (4 - n)) <==>
      Digit(x, n) == Digit(y, n) &&
      (x / Pow2(9 * (n + 1))) % Pow2(9 * (4 - (n + 1))) == (y / Pow2(9 * (n + 1))) % Pow2(9 * (4 - (n + 1)))
  {
    var p, k := Pow2(9 * n), Pow2(9 * (3 - n));
    DigitIsDiv(x, n);
    DigitIsDiv(y, n);
    Pow2Nine(9 * (3 - n), 9 * (4 - n));
    Pow2Nine(9 * n, 9 * (n + 1));
    assert 9 * (4 - (n + 1)) == 9 * (3 - n);
    DivMod2(x, p, 512);
    DivMod2(y, p, 512);
    LowDigitSplit(x, y, p, k);
  }

  /** Sharing the level-`m` slot is agreeing on the digits `m - 1` to 3 of the page number. */
  lemma SameSlotDigits(v: nat, w: nat, m: nat)
    requires 1 <= m <= 4
    ensures SameSlot(v, w, m) <==> DigitsAgree(v / 4096, w / 4096, m - 1)
  {
    if SameSlot(v, w, m) {
      forall k | m - 1 <= k <= 3 ensures Digit(v / 4096, k) == Digit(w / 4096, k) {
        assert LinearIndex(v, k + 1) == LinearIndex(w, k + 1);
      }
    }
  }

  /** Dividing `v` by the size of a level-`n + 1` page, and by `Pow2(48)`, through the digits above bit 12. */
  lemma WindowQuotients(v: nat, n: nat)
    requires n <= 3
    ensures v / Pow2(12 + 9 * n) == (v / 4096) / Pow2(9 * n)
    ensures v / Pow2(48) == ((v / 4096) / Pow2(9 * n)) / Pow2(9 * (4 - n))
  {
    Pow2Values();
    Pow2Add(12, 9 * n);
    DivMod2(v, 4096, Pow2(9 * n));
    Pow2Add(12, 36);
    DivMod2(v, 4096, Pow2(36));
    Pow2Add(9 * n, 9 * (4 - n));
    DivMod2(v / 4096, Pow2(9 * n), Pow2(9 * (4 - n)));
  }

  /** Numbers with the same quotient by `k` are equal exactly when their remainders are. */
  lemma SameQuotient(a: int, b: int, k: int)
    requires k > 0 && a / k == b / k
    ensures a == b <==> a % k == b % k
  {
    assert a == (a / k) * k + a % k;
    assert b == (b / k) * k + b % k;
  }

  /**
   * Two addresses in the same `Pow2(48)` window share the level-`m` slot
   * exactly when they lie in the same aligned block of `Pow2(Shift(m))`
   * bytes.
   */
  lemma SlotsInWindow(v: nat, w: nat, m: nat)
    requires 1 <= m <= 4 && v / Pow2(48) == w / Pow2(48)
    ensures SameSlot(v, w, m) <==> v / Pow2(Shift(m)) == w / Pow2(Shift(m))
  {
    var x, y, n := v / 4096, w / 4096, m - 1;
    SameSlotDigits(v, w, m);
    HighDigits(x, y, n);
    WindowQuotients(v, n);
    WindowQuotients(w, n);
    SameQuotient(x / Pow2(9 * n), y / Pow2(9 * n), Pow2(9 * (4 - n)));
  }

  /** Every address translates in `b` as it does in `a`. */
  ghost predicate SameTranslation(a: Tables, b: Tables, l4: nat)
  {
    forall v :: Translate(b, l4, v) == Translate(a, l4, v)
  }

  /** Every address outside the level-`m` slot of `virt` translates in `b` as it does in `a`. */
  ghost predicate SameOutside(a: Tables, b: Tables, l4: nat, virt: nat, m: nat)
    requires 1 <= m
  {
    forall v :: !SameSlot(v, virt, m) ==> Translate(b, l4, v) == Translate(a, l4, v)
  }

  /** Every address in the level-`m` slot of `virt` translates to `phys` plus its offset in the page. */
  ghost predicate MapsSlot(tables: Tables, l4: nat, virt: nat, m: nat, phys: nat)
    requires 1 <= m <= 4
  {
    forall v: nat :: SameSlot(v, virt, m) ==> Translate(tables, l4, v) == Some(phys + v % Pow2(Shift(m)))
  }

  /** No address in the level-`m` slot of `virt` translates. */
  ghost predicate MapsNothing(tables: Tables, l4: nat, virt: nat, m: nat)
    requires 1 <= m <= 4
  {
    forall v :: SameSlot(v, virt, m) ==> Translate(tables, l4, v) == None
  }

  /**
   * Climbing from the level-`m` table `s` to level `top` through the
   * parent links, each link's slot index being the one `v` uses at that
   * level: the table reached, or `None` if some link disagrees with `v`.
   */
  ghost function Climb(parent: map<nat, (nat, nat)>, s: nat, m: nat, top: nat, v: nat): Option<nat>
    requires 1 <= m <= top <= 4
    decreases top - m
  {
    if m == top then Some(s)
    else if s in parent && parent[s].1 == LinearIndex(v, m + 1) then Climb(parent, parent[s].0, m + 1, top, v)
    else None
  }

  /** A climb one level further, through the parent link of the table reached. */
  lemma {:induction false} ClimbExtend(parent: map<nat, (nat, nat)>, s: nat, m: nat, top: nat, v: nat, c: nat, t: nat)
    requires 1 <= m <= top < 4
    requires Climb(parent, s, m, top, v) == Some(c)
    requires c in parent && parent[c] == (t, LinearIndex(v, top + 1))
    ensures Climb(parent, s, m, top + 1, v) == Some(t)
    decreases top - m
  {
    if m < top {
      ClimbExtend(parent, parent[s].0, m + 1, top, v, c, t);
    }
  }

  /** Two addresses whose climbs from the same table both succeed use the same indices on the way up. */
  lemma {:induction false} ClimbSame(parent: map<nat, (nat, nat)>, s: nat, m: nat, top: nat, v: nat, w: nat)
    requires 1 <= m <= top <= 4
    requires Climb(parent, s, m, top, v).Some? && Climb(parent, s, m, top, w).Some?
    ensures forall k :: m < k <= top ==> LinearIndex(v, k) == LinearIndex(w, k)
    decreases top - m
  {
    if m < top {
      ClimbSame(parent, parent[s].0, m + 1, top, v, w);
    }
  }

  /** Walks in a well-formed forest reach tables of the level they are at. */
  lemma {:induction false} WalkLevel(tables: Tables, level: map<nat, nat>, parent: map<nat, (nat, nat)>, t: nat, top: nat, v: nat, m: nat)
    requires ForestOk(tables, level, parent) && 1 <= m <= top <= 4
    requires t in tables && level[t] == top
    requires WalkTable(tables, t, top, v, m).Some?
    ensures var c := WalkTable(tables, t, top, v, m).value; c in tables && level[c] == m
    decreases top
  {
    if m < top {
      var i := LinearIndex(v, top);
      assert SlotOk(tables, level, parent, t, i);
      WalkLevel(tables, level, parent, Frame(Entry(tables, t, i), 12), top - 1, v, m);
    }
  }

  /** A walk that reaches the table `c` reads slot `LinearIndex(v, m)` of it. */
  lemma {:induction false} WalkReads(tables: Tables, t: nat, top: nat, v: nat, m: nat)
    requires 1 <= m <= top <= 4 && WalkTable(tables, t, top, v, m).Some?
    ensures Reads(tables, t, top, v, WalkTable(tables, t, top, v, m).value, LinearIndex(v, m))
    decreases top
  {
    if m < top {
      WalkReads(tables, Frame(Entry(tables, t, LinearIndex(v, top)), 12), top - 1, v, m);
    }
  }

  /**
   * In a well-formed forest a walk that reads slot `i` of table `s` reaches
   * `s` at its own level, with `i` the index `v` uses there, and the parent
   * links lead back from `s` to where the walk started along `v`'s indices.
   */
  lemma {:induction false} ReadsClimb(tables: Tables, level: map<nat, nat>, parent: map<nat, (nat, nat)>, t: nat, top: nat, v: nat, s: nat, i: nat)
    requires ForestOk(tables, level, parent) && 1 <= top <= 4
    requires t in tables && level[t] == top
    requires Reads(tables, t, top, v, s, i)
    ensures s in tables && 1 <= level[s] <= top && LinearIndex(v, level[s]) == i
    ensures Climb(parent, s, level[s], top, v) == Some(t)
    decreases top
  {
    var idx := LinearIndex(v, top);
    var e := Entry(tables, t, idx);
    if top > 1 && Bit(e, 0) && !Bit(e, 7) && Reads(tables, Frame(e, 12), top - 1, v, s, i) {
      assert SlotOk(tables, level, parent, t, idx);
      var c := Frame(e, 12);
      ReadsClimb(tables, level, parent, c, top - 1, v, s, i);
      ClimbExtend(parent, s, level[s], top - 1, v, c, t);
    }
  }

  /**
   * A slot of a table that the walk of `w` reaches is read by the walk of
   * `v` only when `v` and `w` share the indices from that level up.
   */
  lemma ReadsOnlySameSlot(tables: Tables, l4: nat, level: map<nat, nat>, parent: map<nat, (nat, nat)>, w: nat, m: nat, v: nat)
    requires TreeOk(tables, l4, level, parent) && 1 <= m <= 4
    requires WalkTable(tables, l4, 4, w, m).Some?
    requires Reads(tables, l4, 4, v, WalkTable(tables, l4, 4, w, m).value, LinearIndex(w, m))
    ensures SameSlot(v, w, m)
  {
    var c := WalkTable(tables, l4, 4, w, m).value;
    WalkLevel(tables, level, parent, l4, 4, w, m);
    WalkReads(tables, l4, 4, w, m);
    ReadsClimb(tables, level, parent, l4, 4, w, c, LinearIndex(w, m));
    ReadsClimb(tables, level, parent, l4, 4, v, c, LinearIndex(w, m));
    ClimbSame(parent, c, m, 4, v, w);
  }

  /** A write to a table at level `m` or below leaves the walk down to level `m` as it was. */
  lemma {:induction false} WalkFrame(a: Tables, b: Tables, level: map<nat, nat>, parent: map<nat, (nat, nat)>, s: nat, i: nat, t: nat, top: nat, v: nat, m: nat)
    requires ForestOk(a, level, parent) && AgreeExcept(a, b, s, i)
    requires 1 <= m <= top <= 4 && t in a && level[t] == top
    requires s in level && level[s] <= m
    ensures WalkTable(b, t, top, v, m) == WalkTable(a, t, top, v, m)
    decreases top
  {
    if m < top {
      var idx := LinearIndex(v, top);
      assert Entry(b, t, idx) == Entry(a, t, idx);
      assert SlotOk(a, level, parent, t, idx);
      var e := Entry(a, t, idx);
      if Bit(e, 0) && !Bit(e, 7) {
        WalkFrame(a, b, level, parent, s, i, Frame(e, 12), top - 1, v, m);
      }
    }
  }

  /** A walk that reaches `c` and finds a directory entry there goes on to the table it names. */
  /** One more level of the walk: it goes on exactly when the entry it reads descends. */
  lemma {:induction false} WalkStep(tables: Tables, t: nat, top: nat, v: nat, m: nat)
    requires 1 < m <= top <= 4 && WalkTable(tables, t, top, v, m).Some?
    ensures var e := Entry(tables, WalkTable(tables, t, top, v, m).value, LinearIndex(v, m));
      WalkTable(tables, t, top, v, m - 1) == if Descends(e, m) then Some(Frame(e, 12)) else None
    decreases top
  {
    if m < top {
      WalkStep(tables, Frame(Entry(tables, t, LinearIndex(v, top)), 12), top - 1, v, m);
    }
  }

  /** A walk that stops above level `m` stops above every lower level too. */
  lemma {:induction false} WalkStopped(tables: Tables, t: nat, top: nat, v: nat, m: nat)
    requires 1 < m <= top <= 4 && WalkTable(tables, t, top, v, m).None?
    ensures WalkTable(tables, t, top, v, m - 1).None?
    decreases top
  {
    var e := Entry(tables, t, LinearIndex(v, top));
    if Descends(e, top) {
      WalkStopped(tables, Frame(e, 12), top - 1, v, m);
    }
  }

  /** An address whose walk stops above level 1 is not mapped by a 4 KiB entry. */
  lemma NotMappedBelow(tables: Tables, l4: nat, virt: nat, k: nat)
    requires 1 <= k <= 3 && WalkTable(tables, l4, 4, virt, k).None?
    ensures !Mapped4KiB(tables, l4, virt)
  {
    if k >= 3 {
      WalkStopped(tables, l4, 4, virt, 3);
    }
    if k >= 2 {
      WalkStopped(tables, l4, 4, virt, 2);
    }
  }

  lemma {:induction false} WalkExtend(tables: Tables, t: nat, top: nat, v: nat, m: nat)
    requires 1 < m <= top <= 4 && WalkTable(tables, t, top, v, m).Some?
    requires var e := Entry(tables, WalkTable(tables, t, top, v, m).value, LinearIndex(v, m)); Bit(e, 0) && !Bit(e, 7)
    ensures var e := Entry(tables, WalkTable(tables, t, top, v, m).value, LinearIndex(v, m));
      WalkTable(tables, t, top, v, m - 1) == Some(Frame(e, 12))
    decreases top
  {
    if m < top {
      WalkExtend(tables, Frame(Entry(tables, t, LinearIndex(v, top)), 12), top - 1, v, m);
    }
  }

  /** Addresses that share `w`'s indices from level `m` up reach the table `w` reaches at level `m` and translate from there. */
  lemma {:induction false} WalkLookup(tables: Tables, t: nat, top: nat, w: nat, m: nat, v: nat)
    requires 1 <= m <= top <= 4 && WalkTable(tables, t, top, w, m).Some?
    requires SameSlot(v, w, m)
    ensures WalkTable(tables, t, top, v, m) == WalkTable(tables, t, top, w, m)
    ensures Lookup(tables, t, top, v) == Lookup(tables, WalkTable(tables, t, top, w, m).value, m, v)
    decreases top
  {
    if m < top {
      assert LinearIndex(v, top) == LinearIndex(w, top);
      WalkLookup(tables, Frame(Entry(tables, t, LinearIndex(w, top)), 12), top - 1, w, m, v);
    }
  }

  /** The old tables keep their levels. */
  ghost predicate Extends(a: Tables, la: map<nat, nat>, b: Tables, lb: map<nat, nat>)
  {
    forall x :: x in a ==> x in b && x in la && x in lb && lb[x] == la[x]
  }

  /**
   * Writing `leaf` to slot `LinearIndex(w, m)` of the table `w`'s walk
   * reaches at level `m` changes the translation of no address outside
   * that slot, and the addresses inside it translate through the new entry.
   */
  lemma LeafWrite(a: Tables, b: Tables, l4: nat, level: map<nat, nat>, parent: map<nat, (nat, nat)>, w: nat, m: nat, leaf: nat)
    requires TreeOk(a, l4, level, parent) && 1 <= m <= 4
    requires WalkTable(a, l4, 4, w, m).Some?
    requires var c := WalkTable(a, l4, 4, w, m).value;
      c in a && AgreeExcept(a, b, c, LinearIndex(w, m)) && Entry(b, c, LinearIndex(w, m)) == leaf
    ensures WalkTable(b, l4, 4, w, m) == WalkTable(a, l4, 4, w, m)
    ensures WalkEntry(b, l4, w, m) == Some(leaf)
    ensures forall v :: !SameSlot(v, w, m) ==> Translate(b, l4, v) == Translate(a, l4, v)
    ensures forall v :: SameSlot(v, w, m) ==> Translate(b, l4, v) == Lookup(b, WalkTable(a, l4, 4, w, m).value, m, v)
  {
    var c := WalkTable(a, l4, 4, w, m).value;
    var i := LinearIndex(w, m);
    WalkLevel(a, level, parent, l4, 4, w, m);
    WalkFrame(a, b, level, parent, c, i, l4, 4, w, m);
    forall v | !SameSlot(v, w, m) ensures Translate(b, l4, v) == Translate(a, l4, v) {
      if Reads(a, l4, 4, v, c, i) {
        ReadsOnlySameSlot(a, l4, level, parent, w, m, v);
      }
      WriteFrame(a, b, c, i, l4, 4, v);
    }
    forall v | SameSlot(v, w, m) ensures Translate(b, l4, v) == Lookup(b, c, m, v) {
      WalkLookup(b, l4, 4, w, m, v);
    }
  }

  /** Writing a leaf entry, or zero, keeps the forest well formed. */
  lemma LeafKeepsForest(a: Tables, level: map<nat, nat>, parent: map<nat, (nat, nat)>, c: nat, i: nat, leaf: nat)
    requires ForestOk(a, level, parent) && c in a && i < 512
    requires level[c] >= 2 && leaf != 0 ==> Bit(leaf, 0) && Bit(leaf, 7) && level[c] <= 3
    ensures ForestOk(Write(a, c, i, leaf), level, parent)
  {
    var b := Write(a, c, i, leaf);
    forall x: nat, j: nat ensures SlotOk(b, level, parent, x, j) {
      assert SlotOk(a, level, parent, x, j);
      if x in b && x in level && level[x] >= 2 && j < |b[x]| && b[x][j] != 0 && !Bit(b[x][j], 7) {
        assert b[x][j] == a[x][j];
      }
    }
  }

  /**
   * A zero directory slot given a new, zeroed table: the forest stays well
   * formed and no translation changes, since the new table maps nothing.
   */
  lemma AddTable(a: Tables, level: map<nat, nat>, parent: map<nat, (nat, nat)>, t: nat, index: nat, p: nat, flags: nat)
    requires ForestOk(a, level, parent) && t in a && level[t] >= 2 && index < 512 && a[t][index] == 0
    requires p !in a && p % PAGE_SIZE == 0 && p < TABLE_LIMIT && IsMapFlags(flags)
    ensures var e := Or(p, Or(PRESENT, flags));
      IsDirectoryEntry(e) && Frame(e, 12) == p && EntryAddress(e) == p
    ensures var b := Write(a[p := Zeros()], t, index, Or(p, Or(PRESENT, flags)));
      && ForestOk(b, level[p := level[t] - 1], parent[p := (t, index)])
      && AgreeExcept(a, b, t, index)
  {
    var e := Or(p, Or(PRESENT, flags));
    NewDirectoryEntry(p, flags);
    DirectoryAddress(e);
    var b := Write(a[p := Zeros()], t, index, e);
    var lb := level[p := level[t] - 1];
    var pb := parent[p := (t, index)];
    forall x | x in b ensures TableOk(b, lb, x) {
      if x != p {
        assert TableOk(a, level, x);
      }
    }
    forall x: nat, j: nat ensures SlotOk(b, lb, pb, x, j) {
      assert SlotOk(a, level, parent, x, j);
      if x in b && x in lb && lb[x] >= 2 && j < |b[x]| && b[x][j] != 0 && x != p && (x != t || j != index) {
        assert b[x][j] == a[x][j];
        if !Bit(a[x][j], 7) {
          assert Frame(a[x][j], 12) != p;
        }
      }
    }
    forall x: nat, j: nat | x != t || j != index ensures Entry(b, x, j) == Entry(a, x, j) {
      if x == p {
        assert Entry(a, x, j) == 0;
      }
    }
  }

  /** With a new, zeroed table under a slot that was zero, every walk translates as before. */
  lemma {:induction false} AddTableLookup(a: Tables, b: Tables, level: map<nat, nat>, parent: map<nat, (nat, nat)>, s: nat, i: nat, p: nat, t: nat, top: nat, v: nat)
    requires ForestOk(a, level, parent) && 1 <= top <= 4 && t in a && level[t] == top
    requires s in level && level[s] >= 2 && Entry(a, s, i) == 0 && AgreeExcept(a, b, s, i)
    requires !Bit(Entry(b, s, i), 7) && Frame(Entry(b, s, i), 12) == p
    requires forall j :: Entry(b, p, j) == 0
    ensures Lookup(b, t, top, v) == Lookup(a, t, top, v)
    decreases top
  {
    var idx := LinearIndex(v, top);
    if t == s && idx == i {
      NewTableLookup(a, b, s, i, p, top, v);
    } else {
      var e := Entry(a, t, idx);
      assert Entry(b, t, idx) == e;
      if top > 1 && Bit(e, 0) && !Bit(e, 7) {
        assert SlotOk(a, level, parent, t, idx);
        AddTableLookup(a, b, level, parent, s, i, p, Frame(e, 12), top - 1, v);
      }
    }
  }

  /** The walk through the slot that was zero finds nothing before and nothing after. */
  lemma NewTableLookup(a: Tables, b: Tables, s: nat, i: nat, p: nat, top: nat, v: nat)
    requires 2 <= top <= 4 && LinearIndex(v, top) == i
    requires Entry(a, s, i) == 0 && !Bit(Entry(b, s, i), 7) && Frame(Entry(b, s, i), 12) == p
    requires forall j :: Entry(b, p, j) == 0
    ensures Lookup(b, s, top, v) == None && Lookup(a, s, top, v) == None
  {
    ZeroBit(0);
    assert Entry(b, p, LinearIndex(v, top - 1)) == 0;
  }

  /**
   * Fusing mapping flags into a directory entry keeps the forest well
   * formed and the entry a directory entry for the same table.
   */
  lemma FuseKeepsForest(a: Tables, level: map<nat, nat>, parent: map<nat, (nat, nat)>, t: nat, index: nat, flags: nat,
                         e: nat, f: nat, b: Tables)
    requires ForestOk(a, level, parent) && t in a && level[t] >= 2 && index < 512
    requires a[t][index] != 0 && !Bit(a[t][index], 7) && IsMapFlags(flags)
    requires e == a[t][index] && f == FuseFlags(e, flags) && b == Write(a, t, index, f)
    ensures forall k: nat :: Bit(flags, k) ==> !IsPreservedBit(k)
    ensures IsDirectoryEntry(e) && IsDirectoryEntry(f) && SameMeaning(e, f)
    ensures Frame(f, 12) == Frame(e, 12) && EntryAddress(f) == Frame(e, 12)
    ensures ForestOk(b, level, parent) && AgreeExcept(a, b, t, index)
  {
    MapFlagsNotPreserved(flags);
    assert SlotOk(a, level, parent, t, index);
    FuseDirectory(e, flags);
    SameMeaningFrame(e, f, 12);
    DirectoryAddress(f);
    forall x: nat, j: nat ensures SlotOk(b, level, parent, x, j) {
      assert SlotOk(a, level, parent, x, j);
      if x in b && x in level && level[x] >= 2 && j < |b[x]| && b[x][j] != 0 && (x != t || j != index) {
        assert b[x][j] == a[x][j];
      }
    }
  }

  /** Tables with the same addresses as a well-formed forest keep its levels. */
  lemma SameKeysExtend(a: Tables, level: map<nat, nat>, parent: map<nat, (nat, nat)>, b: Tables)
    requires ForestOk(a, level, parent) && b.Keys == a.Keys
    ensures Extends(a, level, b, level)
  {
    forall x | x in a ensures x in b && x in level {
      assert TableOk(a, level, x);
    }
  }

  /** The walk of `v` from the level-`top` table at `t` meets no large page above level `bottom`. */
  ghost predicate NoHugeOnWalk(tables: Tables, t: nat, top: nat, v: nat, bottom: nat)
    requires 1 <= bottom <= top <= 4
    decreases top
  {
    top == bottom ||
      var e := Entry(tables, t, LinearIndex(v, top));
      !Bit(e, 7) && (Bit(e, 0) ==> NoHugeOnWalk(tables, Frame(e, 12), top - 1, v, bottom))
  }

  /** A write to a table above the walk leaves `NoHugeOnWalk` as it was. */
  lemma {:induction false} NoHugeFrame(a: Tables, b: Tables, level: map<nat, nat>, parent: map<nat, (nat, nat)>, s: nat, i: nat, t: nat, top: nat, v: nat, bottom: nat)
    requires ForestOk(a, level, parent) && AgreeExcept(a, b, s, i)
    requires 1 <= bottom <= top <= 4 && t in a && level[t] == top
    requires s in level && level[s] > top
    requires NoHugeOnWalk(a, t, top, v, bottom)
    ensures NoHugeOnWalk(b, t, top, v, bottom)
    decreases top
  {
    if bottom < top {
      var idx := LinearIndex(v, top);
      var e := Entry(a, t, idx);
      assert Entry(b, t, idx) == e;
      if Bit(e, 0) {
        assert SlotOk(a, level, parent, t, idx);
        NoHugeFrame(a, b, level, parent, s, i, Frame(e, 12), top - 1, v, bottom);
      }
    }
  }

  /** A zeroed table meets no large page. */
  lemma NoHugeInZeros(tables: Tables, t: nat, top: nat, v: nat, bottom: nat)
    requires 1 <= bottom <= top <= 4 && t in tables && tables[t] == Zeros()
    ensures NoHugeOnWalk(tables, t, top, v, bottom)
  {
    ZeroBit(0);
    ZeroBit(7);
  }

  /** A walk that meets no large page above level 1 meets none above level 2. */
  lemma {:induction false} NoHugeUp(tables: Tables, t: nat, top: nat, v: nat)
    requires 2 <= top <= 4 && NoHugeOnWalk(tables, t, top, v, 1)
    ensures NoHugeOnWalk(tables, t, top, v, 2)
    decreases top
  {
    var e := Entry(tables, t, LinearIndex(v, top));
    if top > 2 && Bit(e, 0) {
      NoHugeUp(tables, Frame(e, 12), top - 1, v);
    }
  }

  /** No level-4 entry is a large page, so a walk down to level 3 meets none. */
  lemma RootNotHuge(tables: Tables, l4: nat, level: map<nat, nat>, parent: map<nat, (nat, nat)>, v: nat)
    requires TreeOk(tables, l4, level, parent)
    ensures NoHugeOnWalk(tables, l4, 4, v, 3)
  {
    var idx := LinearIndex(v, 4);
    assert SlotOk(tables, level, parent, l4, idx);
    ZeroBit(7);
  }

  /** Every walk that met no large page above level 1 in `a` still meets none in `b`. */
  ghost predicate NoHugeKept(a: Tables, b: Tables, l4: nat)
  {
    forall w :: NoHugeOnWalk(a, l4, 4, w, 1) ==> NoHugeOnWalk(b, l4, 4, w, 1)
  }

  /** As `NoHugeKept`, for the walks of addresses outside the level-`m` slot of `virt`. */
  ghost predicate NoHugeKeptOutside(a: Tables, b: Tables, l4: nat, virt: nat, m: nat)
    requires 1 <= m
  {
    forall w :: !SameSlot(w, virt, m) && NoHugeOnWalk(a, l4, 4, w, 1) ==> NoHugeOnWalk(b, l4, 4, w, 1)
  }

  /**
   * A write of a slot that becomes a directory entry, either naming the
   * table its old entry named or naming a zeroed table, adds no large
   * page to any walk.
   */
  lemma {:induction false} NoHugeRedirect(a: Tables, b: Tables, s: nat, i: nat, t: nat, top: nat, v: nat, bottom: nat)
    requires AgreeExcept(a, b, s, i) && 1 <= bottom <= top <= 4
    requires !Bit(Entry(b, s, i), 7)
    requires Bit(Entry(b, s, i), 0) ==>
      || (Bit(Entry(a, s, i), 0) && Frame(Entry(a, s, i), 12) == Frame(Entry(b, s, i), 12))
      || (Frame(Entry(b, s, i), 12) in b && b[Frame(Entry(b, s, i), 12)] == Zeros())
    requires NoHugeOnWalk(a, t, top, v, bottom)
    ensures NoHugeOnWalk(b, t, top, v, bottom)
    decreases top
  {
    if bottom < top {
      var idx := LinearIndex(v, top);
      var ea, eb := Entry(a, t, idx), Entry(b, t, idx);
      if t == s && idx == i {
        if Bit(eb, 0) {
          if Bit(ea, 0) && Frame(ea, 12) == Frame(eb, 12) {
            NoHugeRedirect(a, b, s, i, Frame(ea, 12), top - 1, v, bottom);
          } else {
            NoHugeInZeros(b, Frame(eb, 12), top - 1, v, bottom);
          }
        }
      } else {
        assert eb == ea;
        if Bit(ea, 0) {
          NoHugeRedirect(a, b, s, i, Frame(ea, 12), top - 1, v, bottom);
        }
      }
    }
  }

  /** A write of a slot the walk does not read leaves `NoHugeOnWalk` as it was. */
  lemma {:induction false} NoHugeUnread(a: Tables, b: Tables, s: nat, i: nat, t: nat, top: nat, v: nat, bottom: nat)
    requires AgreeExcept(a, b, s, i) && 1 <= bottom <= top <= 4
    requires !Reads(a, t, top, v, s, i)
    requires NoHugeOnWalk(a, t, top, v, bottom)
    ensures NoHugeOnWalk(b, t, top, v, bottom)
    decreases top
  {
    if bottom < top {
      var e := Entry(a, t, LinearIndex(v, top));
      assert Entry(b, t, LinearIndex(v, top)) == e;
      if Bit(e, 0) {
        NoHugeUnread(a, b, s, i, Frame(e, 12), top - 1, v, bottom);
      }
    }
  }

  /** A leaf written on the walk of `virt` adds no large page to the walk of any address outside its slot. */
  lemma LeafKeepsNoHuge(a: Tables, b: Tables, l4: nat, level: map<nat, nat>, parent: map<nat, (nat, nat)>, virt: nat, m: nat, c: nat, leaf: nat)
    requires TreeOk(a, l4, level, parent) && 1 <= m <= 4
    requires WalkTable(a, l4, 4, virt, m) == Some(c) && c in a && LinearIndex(virt, m) < |a[c]|
    requires b == Write(a, c, LinearIndex(virt, m), leaf)
    ensures NoHugeKeptOutside(a, b, l4, virt, m)
  {
    forall w | !SameSlot(w, virt, m) && NoHugeOnWalk(a, l4, 4, w, 1) ensures NoHugeOnWalk(b, l4, 4, w, 1) {
      if Reads(a, l4, 4, w, c, LinearIndex(virt, m)) {
        ReadsOnlySameSlot(a, l4, level, parent, virt, m, w);
      }
      NoHugeUnread(a, b, c, LinearIndex(virt, m), l4, 4, w, 1);
    }
  }

  /** The 4 KiB page of `virt` is mapped: the walk reaches a level-1 entry and it is present. */
  ghost predicate Mapped4KiB(tables: Tables, l4: nat, virt: nat)
  {
    var e := WalkEntry(tables, l4, virt, 1);
    e.Some? && Bit(e.value, 0)
  }

  /** Every 4 KiB page outside the level-1 slot of `virt` is mapped in `b` exactly when it is in `a`. */
  ghost predicate MappedKeptOutside(a: Tables, b: Tables, l4: nat, virt: nat)
  {
    forall p :: !SameSlot(p, virt, 1) ==> Mapped4KiB(b, l4, p) == Mapped4KiB(a, l4, p)
  }

  /**
   * Writing the 4 KiB slot of `virt` in the level-1 table its walk
   * reaches leaves every other page mapped or unmapped as it was: no
   * other walk reads that slot.
   */
  lemma LeafKeepsMapped(a: Tables, b: Tables, l4: nat, level: map<nat, nat>, parent: map<nat, (nat, nat)>, virt: nat, c: nat, leaf: nat)
    requires TreeOk(a, l4, level, parent) && WalkTable(a, l4, 4, virt, 1) == Some(c) && c in a && level[c] == 1
    requires b == Write(a, c, LinearIndex(virt, 1), leaf)
    ensures MappedKeptOutside(a, b, l4, virt)
    ensures EntriesKeptOutside(a, b, l4, virt)
  {
    var i := LinearIndex(virt, 1);
    forall p | !SameSlot(p, virt, 1) ensures WalkEntry(b, l4, p, 1) == WalkEntry(a, l4, p, 1) {
      WalkFrame(a, b, level, parent, c, i, l4, 4, p, 1);
      if WalkTable(a, l4, 4, p, 1).Some? {
        WalkReads(a, l4, 4, p, 1);
        if Reads(a, l4, 4, p, c, i) {
          ReadsOnlySameSlot(a, l4, level, parent, virt, 1, p);
        }
      }
    }
  }

  /** The 4 KiB entry of `v` is `phys | PRESENT | flags`. */
  ghost predicate LeafIs(tables: Tables, l4: nat, v: nat, phys: nat, flags: nat)
  {
    var e := WalkEntry(tables, l4, v, 1);
    e.Some? && EntryOf(e.value, phys, flags, false)
  }

  /** Every page mapped by a 4 KiB entry in `a` has the same entry in `b`. */
  ghost predicate EntriesKept(a: Tables, b: Tables, l4: nat)
  {
    forall v :: Mapped4KiB(a, l4, v) ==> WalkEntry(b, l4, v, 1) == WalkEntry(a, l4, v, 1)
  }

  /** Every page outside the 4 KiB slot of `virt` mapped by a 4 KiB entry in `a` has the same entry in `b`. */
  ghost predicate EntriesKeptOutside(a: Tables, b: Tables, l4: nat, virt: nat)
  {
    forall v :: !SameSlot(v, virt, 1) && Mapped4KiB(a, l4, v) ==> WalkEntry(b, l4, v, 1) == WalkEntry(a, l4, v, 1)
  }

  /** A page whose entry is a leaf for some frame is mapped. */
  lemma LeafIsMapped(tables: Tables, l4: nat, v: nat, phys: nat, flags: nat)
    requires LeafIs(tables, l4, v, phys, flags)
    ensures Mapped4KiB(tables, l4, v)
  {
    assert Bit(WalkEntry(tables, l4, v, 1).value, 0);
  }

  /** A page outside the slot of `virt` keeps its leaf. */
  lemma LeafKept(a: Tables, b: Tables, l4: nat, virt: nat, v: nat, phys: nat, flags: nat)
    requires EntriesKeptOutside(a, b, l4, virt) && !SameSlot(v, virt, 1) && LeafIs(a, l4, v, phys, flags)
    ensures LeafIs(b, l4, v, phys, flags)
  {
    LeafIsMapped(a, l4, v, phys, flags);
  }

  /** Keeping the 4 KiB entries, and then those outside a slot, keeps those outside the slot. */
  lemma EntriesKeptThen(a: Tables, b: Tables, c: Tables, l4: nat, virt: nat)
    requires EntriesKept(a, b, l4)
    ensures EntriesKept(b, c, l4) ==> EntriesKept(a, c, l4)
    ensures EntriesKeptOutside(b, c, l4, virt) ==> EntriesKeptOutside(a, c, l4, virt)
  {
  }

  /**
   * The walk of `v` past a slot that was zero, or that still names the same
   * table, reaches the same table as before.
   */
  lemma {:induction false} WalkKept(a: Tables, b: Tables, s: nat, i: nat, t: nat, top: nat, v: nat, m: nat)
    requires 1 <= m <= top <= 4 && AgreeExcept(a, b, s, i)
    requires Entry(a, s, i) == 0 || (
      && Bit(Entry(b, s, i), 0) == Bit(Entry(a, s, i), 0) && Bit(Entry(b, s, i), 7) == Bit(Entry(a, s, i), 7)
      && Frame(Entry(b, s, i), 12) == Frame(Entry(a, s, i), 12))
    requires WalkTable(a, t, top, v, m).Some?
    ensures WalkTable(b, t, top, v, m) == WalkTable(a, t, top, v, m)
    decreases top
  {
    if m < top {
      var e := Entry(a, t, LinearIndex(v, top));
      if t == s && LinearIndex(v, top) == i {
        ZeroBit(0);
      }
      WalkKept(a, b, s, i, Frame(e, 12), top - 1, v, m);
    }
  }

  /**
   * A write to slot `i` of a directory that was zero, or that keeps
   * naming the same table, leaves every 4 KiB entry as it was.
   */
  lemma DirectoryKeepsEntries(a: Tables, b: Tables, l4: nat, level: map<nat, nat>, parent: map<nat, (nat, nat)>, s: nat, i: nat)
    requires TreeOk(a, l4, level, parent) && s in a && level[s] >= 2 && AgreeExcept(a, b, s, i)
    requires Entry(a, s, i) == 0 || (
      && Bit(Entry(b, s, i), 0) == Bit(Entry(a, s, i), 0) && Bit(Entry(b, s, i), 7) == Bit(Entry(a, s, i), 7)
      && Frame(Entry(b, s, i), 12) == Frame(Entry(a, s, i), 12))
    ensures EntriesKept(a, b, l4)
  {
    forall v | Mapped4KiB(a, l4, v) ensures WalkEntry(b, l4, v, 1) == WalkEntry(a, l4, v, 1) {
      WalkKept(a, b, s, i, l4, 4, v, 1);
      WalkLevel(a, level, parent, l4, 4, v, 1);
    }
  }

  /**
   * The zero slot `index` of the directory at `t` given the new, zeroed
   * table at `p`: the tree stays well formed, the old tables keep their
   * levels, and no translation changes.
   */
  lemma AllocStep(a: Tables, l4: nat, level: map<nat, nat>, parent: map<nat, (nat, nat)>, t: nat, index: nat, p: nat, flags: nat)
    requires TreeOk(a, l4, level, parent) && t in a && level[t] >= 2 && index < 512 && a[t][index] == 0
    requires p !in a && p % PAGE_SIZE == 0 && p < TABLE_LIMIT && IsMapFlags(flags)
    ensures var b := Write(a[p := Zeros()], t, index, Or(p, Or(PRESENT, flags)));
      var lb := level[p := level[t] - 1];
      && TreeOk(b, l4, lb, parent[p := (t, index)])
      && Extends(a, level, b, lb)
      && AgreeExcept(a, b, t, index)
      && b.Keys == a.Keys + {p}
      && (forall v :: Translate(b, l4, v) == Translate(a, l4, v))
      && IsDirectoryEntry(b[t][index]) && Frame(b[t][index], 12) == p && EntryAddress(b[t][index]) == p
      && lb[p] + 1 == lb[t]
      && EntryOf(b[t][index], p, flags, false)
  {
    var b := Write(a[p := Zeros()], t, index, Or(p, Or(PRESENT, flags)));
    AddTable(a, level, parent, t, index, p, flags);
    forall v ensures Translate(b, l4, v) == Translate(a, l4, v) {
      AddTableLookup(a, b, level, parent, t, index, p, l4, 4, v);
    }
  }

  /**
   * Mapping flags fused into the used slot `index` of the directory at
   * `t`: the tree stays well formed and no translation changes.
   */
  lemma FuseStep(a: Tables, l4: nat, level: map<nat, nat>, parent: map<nat, (nat, nat)>, t: nat, index: nat, flags: nat,
                 b: Tables)
    requires TreeOk(a, l4, level, parent) && t in a && level[t] >= 2 && index < 512
    requires a[t][index] != 0 && !Bit(a[t][index], 7) && IsMapFlags(flags)
    requires b == Write(a, t, index, FuseFlags(a[t][index], flags))
    ensures forall k: nat :: Bit(flags, k) ==> !IsPreservedBit(k)
    ensures TreeOk(b, l4, level, parent) && Extends(a, level, b, level) && AgreeExcept(a, b, t, index)
    ensures forall v :: Translate(b, l4, v) == Translate(a, l4, v)
  {
    FuseKeepsForest(a, level, parent, t, index, flags, a[t][index], FuseFlags(a[t][index], flags), b);
    SameKeysExtend(a, level, parent, b);
    forall v ensures Translate(b, l4, v) == Translate(a, l4, v) {
      SameMeaningLookup(a, b, t, index, l4, 4, v);
    }
  }

  /**
   * The entry `FuseStep` writes still names the same next-level table,
   * with `flags` fused in, so every 4 KiB entry stays as it was.
   */
  lemma FuseEntry(a: Tables, l4: nat, level: map<nat, nat>, parent: map<nat, (nat, nat)>, t: nat, index: nat, flags: nat,
                  b: Tables)
    requires TreeOk(a, l4, level, parent) && t in a && level[t] >= 2 && index < 512
    requires a[t][index] != 0 && !Bit(a[t][index], 7) && IsMapFlags(flags)
    requires b == Write(a, t, index, FuseFlags(a[t][index], flags))
    ensures IsDirectoryEntry(b[t][index]) && Frame(b[t][index], 12) == EntryAddress(b[t][index])
    ensures Fused(a[t][index], flags, b[t][index])
    ensures Frame(a[t][index], 12) == EntryAddress(b[t][index])
    ensures EntryAddress(b[t][index]) in a && level[EntryAddress(b[t][index])] + 1 == level[t]
    ensures EntriesKept(a, b, l4)
  {
    assert SlotOk(a, level, parent, t, index);
    FuseDirectory(a[t][index], flags);
    SameMeaningFrame(a[t][index], b[t][index], 12);
    DirectoryAddress(b[t][index]);
    DirectoryKeepsEntries(a, b, l4, level, parent, t, index);
  }

  /*
   * Walking down and mapping.
   */

  /**
   * One `directory_entry_mut` step on the walk of `virt`: the walk that
   * reached the level-`k` table at `c` now goes on, one level down, to
   * the table `r` that the call returned, and still meets no large page
   * above level `m`.
   */
  lemma Descend(a: Tables, la: map<nat, nat>, pa: map<nat, (nat, nat)>, b: Tables, lb: map<nat, nat>, pb: map<nat, (nat, nat)>,
                l4: nat, virt: nat, c: nat, k: nat, m: nat, r: nat)
    requires TreeOk(a, l4, la, pa) && TreeOk(b, l4, lb, pb) && Extends(a, la, b, lb)
    requires 1 <= m < k <= 4 && WalkTable(a, l4, 4, virt, k) == Some(c) && c in a && la[c] == k
    requires NoHugeOnWalk(a, c, k, virt, m)
    requires AgreeExcept(a, b, c, LinearIndex(virt, k))
    requires IsDirectoryEntry(b[c][LinearIndex(virt, k)]) && Frame(b[c][LinearIndex(virt, k)], 12) == r
    requires r in b && lb[r] + 1 == lb[c]
    requires a[c][LinearIndex(virt, k)] == 0 ==> r !in a && b[r] == Zeros()
    requires a[c][LinearIndex(virt, k)] != 0 ==> Frame(a[c][LinearIndex(virt, k)], 12) == r
    ensures WalkTable(b, l4, 4, virt, k - 1) == Some(r) && lb[r] == k - 1
    ensures NoHugeOnWalk(b, r, k - 1, virt, m)
    ensures NoHugeKept(a, b, l4)
  {
    var i := LinearIndex(virt, k);
    WalkFrame(a, b, la, pa, c, i, l4, 4, virt, k);
    assert SlotOk(a, la, pa, c, i);
    assert Entry(b, c, i) == b[c][i];
    forall w | NoHugeOnWalk(a, l4, 4, w, 1) ensures NoHugeOnWalk(b, l4, 4, w, 1) {
      NoHugeRedirect(a, b, c, i, l4, 4, w, 1);
    }
    WalkExtend(b, l4, 4, virt, k);
    var e := a[c][i];
    if e == 0 {
      NoHugeInZeros(b, r, k - 1, virt, m);
    } else {
      assert SlotOk(a, la, pa, c, i);
      assert Entry(a, c, i) == e;
      NoHugeFrame(a, b, la, pa, c, i, r, k - 1, virt, m);
    }
  }

  /** The leaf entry `map_*` writes: `phys | PRESENT | flags`, with `HUGE` for a large page. */
  function LeafEntry(phys: nat, flags: nat, huge: bool): (e: nat)
    requires phys % PAGE_SIZE == 0 && IsMapFlags(flags)
    ensures EntryOf(e, phys, flags, huge)
    ensures Bit(e, 0) && (Bit(e, 7) <==> huge) && e != 0
  {
    FlagBits();
    AlignedBits(phys, 12);
    Pow2Values();
    if huge then Or(phys, Or(Or(PRESENT, HUGE), flags)) else Or(phys, Or(PRESENT, flags))
  }

  /** The leaf names the frame `phys` when `phys` is aligned to the size of the page and fits in 52 bits. */
  lemma LeafFrame(phys: nat, flags: nat, huge: bool, lo: nat)
    requires (lo == 12 || lo == 21 || lo == 30) && phys % Pow2(lo) == 0 && phys < PHYS_LIMIT
    requires phys % PAGE_SIZE == 0 && IsMapFlags(flags)
    ensures Frame(LeafEntry(phys, flags, huge), lo) == phys
  {
    FlagBits();
    Pow2Values();
    var f := if huge then Or(Or(PRESENT, HUGE), flags) else Or(PRESENT, flags);
    assert forall k: nat :: Bit(f, k) ==> k < 12 || k >= 52;
    EntryFrame(phys, f, lo);
  }

  /**
   * Writing the leaf for `phys` into slot `LinearIndex(virt, m)` of the
   * table the walk of `virt` reaches at level `m` keeps the tree well
   * formed and changes no translation outside that slot.
   */
  lemma MapLeaf(a: Tables, b: Tables, l4: nat, level: map<nat, nat>, parent: map<nat, (nat, nat)>,
                virt: nat, m: nat, c: nat, phys: nat, flags: nat, huge: bool)
    requires TreeOk(a, l4, level, parent) && 1 <= m <= 3 && (huge <==> m > 1)
    requires WalkTable(a, l4, 4, virt, m) == Some(c) && c in a && level[c] == m
    requires phys % PAGE_SIZE == 0 && IsMapFlags(flags)
    requires b == Write(a, c, LinearIndex(virt, m), LeafEntry(phys, flags, huge))
    ensures TreeOk(b, l4, level, parent)
    ensures WalkEntry(b, l4, virt, m) == Some(LeafEntry(phys, flags, huge))
    ensures SameOutside(a, b, l4, virt, m)
  {
    var leaf := LeafEntry(phys, flags, huge);
    LeafKeepsForest(a, level, parent, c, LinearIndex(virt, m), leaf);
    LeafWrite(a, b, l4, level, parent, virt, m, leaf);
  }

  /**
   * After that write every address in the slot translates to `phys` plus
   * its offset in the page, when `phys` is aligned to the page size and
   * fits in 52 bits.
   */
  lemma MapLeafTranslates(a: Tables, b: Tables, l4: nat, level: map<nat, nat>, parent: map<nat, (nat, nat)>,
                          virt: nat, m: nat, c: nat, phys: nat, flags: nat, huge: bool)
    requires TreeOk(a, l4, level, parent) && 1 <= m <= 3 && (huge <==> m > 1)
    requires WalkTable(a, l4, 4, virt, m) == Some(c) && c in a && level[c] == m
    requires phys % Pow2(Shift(m)) == 0 && phys % PAGE_SIZE == 0 && phys < PHYS_LIMIT && IsMapFlags(flags)
    requires b == Write(a, c, LinearIndex(virt, m), LeafEntry(phys, flags, huge))
    ensures MapsSlot(b, l4, virt, m, phys)
  {
    var leaf := LeafEntry(phys, flags, huge);
    LeafWrite(a, b, l4, level, parent, virt, m, leaf);
    forall v: nat | SameSlot(v, virt, m) ensures Translate(b, l4, v) == Some(phys + v % Pow2(Shift(m))) {
      LeafLookup(b, c, m, v, phys, flags, huge);
    }
  }

  /** The walk from a table whose slot for `v` holds the leaf for `phys` ends at `phys` plus the offset of `v`. */
  lemma LeafLookup(b: Tables, c: nat, m: nat, v: nat, phys: nat, flags: nat, huge: bool)
    requires 1 <= m <= 3 && (huge <==> m > 1)
    requires phys % Pow2(Shift(m)) == 0 && phys % PAGE_SIZE == 0 && phys < PHYS_LIMIT && IsMapFlags(flags)
    requires Entry(b, c, LinearIndex(v, m)) == LeafEntry(phys, flags, huge)
    ensures Lookup(b, c, m, v) == Some(phys + v % Pow2(Shift(m)))
  {
    LeafFrame(phys, flags, huge, Shift(m));
    if m > 1 {
      OffsetIsMod(v, m);
    } else {
      Pow2Small();
    }
  }


  /**
   * Zeroing the 4 KiB slot of `virt` in the level-1 table its walk
   * reaches keeps the tree well formed, unmaps every address of the slot
   * and changes no other translation.
   */
  lemma UnmapLeaf(a: Tables, b: Tables, l4: nat, level: map<nat, nat>, parent: map<nat, (nat, nat)>, virt: nat, c: nat)
    requires TreeOk(a, l4, level, parent) && WalkTable(a, l4, 4, virt, 1) == Some(c) && c in a && level[c] == 1
    requires b == Write(a, c, LinearIndex(virt, 1), 0)
    ensures TreeOk(b, l4, level, parent)
    ensures SameOutside(a, b, l4, virt, 1)
    ensures MapsNothing(b, l4, virt, 1) && !Mapped4KiB(b, l4, virt)
    ensures MappedKeptOutside(a, b, l4, virt)
  {
    LeafKeepsMapped(a, b, l4, level, parent, virt, c, 0);
    LeafKeepsForest(a, level, parent, c, LinearIndex(virt, 1), 0);
    LeafWrite(a, b, l4, level, parent, virt, 1, 0);
    ZeroBit(0);
  }
}
