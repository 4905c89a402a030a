/**
 * Page-table entries of x86-64 4-level paging (section 4.5 of the Intel
 * SDM, Vol. 3A) as `src/arch/x86_64/cpu/paging.rs` builds them: the
 * `PageFlags` bits, `fuse_flags`, the address mask and the table indices.
 * Beside them sits a reference model of the translation the processor
 * performs on a tree of tables, `Translate`, against which the table
 * operations of module `Paging` are specified.
 */
module PageEntry {
  import opened Bits
  import opened Prelude

  // `PageFlags` (src/arch/x86_64/raw.rs), each written `1 << bit`.
  const PRESENT: nat := Pow2(0)
  const WRITABLE: nat := Pow2(1)
  const USER: nat := Pow2(2)
  const WRITE_THROUGH: nat := Pow2(3)
  const DISABLE_CACHE: nat := Pow2(4)
  const ACCESSED: nat := Pow2(5)
  const DIRTY: nat := Pow2(6)
  const HUGE: nat := Pow2(7)
  const GLOBAL: nat := Pow2(8)
  const NO_EXECUTE: nat := Pow2(63)

  /** Each flag is a single bit. */
  lemma FlagBits()
    ensures forall k: nat :: Bit(PRESENT, k) <==> k == 0
    ensures forall k: nat :: Bit(WRITABLE, k) <==> k == 1
    ensures forall k: nat :: Bit(USER, k) <==> k == 2
    ensures forall k: nat :: Bit(WRITE_THROUGH, k) <==> k == 3
    ensures forall k: nat :: Bit(DISABLE_CACHE, k) <==> k == 4
    ensures forall k: nat :: Bit(ACCESSED, k) <==> k == 5
    ensures forall k: nat :: Bit(DIRTY, k) <==> k == 6
    ensures forall k: nat :: Bit(HUGE, k) <==> k == 7
    ensures forall k: nat :: Bit(GLOBAL, k) <==> k == 8
    ensures forall k: nat :: Bit(NO_EXECUTE, k) <==> k == 63
  {
    Pow2Bits(0);
    Pow2Bits(1);
    Pow2Bits(2);
    Pow2Bits(3);
    Pow2Bits(4);
    Pow2Bits(5);
    Pow2Bits(6);
    Pow2Bits(7);
    Pow2Bits(8);
    Pow2Bits(63);
  }

  /** A `PageFlags` value: only the bits of the flags above can be set. */
  ghost predicate IsPageFlags(f: nat)
  {
    forall k: nat :: Bit(f, k) ==> k <= 8 || k == 63
  }

  /**
   * Flags a mapping function may be given: `fuse_flags` asserts that they
   * hold neither `HUGE` nor a preserved bit (of which `ACCESSED` is the
   * only flag).
   */
  ghost predicate IsMapFlags(f: nat)
  {
    IsPageFlags(f) && !Bit(f, 5) && !Bit(f, 7)
  }

  // How `fuse_flags` treats each bit position.
  predicate IsOrBit(k: nat) { k == 0 || k == 1 || k == 2 || k == 6 }
  predicate IsAndBit(k: nat) { k == 3 || k == 4 || k == 8 || k == 63 }
  predicate IsPreservedBit(k: nat) { k == 5 || 9 <= k < 48 || 52 <= k < 62 }

  const OR_FLAGS: nat := Or(Or(Or(DIRTY, PRESENT), WRITABLE), USER)
  const AND_FLAGS: nat := Or(Or(Or(DISABLE_CACHE, GLOBAL), NO_EXECUTE), WRITE_THROUGH)
  const PRESERVED_BITS: nat := Or(0x3FF0_FFFF_FFFF_FE00, ACCESSED)

  /** The mask the kernel applies to a directory entry to find the next table. */
  const ADDRESS_MASK: nat := 0x0FFF_FFFF_FFFF_F000

  /** The bits of the masks. */
  lemma MaskBits()
    ensures forall k: nat :: Bit(OR_FLAGS, k) <==> IsOrBit(k)
    ensures forall k: nat :: Bit(AND_FLAGS, k) <==> IsAndBit(k)
    ensures forall k: nat :: Bit(PRESERVED_BITS, k) <==> IsPreservedBit(k)
    ensures forall k: nat :: Bit(ADDRESS_MASK, k) <==> 12 <= k < 60
  {
    FlagBits();
    PreservedLiteralBits();
    AddressMaskBits();
  }

  lemma PreservedLiteralBits()
    ensures forall k: nat :: Bit(0x3FF0_FFFF_FFFF_FE00, k) <==> 9 <= k < 48 || 52 <= k < 62
  {
    Pow2Values();
    TwoRanges(0x3FF0_FFFF_FFFF_FE00, 9, 48, 52, 62);
  }

  lemma AddressMaskBits()
    ensures forall k: nat :: Bit(ADDRESS_MASK, k) <==> 12 <= k < 60
  {
    Pow2Values();
    RangeValue(12, 60);
    assert ADDRESS_MASK == Range(12, 60);
  }

  /**
   * `fuse_flags(a, b)`: the flags of a directory entry `a` that is reused
   * for a mapping with flags `b`. The preserved bits (the address, the
   * available bits and `ACCESSED`) come from `a`; `DIRTY`, `PRESENT`,
   * `WRITABLE` and `USER` are set if either has them; `DISABLE_CACHE`,
   * `GLOBAL`, `NO_EXECUTE` and `WRITE_THROUGH` only if both have them. All
   * other bits, `HUGE` among them, are cleared.
   */
  function FuseFlags(a: nat, b: nat): (r: nat)
    requires forall k: nat :: Bit(b, k) ==> !IsPreservedBit(k)
    requires !Bit(a, 7) && !Bit(b, 7)
    ensures forall k: nat :: Bit(r, k) <==>
      || (IsPreservedBit(k) && Bit(a, k))
      || (IsOrBit(k) && (Bit(a, k) || Bit(b, k)))
      || (IsAndBit(k) && Bit(a, k) && Bit(b, k))
  {
    MaskBits();
    var aAnd := And(a, AND_FLAGS);
    var bAnd := And(b, AND_FLAGS);
    var aOr := And(a, OR_FLAGS);
    var bOr := And(b, OR_FLAGS);
    var aKept := And(a, PRESERVED_BITS);
    Or(Or(Or(aKept, aOr), bOr), And(aAnd, bAnd))
  }

  /** `r` is what fusing `b` into `a` gives, bit by bit. */
  ghost predicate Fused(a: nat, b: nat, r: nat)
  {
    forall k: nat :: Bit(r, k) <==>
      || (IsPreservedBit(k) && Bit(a, k))
      || (IsOrBit(k) && (Bit(a, k) || Bit(b, k)))
      || (IsAndBit(k) && Bit(a, k) && Bit(b, k))
  }

  /**
   * `e` holds exactly the bits of `page`, `PRESENT`, `HUGE` when `huge`
   * is set, and those of `flags`.
   */
  ghost predicate EntryOf(e: nat, page: nat, flags: nat, huge: bool)
  {
    forall k: nat :: Bit(e, k) <==> k == 0 || (huge && k == 7) || Bit(page, k) || Bit(flags, k)
  }

  /** Mapping flags never hold a preserved bit. */
  lemma MapFlagsNotPreserved(f: nat)
    requires IsMapFlags(f)
    ensures forall k: nat :: Bit(f, k) ==> !IsPreservedBit(k)
  {
  }

  /** Fusing the same flags a second time changes nothing. */
  lemma FuseIdempotent(a: nat, b: nat)
    requires forall k: nat :: Bit(b, k) ==> !IsPreservedBit(k)
    requires !Bit(a, 7) && !Bit(b, 7)
    ensures FuseFlags(FuseFlags(a, b), b) == FuseFlags(a, b)
  {
    var once := FuseFlags(a, b);
    BitsEqual(FuseFlags(once, b), once);
  }

  /** `entry & 0x0FFF_FFFF_FFFF_F000`: the table a directory entry points to, as the kernel reads it. */
  function EntryAddress(e: nat): (r: nat)
    ensures forall k: nat :: Bit(r, k) <==> 12 <= k < 60 && Bit(e, k)
  {
    MaskBits();
    And(e, ADDRESS_MASK)
  }

  /**
   * `(virt >> shift) & 0o777`: the index into the table whose entries
   * each cover `Pow2(shift)` bytes.
   */
  function TableIndex(virt: nat, shift: nat): (i: nat)
    ensures i == (virt / Pow2(shift)) % 512
    ensures i < 512
  {
    Low9Bits(Quotient(virt, Pow2(shift)))
  }

  /** `x / d` for a positive divisor, which is never negative. */
  function Quotient(x: nat, d: nat): (q: nat)
    requires d > 0
    ensures q == x / d && q <= x
  {
    DivBounds(x, d);
    x / d
  }

  /** `x & 0o777`, which is `x % 512`. */
  function Low9Bits(x: nat): (i: nat)
    ensures i == x % 512
    ensures i < 512
  {
    Pow2Small();
    OnesValue(9);
    LowIsMod(x, 9);
    BitsEqual(And(x, 511), Low(x, 9));
    And(x, 511)
  }

  /*
   * The reference model of address translation. Each table is a sequence
   * of 512 entries stored at a page-aligned physical address; memory that
   * holds no table reads as zero.
   */

  type Tables = map<nat, seq<nat>>

  /** The entry at slot `i` of the table at `t`. */
  function Entry(tables: Tables, t: nat, i: nat): nat
  {
    if t in tables && i < |tables[t]| then tables[t][i] else 0
  }

  /** How many address bits an entry of a level-`level` table covers (level 4 is the root). */
  function Shift(level: nat): nat
    requires 1 <= level <= 4
  {
    12 + 9 * (level - 1)
  }

  /** Bits `Shift(level)` to `Shift(level) + 8` of `v`: the index at that level. */
  function LinearIndex(v: nat, level: nat): (i: nat)
    requires 1 <= level <= 4
    ensures i < 512
  {
    Digit(v / 4096, level - 1)
  }

  /** The offset of `v` within a page of the size an entry of a level-`level` table maps. */
  function Offset(v: nat, level: nat): nat
    requires 1 <= level <= 4
  {
    v % 4096 + 4096 * LowDigits(v / 4096, level - 1)
  }

  /** The `n` low digits of `x` written in base 512. */
  function LowDigits(x: nat, n: nat): nat
  {
    if n == 0 then 0 else x % 512 + 512 * LowDigits(x / 512, n - 1)
  }

  /** Digit `n` of `x` written in base 512. */
  function Digit(x: nat, n: nat): (d: nat)
    ensures d < 512
  {
    if n == 0 then x % 512 else Digit(x / 512, n - 1)
  }

  /** Dividing by `a` and then by `b` is dividing by `a * b`; the remainders compose likewise. */
  lemma DivMod2(x: nat, a: nat, b: nat)
    requires a > 0 && b > 0
    ensures x / (a * b) == (x / a) / b
    ensures x % (a * b) == x % a + a * ((x / a) % b)
  {
    var q1, r1 := x / a, x % a;
    var q2, r2 := q1 / b, q1 % b;
    DivModOf(x, a);
    DivModOf(q1, b);
    NestedProduct(a, b, q2, r1, r2);
    DivModUnique(x, a * b, q2, a * r2 + r1);
  }

  /** `Digit(x, n)` is `(x >> 9n) & 0o777`. */
  lemma {:induction false} DigitIsDiv(x: nat, n: nat)
    ensures Digit(x, n) == (x / Pow2(9 * n)) % 512
  {
    if n > 0 {
      DigitIsDiv(x / 512, n - 1);
      Pow2Values();
      Pow2Add(9, 9 * (n - 1));
      DivMod2(x, 512, Pow2(9 * (n - 1)));
    }
  }

  /** `LowDigits(x, n)` is `x % Pow2(9n)`. */
  lemma {:induction false} LowDigitsIsMod(x: nat, n: nat)
    ensures LowDigits(x, n) == x % Pow2(9 * n)
  {
    if n > 0 {
      LowDigitsIsMod(x / 512, n - 1);
      Pow2Values();
      Pow2Add(9, 9 * (n - 1));
      DivMod2(x, 512, Pow2(9 * (n - 1)));
    }
  }

  /** The walk's index at a level is the kernel's `(virt >> shift) & 0o777` at that level's shift. */
  lemma LinearIndexIsTableIndex(v: nat, level: nat)
    requires 1 <= level <= 4
    ensures LinearIndex(v, level) == TableIndex(v, Shift(level))
  {
    DigitIsDiv(v / 4096, level - 1);
    Pow2Values();
    Pow2Add(12, 9 * (level - 1));
    DivMod2(v, 4096, Pow2(9 * (level - 1)));
  }

  /** The offset within a page is the address modulo the page size. */
  lemma OffsetIsMod(v: nat, level: nat)
    requires 1 <= level <= 4
    ensures Offset(v, level) == v % Pow2(Shift(level))
  {
    LowDigitsIsMod(v / 4096, level - 1);
    Pow2Values();
    Pow2Add(12, 9 * (level - 1));
    DivMod2(v, 4096, Pow2(9 * (level - 1)));
  }

  /** Bits `lo` to 51 of an entry: the page frame (or next table) it names. */
  function Frame(e: nat, lo: nat): (r: nat)
    requires lo == 12 || lo == 21 || lo == 30
    ensures forall k: nat :: Bit(r, k) <==> lo <= k < 52 && Bit(e, k)
  {
    And(e, FrameMask(lo))
  }

  /** The mask of bits `lo` to 51, for the three granularities a frame can have. */
  function FrameMask(lo: nat): (r: nat)
    requires lo == 12 || lo == 21 || lo == 30
    ensures forall k: nat :: Bit(r, k) <==> lo <= k < 52
  {
    var r := if lo == 12 then 0xF_FFFF_FFFF_F000 else if lo == 21 then 0xF_FFFF_FFE0_0000 else 0xF_FFFF_C000_0000;
    RangeValue(lo, 52);
    Pow2Values();
    assert lo == 21 ==> Pow2(21) == 0x20_0000;
    assert r == Range(lo, 52);
    r
  }

  /**
   * The physical address `v` translates to when the walk reaches the
   * table at `t` at the given level: a non-present entry ends the walk
   * without a translation, an entry with the page-size bit at level 3 or 2
   * maps a 1 GiB or 2 MiB page (at level 4 that bit is reserved), a level-1
   * entry maps a 4 KiB page, and any other entry names the next table.
   */
  function Lookup(tables: Tables, t: nat, level: nat, v: nat): Option<nat>
    requires 1 <= level <= 4
    decreases level
  {
    var e := Entry(tables, t, LinearIndex(v, level));
    if Descends(e, level) then Lookup(tables, Frame(e, 12), level - 1, v) else Leaf(e, level, v)
  }

  /** The walk goes on below this entry: it is present and names a table. */
  predicate Descends(e: nat, level: nat)
  {
    level > 1 && Bit(e, 0) && !Bit(e, 7)
  }

  /** Where the walk ends at an entry it does not descend through. */
  function Leaf(e: nat, level: nat, v: nat): Option<nat>
    requires 1 <= level <= 4
  {
    if !Bit(e, 0) then None
    else if level == 1 then Some(Frame(e, 12) + v % 4096)
    else if level == 4 then None
    else Some(Frame(e, Shift(level)) + Offset(v, level))
  }

  /** The translation of `v` through the tree whose root (level-4) table is at `l4`. */
  function Translate(tables: Tables, l4: nat, v: nat): Option<nat>
  {
    Lookup(tables, l4, 4, v)
  }

  /** The walk of `v` from the table at `t` reads slot `i` of the table at `s`. */
  ghost predicate Reads(tables: Tables, t: nat, level: nat, v: nat, s: nat, i: nat)
    requires 1 <= level <= 4
    decreases level
  {
    || (t == s && LinearIndex(v, level) == i)
    || (var e := Entry(tables, t, LinearIndex(v, level));
        Descends(e, level) && Reads(tables, Frame(e, 12), level - 1, v, s, i))
  }

  /** The two memories agree on every entry except possibly slot `i` of the table at `s`. */
  ghost predicate AgreeExcept(a: Tables, b: Tables, s: nat, i: nat)
  {
    forall x: nat, j: nat :: (x != s || j != i) ==> Entry(b, x, j) == Entry(a, x, j)
  }

  /** A walk that does not read the changed slot translates as before. */
  lemma {:induction false} WriteFrame(a: Tables, b: Tables, s: nat, i: nat, t: nat, level: nat, v: nat)
    requires 1 <= level <= 4
    requires AgreeExcept(a, b, s, i)
    requires !Reads(a, t, level, v, s, i)
    ensures Lookup(b, t, level, v) == Lookup(a, t, level, v)
    decreases level
  {
    var e := Entry(a, t, LinearIndex(v, level));
    assert Entry(b, t, LinearIndex(v, level)) == e;
    if level > 1 && Bit(e, 0) && !Bit(e, 7) {
      WriteFrame(a, b, s, i, Frame(e, 12), level - 1, v);
    }
  }

  /** Two entries the processor reads alike: the same present and page-size bits and the same frame. */
  ghost predicate SameMeaning(e: nat, f: nat)
  {
    forall k: nat :: (k == 0 || k == 7 || 12 <= k < 52) ==> (Bit(e, k) <==> Bit(f, k))
  }

  /** Entries of the same meaning are present, large and name frames alike. */
  lemma SameMeaningBits(e: nat, f: nat)
    requires SameMeaning(e, f)
    ensures Bit(e, 0) == Bit(f, 0) && Bit(e, 7) == Bit(f, 7)
    ensures Frame(e, 12) == Frame(f, 12) && Frame(e, 21) == Frame(f, 21) && Frame(e, 30) == Frame(f, 30)
  {
    SameMeaningFrame(e, f, 12);
    SameMeaningFrame(e, f, 21);
    SameMeaningFrame(e, f, 30);
  }

  lemma SameMeaningFrame(e: nat, f: nat, lo: nat)
    requires SameMeaning(e, f) && (lo == 12 || lo == 21 || lo == 30)
    ensures Frame(e, lo) == Frame(f, lo)
  {
    BitsEqual(Frame(e, lo), Frame(f, lo));
  }

  /** Replacing an entry by one of the same meaning changes no translation. */
  lemma {:induction false} SameMeaningLookup(a: Tables, b: Tables, s: nat, i: nat, t: nat, level: nat, v: nat)
    requires 1 <= level <= 4
    requires AgreeExcept(a, b, s, i) && SameMeaning(Entry(a, s, i), Entry(b, s, i))
    ensures Lookup(b, t, level, v) == Lookup(a, t, level, v)
    decreases level
  {
    var idx := LinearIndex(v, level);
    var ea := Entry(a, t, idx);
    if t == s && idx == i {
      SameMeaningBits(ea, Entry(b, t, idx));
    } else {
      assert Entry(b, t, idx) == ea;
    }
    if Descends(ea, level) {
      SameMeaningLookup(a, b, s, i, Frame(ea, 12), level - 1, v);
    }
  }

  /** `e & (1 << j) == 0`: the test the kernel writes for flag bit `j`. */
  lemma FlagTest(e: nat, j: nat)
    ensures And(e, Pow2(j)) == 0 <==> !Bit(e, j)
  {
    Pow2Bits(j);
    AndZero(e, Pow2(j));
  }

  /**
   * The frame of `page | f` is `page` when the page is aligned to the
   * frame's granularity and the flags `f` lie outside the frame bits.
   */
  lemma EntryFrame(page: nat, f: nat, lo: nat)
    requires (lo == 12 || lo == 21 || lo == 30) && page % Pow2(lo) == 0 && page < Pow2(52)
    requires forall k: nat :: Bit(f, k) ==> k < 12 || k >= 52
    ensures Frame(Or(page, f), lo) == page
  {
    AlignedBits(page, lo);
    forall k: nat | k >= 52 ensures !Bit(page, k) {
      NoBitAbove(page, 52, k);
    }
    BitsEqual(Frame(Or(page, f), lo), page);
  }
}
