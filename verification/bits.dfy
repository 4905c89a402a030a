/**
 * Bitwise operations on unsigned machine integers, modelled on natural
 * numbers. A `u64` of the kernel is a `nat` below `U64_LIMIT`; the
 * operators `|`, `&` and the complement `!` are `Or`, `And` and `Not64`,
 * and `Bit(n, k)` reads bit `k` of `n`. Facts about them are proved bit by
 * bit and brought back to whole numbers by `BitsEqual`.
 */
module Bits {

  /** 2 raised to the power `k`. */
  function Pow2(k: nat): (r: nat)
    ensures r >= 1
  {
    if k == 0 then 1 else 2 * Pow2(k - 1)
  }

  /** The exclusive upper bound of a `u64`. */
  const U64_LIMIT: nat := 0x1_0000_0000_0000_0000

  /** Bit `k` of `n` is set; bit 0 is the least significant one. */
  predicate Bit(n: nat, k: nat)
  {
    if k == 0 then n % 2 == 1 else Bit(n / 2, k - 1)
  }

  /** The bits of `n == 2 * x + low` are `low` followed by the bits of `x`. */
  lemma Halve(n: nat, x: nat, low: bool)
    requires n == 2 * x + (if low then 1 else 0)
    ensures Bit(n, 0) == low
    ensures forall k: nat :: k > 0 ==> Bit(n, k) == Bit(x, k - 1)
  {
  }

  /** The zero word has no bit set. */
  lemma NoBitOfZero()
    ensures forall k: nat :: !Bit(0, k)
  {
    forall k: nat ensures !Bit(0, k) {
      ZeroBit(k);
    }
  }

  lemma {:induction false} ZeroBit(k: nat)
    ensures !Bit(0, k)
  {
    if k > 0 {
      ZeroBit(k - 1);
    }
  }

  /** Two words with the same bits are the same word. */
  lemma {:induction false} BitsEqual(a: nat, b: nat)
    requires forall k: nat :: Bit(a, k) == Bit(b, k)
    ensures a == b
    decreases a + b
  {
    if a != 0 || b != 0 {
      assert Bit(a, 0) == Bit(b, 0);
      forall k: nat ensures Bit(a / 2, k) == Bit(b / 2, k) {
        assert Bit(a, k + 1) == Bit(b, k + 1);
      }
      BitsEqual(a / 2, b / 2);
    }
  }

  /** The position of some set bit of a non-zero word. */
  function Lowest(n: nat): (k: nat)
    requires n > 0
    ensures Bit(n, k)
  {
    if n % 2 == 1 then 0 else Lowest(n / 2) + 1
  }

  /** Bitwise or (`a | b`). */
  function Or(a: nat, b: nat): (r: nat)
    ensures forall k: nat :: Bit(r, k) <==> Bit(a, k) || Bit(b, k)
    decreases a + b
  {
    if a == 0 then (
      NoBitOfZero();
      b
    ) else if b == 0 then (
      NoBitOfZero();
      a
    ) else (
      var low := a % 2 == 1 || b % 2 == 1;
      var r := 2 * Or(a / 2, b / 2) + (if low then 1 else 0);
      Halve(r, Or(a / 2, b / 2), low);
      Halve(a, a / 2, a % 2 == 1);
      Halve(b, b / 2, b % 2 == 1);
      r
    )
  }

  /** Bitwise and (`a & b`). */
  function And(a: nat, b: nat): (r: nat)
    ensures forall k: nat :: Bit(r, k) <==> Bit(a, k) && Bit(b, k)
    ensures r <= a && r <= b
    decreases a + b
  {
    if a == 0 || b == 0 then (
      NoBitOfZero();
      0
    ) else (
      var low := a % 2 == 1 && b % 2 == 1;
      var r := 2 * And(a / 2, b / 2) + (if low then 1 else 0);
      Halve(r, And(a / 2, b / 2), low);
      Halve(a, a / 2, a % 2 == 1);
      Halve(b, b / 2, b % 2 == 1);
      r
    )
  }

  /** `a | b` is `a + b` when the two words share no bit. */
  lemma {:induction false} OrDisjoint(a: nat, b: nat)
    requires forall k: nat :: !(Bit(a, k) && Bit(b, k))
    ensures Or(a, b) == a + b
    decreases a + b
  {
    if a != 0 && b != 0 {
      assert !(Bit(a, 0) && Bit(b, 0));
      forall k: nat ensures !(Bit(a / 2, k) && Bit(b / 2, k)) {
        assert !(Bit(a, k + 1) && Bit(b, k + 1));
      }
      OrDisjoint(a / 2, b / 2);
    }
  }

  /** `Pow2` is monotonic. */
  lemma {:induction false} Pow2Mono(i: nat, j: nat)
    requires i <= j
    ensures Pow2(i) <= Pow2(j)
  {
    if i < j {
      Pow2Mono(i, j - 1);
    }
  }

  /** `Pow2(a + b)` is `Pow2(a) * Pow2(b)`. */
  lemma {:induction false} Pow2Add(a: nat, b: nat)
    ensures Pow2(a + b) == Pow2(a) * Pow2(b)
  {
    if a > 0 {
      Pow2Add(a - 1, b);
    }
  }

  /** `U64_LIMIT` is `Pow2(64)`. */
  lemma Pow2Of64()
    ensures Pow2(64) == U64_LIMIT
  {
    Pow2Values();
    assert Pow2(64) == 2 * Pow2(63);
  }

  /** `Pow2(j)` has exactly bit `j` set. */
  lemma {:induction false} Pow2Bits(j: nat)
    ensures forall k: nat :: Bit(Pow2(j), k) <==> k == j
  {
    if j == 0 {
      NoBitOfZero();
      Halve(1, 0, true);
    } else {
      Pow2Bits(j - 1);
      Halve(Pow2(j), Pow2(j - 1), false);
    }
  }

  /** A word below `Pow2(j)` has no bit at position `j` or above. */
  lemma {:induction false} NoBitAbove(n: nat, j: nat, k: nat)
    requires n < Pow2(j) && k >= j
    ensures !Bit(n, k)
  {
    if n == 0 {
      ZeroBit(k);
    } else {
      NoBitAbove(n / 2, j - 1, k - 1);
    }
  }

  /** A `u64` has no bit at position 64 or above. */
  lemma U64Bits(x: nat)
    requires x < U64_LIMIT
    ensures forall k: nat :: Bit(x, k) ==> k < 64
  {
    Pow2Of64();
    forall k: nat | k >= 64 ensures !Bit(x, k) {
      NoBitAbove(x, 64, k);
    }
  }

  /** A word with no bit at position `j` or above is below `Pow2(j)`. */
  lemma {:induction false} BelowFromBits(n: nat, j: nat)
    requires forall k: nat :: k >= j ==> !Bit(n, k)
    ensures n < Pow2(j)
  {
    if j == 0 {
      NoBitOfZero();
      BitsEqual(n, 0);
    } else {
      forall k: nat | k >= j - 1 ensures !Bit(n / 2, k) {
        assert !Bit(n, k + 1);
      }
      BelowFromBits(n / 2, j - 1);
    }
  }

  /** The complement of `x` in a `j`-bit word. */
  function Complement(x: nat, j: nat): (r: nat)
    ensures forall k: nat :: Bit(r, k) <==> k < j && !Bit(x, k)
  {
    if j == 0 then (
      NoBitOfZero();
      0
    ) else (
      var low := x % 2 == 0;
      var r := 2 * Complement(x / 2, j - 1) + (if low then 1 else 0);
      Halve(r, Complement(x / 2, j - 1), low);
      Halve(x, x / 2, x % 2 == 1);
      r
    )
  }

  /** The word whose bits are exactly those from `lo` up to, not including, `hi`. */
  function Range(lo: nat, hi: nat): (r: nat)
    requires lo <= hi
    ensures forall k: nat :: Bit(r, k) <==> lo <= k < hi
    decreases hi
  {
    if hi == 0 then (
      NoBitOfZero();
      0
    ) else if lo == 0 then (
      var r := 2 * Range(0, hi - 1) + 1;
      Halve(r, Range(0, hi - 1), true);
      r
    ) else (
      var r := 2 * Range(lo - 1, hi - 1);
      Halve(r, Range(lo - 1, hi - 1), false);
      r
    )
  }

  /** The `u64` complement `!x`. */
  function Not64(x: nat): (r: nat)
    ensures r < U64_LIMIT
    ensures forall k: nat :: Bit(r, k) <==> k < 64 && !Bit(x, k)
  {
    var r := Complement(x, 64);
    Pow2Of64();
    BelowFromBits(r, 64);
    r
  }

  /** `Range(0, j)`, the `j` low ones, is `Pow2(j) - 1`. */
  lemma {:induction false} OnesValue(j: nat)
    ensures Range(0, j) == Pow2(j) - 1
  {
    if j > 0 {
      OnesValue(j - 1);
    }
  }

  /** The low `j` bits of `x`, that is `x % Pow2(j)` (see `LowIsMod`). */
  function Low(x: nat, j: nat): (r: nat)
    ensures r < Pow2(j)
    ensures forall k: nat :: Bit(r, k) <==> k < j && Bit(x, k)
  {
    if j == 0 then (
      NoBitOfZero();
      0
    ) else (
      var r := 2 * Low(x / 2, j - 1) + x % 2;
      Halve(r, Low(x / 2, j - 1), x % 2 == 1);
      Halve(x, x / 2, x % 2 == 1);
      r
    )
  }

  /** `x` with its low `j` bits cleared, that is `x - x % Pow2(j)`. */
  function High(x: nat, j: nat): (r: nat)
    ensures r + Low(x, j) == x
    ensures forall k: nat :: Bit(r, k) <==> k >= j && Bit(x, k)
  {
    if j == 0 then
      x
    else (
      var r := 2 * High(x / 2, j - 1);
      Halve(r, High(x / 2, j - 1), false);
      Halve(x, x / 2, x % 2 == 1);
      r
    )
  }

  /** Uniqueness of Euclidean division. */
  lemma DivModUnique(x: nat, d: nat, q: nat, m: nat)
    requires d > 0 && x == d * q + m && m < d
    ensures x / d == q && x % d == m
  {
    var q0, m0 := x / d, x % d;
    assert x == d * q0 + m0;
    if q0 > q {
      assert d * q0 >= d * (q + 1) by { MulMono(d, q + 1, q0); }
    } else if q0 < q {
      assert d * q >= d * (q0 + 1) by { MulMono(d, q0 + 1, q); }
    }
  }

  /** Euclid's division of `x` by `d`. */
  lemma DivModOf(x: nat, d: nat)
    requires d > 0
    ensures x == d * (x / d) + x % d && 0 <= x % d < d
  {
  }

  /** Two nested divisions, `x == a * q1 + r1` and `q1 == b * q2 + r2`, make one division by `a * b`. */
  lemma NestedProduct(a: nat, b: nat, q2: nat, r1: nat, r2: nat)
    requires r1 < a && r2 < b
    ensures a * (b * q2 + r2) + r1 == (a * b) * q2 + (a * r2 + r1)
    ensures a * r2 + r1 < a * b
  {
    MulAdd(a, b * q2, r2);
    MulAssoc(a, b, q2);
    MulMono(a, r2, b - 1);
    MulAdd(a, b - 1, 1);
  }

  lemma MulAdd(a: int, u: int, v: int)
    ensures a * (u + v) == a * u + a * v
  {
  }

  lemma MulAssoc(a: int, b: int, c: int)
    ensures a * (b * c) == (a * b) * c
  {
  }

  lemma MulTwice(p: int, k: int)
    ensures (2 * p) * k == 2 * (p * k)
  {
  }

  /** The quotient of a natural number by a positive divisor is a natural number no larger than it. */
  lemma DivBounds(x: nat, d: nat)
    requires d > 0
    ensures 0 <= x / d <= x
  {
    var q, r := x / d, x % d;
    assert x == d * q + r && 0 <= r < d;
    if q < 0 {
      MulMonoInt(d, q, -1);
    } else {
      MulMono(q, 1, d);
    }
  }

  lemma MulMonoInt(d: nat, a: int, b: int)
    requires a <= b
    ensures d * a <= d * b
  {
    assert d * b - d * a == d * (b - a);
  }

  lemma MulMono(d: nat, a: nat, b: nat)
    requires a <= b
    ensures d * a <= d * b
  {
  }

  /** The remainder modulo `Pow2(j)` in terms of the remainder of the halved word. */
  lemma ModPow2Half(x: nat, j: nat)
    requires j > 0
    ensures x % Pow2(j) == 2 * ((x / 2) % Pow2(j - 1)) + x % 2
  {
    var p, d := Pow2(j - 1), Pow2(j);
    var q := x / 2;
    var k, r := q / p, q % p;
    assert d == 2 * p;
    assert q == p * k + r && r < p;
    MulTwice(p, k);
    DivModUnique(x, d, k, 2 * r + x % 2);
  }

  /** `Low` is the remainder modulo `Pow2(j)` and `High` rounds down to a multiple of it. */
  lemma {:induction false} LowIsMod(x: nat, j: nat)
    ensures Low(x, j) == x % Pow2(j)
    ensures High(x, j) == x - x % Pow2(j)
  {
    if j > 0 {
      LowIsMod(x / 2, j - 1);
      ModPow2Half(x, j);
    }
  }

  /** A word is a multiple of `Pow2(j)` exactly when its bits below `j` are clear. */
  lemma AlignedBits(n: nat, j: nat)
    ensures n % Pow2(j) == 0 ==> forall k: nat :: k < j ==> !Bit(n, k)
    ensures (forall k: nat :: k < j ==> !Bit(n, k)) ==> n % Pow2(j) == 0
  {
    LowIsMod(n, j);
    LowZero(n, j);
  }

  lemma LowZero(n: nat, j: nat)
    ensures Low(n, j) == 0 ==> forall k: nat :: k < j ==> !Bit(n, k)
    ensures (forall k: nat :: k < j ==> !Bit(n, k)) ==> Low(n, j) == 0
  {
    var low := Low(n, j);
    if low == 0 {
      forall k: nat | k < j ensures !Bit(n, k) {
        ZeroBit(k);
        assert !Bit(low, k);
      }
    } else {
      var k := Lowest(low);
      assert k < j && Bit(n, k);
    }
  }

  /**
   * Clearing the bits below `j` of a `u64`, `x & !(Pow2(j) - 1)`, rounds it
   * down to a multiple of `Pow2(j)`.
   */
  lemma RoundDownMask(x: nat, j: nat)
    requires x < U64_LIMIT
    ensures And(x, Not64(Pow2(j) - 1)) == x - x % Pow2(j)
    ensures (x - x % Pow2(j)) % Pow2(j) == 0
  {
    RoundDownIsMultiple(x, Pow2(j));
    LowIsMod(x, j);
    MaskIsHigh(x, j);
  }

  /** Clearing the `j` low bits with a mask is `High`. */
  lemma MaskIsHigh(x: nat, j: nat)
    requires x < U64_LIMIT
    ensures And(x, Not64(Pow2(j) - 1)) == High(x, j)
  {
    OnesValue(j);
    U64Bits(x);
    BitsEqual(And(x, Not64(Pow2(j) - 1)), High(x, j));
  }

  /** Subtracting the remainder leaves a multiple of the divisor. */
  lemma RoundDownIsMultiple(x: nat, d: nat)
    requires d > 0
    ensures (x - x % d) % d == 0
  {
    assert x - x % d == d * (x / d);
    DivModUnique(x - x % d, d, x / d, 0);
  }

  /** The powers of two the paging structures are built from. */
  /** The two powers the page-table code uses most. */
  lemma Pow2Small()
    ensures Pow2(9) == 512 && Pow2(12) == 4096
  {
    assert Pow2(4) == 0x10;
  }

  /** Nine more bits multiply by 512. */
  lemma Pow2Nine(e: nat, f: nat)
    requires f == e + 9
    ensures Pow2(f) == Pow2(e) * 512 == 512 * Pow2(e)
  {
    Pow2Small();
    Pow2Add(e, 9);
  }

  lemma Pow2Values()
    ensures Pow2(9) == 0x200 && Pow2(12) == 0x1000
    ensures Pow2(21) == 0x20_0000 && Pow2(30) == 0x4000_0000
    ensures Pow2(39) == 0x80_0000_0000 && Pow2(48) == 0x1_0000_0000_0000
    ensures Pow2(52) == 0x10_0000_0000_0000 && Pow2(60) == 0x1000_0000_0000_0000
    ensures Pow2(62) == 0x4000_0000_0000_0000 && Pow2(63) == 0x8000_0000_0000_0000
  {
    assert Pow2(4) == 0x10;
    assert Pow2(9) == 0x200;
    assert Pow2(12) == 0x1000;
    Pow2Add(12, 9);
    Pow2Add(21, 9);
    Pow2Add(30, 9);
    Pow2Add(39, 9);
    Pow2Add(48, 4);
    Pow2Add(48, 12);
    Pow2Add(60, 2);
    Pow2Add(62, 1);
  }

  /** `Range(lo, hi)` is `Pow2(hi) - Pow2(lo)`. */
  lemma RangeValue(lo: nat, hi: nat)
    requires lo <= hi
    ensures Range(lo, hi) == Pow2(hi) - Pow2(lo)
  {
    OnesValue(hi);
    OnesValue(lo);
    Pow2Mono(lo, hi);
    OrDisjoint(Range(0, lo), Range(lo, hi));
    BitsEqual(Or(Range(0, lo), Range(lo, hi)), Range(0, hi));
  }

  /** `a & b == 0` exactly when `a` and `b` share no bit. */
  lemma AndZero(a: nat, b: nat)
    ensures And(a, b) == 0 ==> forall k: nat :: !(Bit(a, k) && Bit(b, k))
    ensures (forall k: nat :: !(Bit(a, k) && Bit(b, k))) ==> And(a, b) == 0
  {
    NoBitOfZero();
    if forall k: nat :: !(Bit(a, k) && Bit(b, k)) {
      BitsEqual(And(a, b), 0);
    }
  }

  /** Two disjoint runs of ones, written as a sum of powers of two. */
  lemma TwoRanges(x: nat, lo1: nat, hi1: nat, lo2: nat, hi2: nat)
    requires lo1 <= hi1 <= lo2 <= hi2
    requires x == Pow2(hi1) - Pow2(lo1) + Pow2(hi2) - Pow2(lo2)
    ensures forall k: nat :: Bit(x, k) <==> lo1 <= k < hi1 || lo2 <= k < hi2
  {
    var a := Range(lo1, hi1);
    var b := Range(lo2, hi2);
    RangeValue(lo1, hi1);
    RangeValue(lo2, hi2);
    OrDisjoint(a, b);
  }
}
