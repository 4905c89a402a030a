/** Page alignment helpers (`src/utility/mod.rs`). */
module Utility {
  import opened Bits

  /** `(x + 0xfff) & !0xfff`: the smallest multiple of 4096 that is at least `x`. */
  function AlignPageUp(x: nat): (r: nat)
    requires x + 0xfff < U64_LIMIT
    ensures r % 4096 == 0 && x <= r < x + 4096
  {
    RoundDownPage(x + 0xfff);
    And(x + 0xfff, Not64(0xfff))
  }

  /** `x & !0xfff`: the largest multiple of 4096 that is at most `x`. */
  function AlignPageDown(x: nat): (r: nat)
    requires x < U64_LIMIT
    ensures r % 4096 == 0 && r <= x < r + 4096
  {
    RoundDownPage(x);
    And(x, Not64(0xfff))
  }

  /** Masking with `!0xfff` rounds down to a multiple of 4096. */
  lemma RoundDownPage(x: nat)
    requires x < U64_LIMIT
    ensures And(x, Not64(0xfff)) == x - x % 4096
    ensures x % 4096 <= 0xfff && (x - x % 4096) % 4096 == 0
  {
    Pow2Small();
    RoundDownMask(x, 12);
  }

  /** Rounding down never passes rounding up, and the two meet exactly on page boundaries. */
  lemma AlignDownUp(x: nat)
    requires x + 0xfff < U64_LIMIT
    ensures AlignPageDown(x) <= AlignPageUp(x)
    ensures AlignPageDown(x) == AlignPageUp(x) <==> x % 4096 == 0
    ensures x % 4096 == 0 ==> AlignPageUp(x) == x && AlignPageDown(x) == x
  {
    var down, up := AlignPageDown(x), AlignPageUp(x);
    if x % 4096 == 0 {
      OneMultiple(down, x);
      OneMultiple(x, up);
    }
  }

  /** Rounding is idempotent: an aligned value is its own rounding. */
  lemma AlignIdempotent(x: nat)
    requires x + 0xfff < U64_LIMIT
    ensures AlignPageUp(x) + 0xfff < U64_LIMIT
    ensures AlignPageUp(AlignPageUp(x)) == AlignPageUp(x)
    ensures AlignPageDown(AlignPageDown(x)) == AlignPageDown(x)
  {
    var up, down := AlignPageUp(x), AlignPageDown(x);
    AlignedBelow(up, U64_LIMIT);
    AlignDownUp(up);
    AlignDownUp(down);
  }

  /** A multiple of 4096 below another is at least 4096 below it. */
  lemma AlignedBelow(a: nat, b: nat)
    requires a % 4096 == 0 && b % 4096 == 0 && a < b
    ensures a + 4096 <= b
  {
    var qa, qb := a / 4096, b / 4096;
    assert a == 4096 * qa && b == 4096 * qb;
    assert qa < qb;
  }

  /** Two multiples of 4096 less than 4096 apart are equal. */
  lemma OneMultiple(a: nat, b: nat)
    requires a % 4096 == 0 && b % 4096 == 0 && a <= b < a + 4096
    ensures a == b
  {
    var qa, qb := a / 4096, b / 4096;
    assert a == 4096 * qa && b == 4096 * qb;
    assert qa <= qb < qa + 1;
  }
}
