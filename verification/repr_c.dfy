/**
 * The C layout of a structure (`#[repr(C)]`): each field in declaration
 * order at the next offset aligned for it, and the whole rounded up to the
 * largest alignment.
 */
module ReprC {
  /** A field's size and alignment, in bytes. */
  datatype Field = Field(size: int, align: int)

  /** The fields of a structure, in declaration order. */
  datatype Fields = Nil | Cons(head: Field, tail: Fields)

  /** Every size is a byte count and every alignment is positive. */
  predicate WellFormed(fs: Fields)
  {
    fs.Cons? ==> fs.head.size >= 0 && fs.head.align > 0 && WellFormed(fs.tail)
  }

  /** How many fields there are. */
  function Length(fs: Fields): (n: nat)
  {
    if fs.Nil? then 0 else 1 + Length(fs.tail)
  }

  /** Field `i`. */
  function At(fs: Fields, i: nat): (f: Field)
    requires i < Length(fs)
  {
    if i == 0 then fs.head else At(fs.tail, i - 1)
  }

  /** `x` rounded up to a multiple of `a`. */
  function RoundUp(x: int, a: int): int
  {
    if a <= 0 || x % a == 0 then x else x + (a - x % a)
  }

  /** `RoundUp(x, a)` is the smallest multiple of `a` that is at least `x`. */
  lemma RoundUpIsNextMultiple(x: int, a: int)
    requires a > 0
    ensures RoundUp(x, a) % a == 0 && x <= RoundUp(x, a) < x + a
  {
    var q, m := x / a, x % a;
    assert x == a * q + m && 0 <= m < a;
    if m != 0 {
      assert RoundUp(x, a) == a * (q + 1);
      MultipleMod(a, q + 1);
    }
  }

  lemma MultipleMod(a: int, k: int)
    requires a > 0
    ensures (a * k) % a == 0
  {
    var q, r := (a * k) / a, (a * k) % a;
    assert a * k == a * q + r && 0 <= r < a;
    MulSign(a, k - q);
    assert r == a * (k - q);
  }

  lemma MulSign(a: int, d: int)
    requires a > 0
    ensures d >= 1 ==> a * d >= a
    ensures d <= -1 ==> a * d <= -a
  {
  }

  /** The offsets of the fields laid out from `at` on: each at the next offset aligned for it. */
  function Offsets(fs: Fields, at: int): (offs: seq<int>)
  {
    if fs.Nil? then []
    else
      var o := RoundUp(at, fs.head.align);
      [o] + Offsets(fs.tail, o + fs.head.size)
  }

  /** Where the last field ends when the fields are laid out from `at` on. */
  function End(fs: Fields, at: int): int
  {
    if fs.Nil? then at else End(fs.tail, RoundUp(at, fs.head.align) + fs.head.size)
  }

  /**
   * There is one offset per field; each field is aligned for its type and
   * ends at or before the next one starts, so the fields keep their order
   * and never overlap, and all of them end by `End`.
   */
  lemma {:induction false} OffsetsOrdered(fs: Fields, at: int)
    requires WellFormed(fs)
    ensures |Offsets(fs, at)| == Length(fs)
    ensures forall i :: 0 <= i < Length(fs) ==> At(fs, i).align > 0 && Offsets(fs, at)[i] % At(fs, i).align == 0 && at <= Offsets(fs, at)[i]
    ensures forall i :: 0 <= i < Length(fs) - 1 ==> Offsets(fs, at)[i] + At(fs, i).size <= Offsets(fs, at)[i + 1]
    ensures forall i :: 0 <= i < Length(fs) ==> Offsets(fs, at)[i] + At(fs, i).size <= End(fs, at)
    ensures at <= End(fs, at)
  {
    if fs.Cons? {
      var o := RoundUp(at, fs.head.align);
      var rest := Offsets(fs.tail, o + fs.head.size);
      RoundUpIsNextMultiple(at, fs.head.align);
      OffsetsOrdered(fs.tail, o + fs.head.size);
      assert Offsets(fs, at) == [o] + rest;
      assert forall i :: 1 <= i < Length(fs) ==> Offsets(fs, at)[i] == rest[i - 1] && At(fs, i) == At(fs.tail, i - 1);
    }
  }

  /** The largest alignment of the fields, at least 1. */
  function MaxAlign(fs: Fields): int
  {
    if fs.Nil? then 1
    else
      var rest := MaxAlign(fs.tail);
      if fs.head.align > rest then fs.head.align else rest
  }

  /** The structure's alignment is at least 1 and at least every field's. */
  lemma {:induction false} MaxAlignBounds(fs: Fields)
    ensures MaxAlign(fs) >= 1
    ensures forall i :: 0 <= i < Length(fs) ==> At(fs, i).align <= MaxAlign(fs)
  {
    if fs.Cons? {
      MaxAlignBounds(fs.tail);
      assert forall i :: 1 <= i < Length(fs) ==> At(fs, i) == At(fs.tail, i - 1);
    }
  }

  /** `size_of` the structure: its fields' end, rounded up to its alignment. */
  function SizeOf(fs: Fields): int
  {
    RoundUp(End(fs, 0), MaxAlign(fs))
  }

  /** The size is a multiple of the alignment, and every field ends within it. */
  lemma SizeOfBounds(fs: Fields)
    requires WellFormed(fs)
    ensures SizeOf(fs) % MaxAlign(fs) == 0 && 0 <= End(fs, 0) <= SizeOf(fs)
  {
    MaxAlignBounds(fs);
    OffsetsOrdered(fs, 0);
    RoundUpIsNextMultiple(End(fs, 0), MaxAlign(fs));
  }
}
