/**
 * Where the kernel places the public data area's parts (`src/arch/x86_64/public.rs`):
 * a `PublicData` record at the start, then the framebuffer records one
 * after the other.
 */
module PublicLayout {
  import opened PublicData

  /** The size of the area and the offsets of its two parts. */
  datatype Layout = Layout(size: nat, root: nat, framebuffers: nat)

  /** `PublicDataLayout::compute`: offsets accumulated from 0, the root record first. */
  function Compute(framebufferCount: nat): (l: Layout)
  {
    var root := 0;
    var framebuffers := root + PUBLIC_DATA_SIZE;
    Layout(framebuffers + FRAMEBUFFER_SIZE * framebufferCount, root, framebuffers)
  }

  /**
   * The root record sits at the start of the area and the framebuffer
   * records follow it: the two parts are disjoint, and framebuffer record
   * `i` lies inside the area, after record `i - 1` and aligned like a word.
   */
  lemma PartsDisjoint(framebufferCount: nat, i: nat)
    requires i < framebufferCount
    ensures Compute(framebufferCount).root == 0
    ensures Compute(framebufferCount).root + PUBLIC_DATA_SIZE <= Compute(framebufferCount).framebuffers
    ensures Compute(framebufferCount).framebuffers + FRAMEBUFFER_SIZE * i + FRAMEBUFFER_SIZE <= Compute(framebufferCount).size
    ensures (Compute(framebufferCount).framebuffers + FRAMEBUFFER_SIZE * i) % 8 == 0
  {
    var l := Compute(framebufferCount);
    assert FRAMEBUFFER_SIZE * i + FRAMEBUFFER_SIZE == FRAMEBUFFER_SIZE * (i + 1);
    MulMono(FRAMEBUFFER_SIZE, i + 1, framebufferCount);
    assert l.framebuffers + FRAMEBUFFER_SIZE * i == 8 * (2 + 6 * i);
  }

  /** With no framebuffers the area is exactly one `PublicData` record. */
  lemma EmptyLayout()
    ensures Compute(0).size == PUBLIC_DATA_SIZE
  {
  }

  /** Each further framebuffer makes the area one record larger, so the size grows strictly with the count. */
  lemma {:induction false} SizeGrows(a: nat, b: nat)
    requires a < b
    ensures Compute(a).size < Compute(b).size
    ensures Compute(b).size - Compute(a).size == FRAMEBUFFER_SIZE * (b - a)
  {
    assert FRAMEBUFFER_SIZE * b == FRAMEBUFFER_SIZE * a + FRAMEBUFFER_SIZE * (b - a);
  }

  lemma MulMono(d: nat, a: nat, b: nat)
    requires a <= b
    ensures d * a <= d * b
  {
  }
}
