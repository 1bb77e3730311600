/** Struct layout: the offset algorithm of the C helper
    `_go_ffi_type_get_offset` (pkg/ffi/type.go:21-36) and libffi's
    aggregate size rule (trailing padding up to the largest alignment). */
module Layout {

  import opened Arith

  /** What the layout needs of a field's type: its size and alignment. */
  datatype Slot = Slot(size: nat, align: nat)

  /** Every alignment is positive (the C helper divides by it). */
  predicate Aligned(s: seq<Slot>)
  {
    forall i :: 0 <= i < |s| ==> s[i].align > 0
  }

  /** Round x up to a multiple of a as the C helper does: when x % a is
      not 0, add the a - x % a bytes that are missing. */
  function AlignUp(x: nat, a: nat): (r: nat)
    requires a > 0
    ensures r % a == 0
    ensures x <= r < x + a
  {
    if x % a == 0 then x
    else
      ModUnique(x + (a - x % a), a, x / a + 1, 0);
      x + (a - x % a)
  }

  /** AlignUp gives the least multiple of a that is at least x. */
  lemma AlignUpLeast(x: nat, a: nat, y: nat)
    requires a > 0 && y % a == 0 && x <= y
    ensures AlignUp(x, a) <= y
  {
    if x % a != 0 {
      var q := x / a;
      var k := y / a;
      assert y == k * a;
      assert x == q * a + x % a;
      if k <= q {
        MulMonotone(k, q, a);
      } else {
        MulMonotone(q + 1, k, a);
      }
    }
  }

  /** The running offset after the C loop has placed the first n fields:
      each field starts at the previous end rounded up to its own
      alignment and ends its size later. */
  function End(s: seq<Slot>, n: nat): nat
    requires Aligned(s) && n <= |s|
  {
    if n == 0 then 0 else AlignUp(End(s, n - 1), s[n - 1].align) + s[n - 1].size
  }

  /** The offset of field i: the end of the fields before it, aligned. */
  function Offset(s: seq<Slot>, i: nat): nat
    requires Aligned(s) && i < |s|
  {
    AlignUp(End(s, i), s[i].align)
  }

  function Max(a: nat, b: nat): nat
  {
    if a < b then b else a
  }

  /** The largest alignment of the fields: libffi's struct alignment. */
  function MaxAlign(s: seq<Slot>): (r: nat)
    ensures forall i :: 0 <= i < |s| ==> s[i].align <= r
    ensures Aligned(s) && |s| > 0 ==> r > 0
  {
    if |s| == 0 then 0 else Max(s[|s| - 1].align, MaxAlign(s[..|s| - 1]))
  }

  /** The struct's size: the end of the last field, rounded up to the
      struct's alignment. */
  function Size(s: seq<Slot>): nat
    requires Aligned(s) && |s| > 0
  {
    AlignUp(End(s, |s|), MaxAlign(s))
  }

  /** The first field sits at offset 0. */
  lemma FirstOffset(s: seq<Slot>)
    requires Aligned(s) && |s| > 0
    ensures Offset(s, 0) == 0
  {
  }

  /** Field i sits at the least position that is a multiple of its
      alignment and not before the end of field i - 1. */
  lemma OffsetIsLeastAligned(s: seq<Slot>, i: nat, y: nat)
    requires Aligned(s) && 0 < i < |s|
    ensures Offset(s, i) % s[i].align == 0
    ensures Offset(s, i) >= Offset(s, i - 1) + s[i - 1].size
    ensures y % s[i].align == 0 && y >= Offset(s, i - 1) + s[i - 1].size ==> Offset(s, i) <= y
  {
    if y % s[i].align == 0 && y >= Offset(s, i - 1) + s[i - 1].size {
      AlignUpLeast(End(s, i), s[i].align, y);
    }
  }

  /** The running end only grows. */
  lemma {:induction false} EndMonotone(s: seq<Slot>, m: nat, n: nat)
    requires Aligned(s) && m <= n <= |s|
    ensures End(s, m) <= End(s, n)
  {
    if m < n {
      EndMonotone(s, m, n - 1);
    }
  }

  /** Fields never overlap: every later field starts at or after the end
      of every earlier one. */
  lemma NoOverlap(s: seq<Slot>, i: nat, j: nat)
    requires Aligned(s) && i < j < |s|
    ensures Offset(s, i) + s[i].size <= Offset(s, j)
  {
    EndMonotone(s, i + 1, j);
  }

  /** Every field lies inside the struct, and the size is the least
      multiple of the struct's alignment that holds the last field. */
  lemma FieldInside(s: seq<Slot>, i: nat)
    requires Aligned(s) && i < |s|
    ensures Offset(s, i) + s[i].size <= Size(s)
    ensures Size(s) % MaxAlign(s) == 0
    ensures End(s, |s|) <= Size(s) < End(s, |s|) + MaxAlign(s)
  {
    EndMonotone(s, i + 1, |s|);
  }
}
