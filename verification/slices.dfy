/** Slice values (pkg/ffi/value.go:578-644): MakeSlice, which backs a
    slice with a fresh array of its capacity, and grow_slice, Append's
    growth step. Both are written as the procedures the source runs and
    are specified by the predicates MadeSlice and GrewSlice. */
module Slices {

  import opened Base
  import opened Kinds
  import opened Errors
  import opened Bytes
  import opened Arith
  import opened Types
  import opened Memory
  import opened Values

  /** A new slice value with the registry and heap that now hold it. */
  datatype Made = Made(v: Value, reg: Registry, mem: Heap)

  /** What MakeSlice(t, len, cap) returns: the panics of its argument
      checks, in the source's order; the panic of the scratch
      `make([]byte, len*es, cap*es)` (es the element size, products
      wrapped to size_t); the panic "ffi: " + the error when NewArrayType
      refuses the array "<elem>[cap]"; New's panic when that array's size
      is negative as a Go int; otherwise a slice of t over a fresh zeroed
      array of that type appended to the heap. */
  predicate MadeSlice(reg: Registry, p: Platform, mem: Heap, t: Option<Type>, len: int, cap: int, r: Result<Made>)
    requires RegistryOk(reg) && PlatformOk(p)
  {
    if t.None? then r == Fail(NilType)
    else if KindOf(t.value) != Slice then r == Fail(Panic("ffi.MakeSlice of non-slice type"))
    else if len < 0 then r == Fail(Panic("ffi.MakeSlice: negative len"))
    else if cap < 0 then r == Fail(Panic("ffi.MakeSlice: negative cap"))
    else if len > cap then r == Fail(Panic("ffi.MakeSlice: len > cap"))
    else if !t.value.SliceType? then r == Fail(Panic("ffi: Elem of invalid type"))
    else if Scratch(p, t.value, len, cap).Some? then r == Fail(Scratch(p, t.value, len, cap).value)
    else
      var arr := NewArrayType(reg, p, cap, t.value.elem);
      if arr.Err? then r == Fail(Panic("ffi: " + arr.msg))
      else if arr.value.t.size >= Half(p.word) then r == Fail(MakeLenRange)
      else r == Ok(Made(SliceView(t.value, |mem|, len, cap), arr.value.reg, mem + Zeros(arr.value.t.size)))
  }

  /** The panic, if any, of MakeSlice's scratch buffer
      `make([]byte, len*es, cap*es)` (pkg/ffi/value.go:595-597): both
      byte counts are uintptr products, so they wrap to size_t. */
  function Scratch(p: Platform, t: Type, len: nat, cap: nat): (r: Option<Fault>)
    requires PlatformOk(p) && t.SliceType?
    ensures len * t.elem.size <= cap * t.elem.size < Half(p.word) ==> r.None?
    ensures r.None? ==> SizeT(p, cap * t.elem.size) < Half(p.word)
  {
    MakeBytesFault(p, SizeT(p, len * t.elem.size), SizeT(p, cap * t.elem.size))
  }

  /** MakeSlice (pkg/ffi/value.go:578-611): the backing array comes from
      NewArrayType and New, which never sees a size of 0 here. */
  method MakeSlice(reg: Registry, p: Platform, mem: Heap, t: Option<Type>, len: int, cap: int) returns (r: Result<Made>)
    requires RegistryOk(reg) && PlatformOk(p)
    ensures MadeSlice(reg, p, mem, t, len, cap, r)
    ensures r.Ok? <==>
      && t.Some? && t.value.SliceType? && 0 <= len <= cap
      && Scratch(p, t.value, len, cap).None?
      && NewArrayType(reg, p, cap, t.value.elem).Ok?
      && NewArrayType(reg, p, cap, t.value.elem).value.t.size < Half(p.word)
  {
    if t.None? {
      return Fail(NilType);
    }
    if KindOf(t.value) != Slice {
      return Fail(Panic("ffi.MakeSlice of non-slice type"));
    }
    if len < 0 {
      return Fail(Panic("ffi.MakeSlice: negative len"));
    }
    if cap < 0 {
      return Fail(Panic("ffi.MakeSlice: negative cap"));
    }
    if len > cap {
      return Fail(Panic("ffi.MakeSlice: len > cap"));
    }
    var e :- ElemOf(t.value);
    var scratch := Scratch(p, t.value, len, cap);
    if scratch.Some? {
      return Fail(scratch.value);
    }
    var arr := NewArrayType(reg, p, cap, e);
    if arr.Err? {
      return Fail(Panic("ffi: " + arr.msg));
    }
    var a :- New(mem, p, Some(arr.value.t));
    r := Ok(Made(SliceView(t.value, a.v.addr, len, cap), arr.value.reg, a.mem));
  }

  /** With a fresh array name and no size_t overflow, the slice's storage
      is exactly cap elements. With no storage at all (cap or the element
      size 0) MakeSlice panics with libffi's FFI_BAD_TYPEDEF, and with a
      byte count that is negative as a Go int it panics in `make`. */
  lemma MadeSliceFresh(reg: Registry, p: Platform, mem: Heap, t: Type, len: int, cap: int, r: Result<Made>)
    requires RegistryOk(reg) && PlatformOk(p) && t.SliceType?
    requires 0 <= len <= cap && cap * t.elem.size < Pow256(p.word)
    requires ArrayName(cap, t.elem) !in reg
    requires MadeSlice(reg, p, mem, Some(t), len, cap, r)
    ensures Scale(cap, t.elem.size) == 0 ==> r == Fail(Panic("ffi: " + BadTypedef))
    ensures Scale(len, t.elem.size) >= Half(p.word) ==> r == Fail(MakeLenRange)
    ensures Scale(len, t.elem.size) < Half(p.word) <= Scale(cap, t.elem.size) ==> r == Fail(MakeCapRange)
    ensures 0 < Scale(cap, t.elem.size) < Half(p.word) ==>
      r == Ok(Made(SliceView(t, |mem|, len, cap), NewArrayType(reg, p, cap, t.elem).value.reg,
                   mem + Zeros(Scale(cap, t.elem.size))))
  {
    MulMonotone(len, cap, t.elem.size);
    assert SizeT(p, len * t.elem.size) == Scale(len, t.elem.size);
    assert SizeT(p, cap * t.elem.size) == Scale(cap, t.elem.size);
  }

  /** A slice made with a fresh array type reports the requested length
      and capacity, and each of its first len elements is a zero view
      inside the new storage. */
  lemma MadeSliceElements(reg: Registry, p: Platform, mem: Heap, t: Type, len: int, cap: int, r: Result<Made>, i: nat)
    requires RegistryOk(reg) && PlatformOk(p) && t.SliceType?
    requires 0 <= len <= cap && cap * t.elem.size < Half(p.word)
    requires ArrayName(cap, t.elem) !in reg
    requires MadeSlice(reg, p, mem, Some(t), len, cap, r)
    requires t.elem.size > 0 && i < len
    ensures r.Ok?
    ensures
      var es := t.elem.size;
      && Len(r.value.mem, p, r.value.v) == Ok(len) && Cap(r.value.mem, p, r.value.v) == Ok(cap)
      && Index(r.value.mem, p, r.value.v, i) == Ok(View(t.elem, |mem| + Scale(i, es)))
      && Load(r.value.mem, |mem| + Scale(i, es), es) == Ok(Zeros(es))
  {
    var es := t.elem.size;
    MulAtLeast(cap, es);
    MadeSliceFresh(reg, p, mem, t, len, cap, r);
    ElementInside(i, cap, es);
    LoadZeros(mem, Scale(cap, es), Scale(i, es), es);
  }

  /** The capacity grow_slice's loop reaches from m: double while the old
      length is below 1024, else add a quarter, until m reaches i1. */
  function GrowFrom(i0: int, i1: int, m: int): (r: int)
    requires m >= 1 && (i0 >= 1024 ==> m >= i0)
    ensures r >= i1 && r >= m
    ensures m < i1 && i0 < 1024 ==> r < 2 * i1
    ensures m < i1 && i0 >= 1024 ==> 4 * r < 5 * i1
    decreases i1 - m
  {
    if m >= i1 then m
    else if i0 < 1024 then GrowFrom(i0, i1, m + m)
    else GrowFrom(i0, i1, m + m / 4)
  }

  /** The capacity grow_slice asks MakeSlice for: extra when the slice
      had none, else the loop's result. */
  function NewCap(i0: int, i1: int, cap: int, extra: int): int
    requires 0 <= i0 <= cap
  {
    if cap == 0 then extra else GrowFrom(i0, i1, cap)
  }

  /** grow_slice's capacity loop (pkg/ffi/value.go:628-638), as the loop
      the source runs; it reaches the capacity NewCap defines. */
  method GrowCap(i0: int, i1: int, cap: int, extra: int) returns (m: int)
    requires 0 <= i0 <= cap < i1
    ensures m == NewCap(i0, i1, cap, extra)
    ensures cap > 0 ==> i1 <= m
  {
    m := cap;
    if m == 0 {
      m := extra;
    } else {
      while m < i1
        invariant m >= cap && m >= 1
        invariant GrowFrom(i0, i1, m) == GrowFrom(i0, i1, cap)
        decreases i1 - m
      {
        if i0 < 1024 {
          m := m + m;
        } else {
          m := m + m / 4;
        }
      }
    }
  }

  /** grow_slice's results: the grown slice and the old and new lengths. */
  datatype Grown = Grown(v: Value, i0: int, i1: int, reg: Registry, mem: Heap)

  /** Go's slice invariant for a slice value's header: 0 <= len <= cap. */
  predicate HeaderOk(mem: Heap, p: Platform, s: Value)
    requires PlatformOk(p)
  {
    HasType(s) && KindOf(s.typ) == Slice && HeaderOf(mem, p, s).Ok? ==>
      0 <= HeaderOf(mem, p, s).value.len <= HeaderOf(mem, p, s).value.cap
  }

  /** How many bytes the growing copy moves: the old length itself as
      written, the old length times the element size corrected. */
  function CopyCount(len: nat, es: nat, asWritten: bool): (r: nat)
    ensures asWritten ==> r == len
    ensures !asWritten ==> r == Scale(len, es)
  {
    if asWritten then len else Scale(len, es)
  }

  /** What grow_slice(s, extra) returns. With h the slice's header and
      i1 = h.len + extra wrapped to a Go int: an overflow panic when i1
      falls below h.len; the slice resliced to i1 when the capacity
      suffices; otherwise a new slice of length i1 and capacity NewCap
      over fresh storage into which the old contents were copied. */
  predicate GrewSlice(reg: Registry, p: Platform, mem: Heap, s: Value, extra: int, asWritten: bool, r: Result<Grown>)
    requires RegistryOk(reg) && PlatformOk(p) && InSigned(extra, p.word) && HeaderOk(mem, p, s)
  {
    if s.Invalid? then r == Fail(NilType)
    else if KindOf(s.typ) != Slice then r == Fail(WrongKind(KindOf(s.typ)))
    else if !HeaderOf(mem, p, s).Ok? then r == HeaderOf(mem, p, s).PropagateFailure()
    else
      var h := HeaderOf(mem, p, s).value;
      var i1 := WrapSigned(h.len + extra, p.word);
      if i1 < h.len then r == Fail(Panic("ffi.Append: slice overflow"))
      else if i1 <= h.cap then
        r == if s.typ.SliceType? then Ok(Grown(SliceView(s.typ, h.data, i1, h.cap), h.len, i1, reg, mem))
             else Fail(Conversion)
      else if !s.typ.SliceType? then r == Fail(Panic("ffi: Elem of invalid type"))
      else Reallocated(reg, p, mem, s.typ, h, i1, NewCap(h.len, i1, h.cap, extra), asWritten, r)
  }

  /** The growing branch: MakeSlice(t, i1, c) and the copy of the old
      contents (CopyCount bytes) to the start of its storage. */
  predicate Reallocated(reg: Registry, p: Platform, mem: Heap, t: Type, h: Header, i1: int, c: int,
                        asWritten: bool, r: Result<Grown>)
    requires RegistryOk(reg) && PlatformOk(p) && t.SliceType? && 0 <= h.len <= i1 <= c
  {
    var arr := NewArrayType(reg, p, c, t.elem);
    var n := CopyCount(h.len, t.elem.size, asWritten);
    if Scratch(p, t, i1, c).Some? then r == Fail(Scratch(p, t, i1, c).value)
    else if arr.Err? then r == Fail(Panic("ffi: " + arr.msg))
    else if arr.value.t.size >= Half(p.word) then r == Fail(MakeLenRange)
    else
      && (r.Ok? <==> InBounds(mem, h.data, n) && n <= arr.value.t.size)
      && (r.Ok? ==> r.value == Grown(SliceView(t, |mem|, i1, c), h.len, i1, arr.value.reg,
                                     Regrown(mem, h.data, n, arr.value.t.size)))
  }

  /** grow_slice (pkg/ffi/value.go:613-644), corrected: when the capacity
      does not suffice, the new slice receives the old len * elemSize
      bytes. */
  method GrowSlice(reg: Registry, p: Platform, mem: Heap, s: Value, extra: int) returns (r: Result<Grown>)
    requires RegistryOk(reg) && PlatformOk(p) && InSigned(extra, p.word) && HeaderOk(mem, p, s)
    ensures GrewSlice(reg, p, mem, s, extra, false, r)
  {
    r := GrowSliceVia(reg, p, mem, s, extra, false);
  }

  /** grow_slice as written: `copy(*tx, *sx)` reinterprets both slices as
      []byte, so it copies min(i1, i0) = i0 bytes, not i0 elements. */
  method GrowSliceAsWritten(reg: Registry, p: Platform, mem: Heap, s: Value, extra: int) returns (r: Result<Grown>)
    requires RegistryOk(reg) && PlatformOk(p) && InSigned(extra, p.word) && HeaderOk(mem, p, s)
    ensures GrewSlice(reg, p, mem, s, extra, true, r)
  {
    r := GrowSliceVia(reg, p, mem, s, extra, true);
  }

  /** The body both grow_slice variants share. */
  method GrowSliceVia(reg: Registry, p: Platform, mem: Heap, s: Value, extra: int, asWritten: bool)
    returns (r: Result<Grown>)
    requires RegistryOk(reg) && PlatformOk(p) && InSigned(extra, p.word) && HeaderOk(mem, p, s)
    ensures GrewSlice(reg, p, mem, s, extra, asWritten, r)
  {
    if s.Invalid? {
      return Fail(NilType);
    }
    if KindOf(s.typ) != Slice {
      return Fail(WrongKind(KindOf(s.typ)));
    }
    var h :- HeaderOf(mem, p, s);
    var i0, i1 := h.len, WrapSigned(h.len + extra, p.word);
    if i1 < i0 {
      return Fail(Panic("ffi.Append: slice overflow"));
    }
    if i1 <= h.cap {
      var t :- Values.Slice(mem, p, s, 0, i1);
      return Ok(Grown(t, i0, i1, reg, mem));
    }
    var m := GrowCap(i0, i1, h.cap, extra);
    r := Reallocate(reg, p, mem, s.typ, h, i1, m, asWritten);
  }

  /** grow_slice's growing branch: MakeSlice(t, i1, c), then the copy of
      the old contents to the start of the new storage. */
  method Reallocate(reg: Registry, p: Platform, mem: Heap, t: Type, h: Header, i1: int, c: int, asWritten: bool)
    returns (r: Result<Grown>)
    requires RegistryOk(reg) && PlatformOk(p) && KindOf(t) == Slice && 0 <= h.len <= i1 <= c
    ensures !t.SliceType? ==> r == Fail(Panic("ffi: Elem of invalid type"))
    ensures t.SliceType? ==> Reallocated(reg, p, mem, t, h, i1, c, asWritten, r)
  {
    var made :- MakeSlice(reg, p, mem, Some(t), i1, c);
    var prior :- Load(mem, h.data, CopyCount(h.len, t.elem.size, asWritten));
    var mem' :- Store(made.mem, made.v.data, prior);
    r := Ok(Grown(made.v, h.len, i1, made.reg, mem'));
  }

  /** The heap grow_slice leaves when it reallocates: the old heap, then
      size fresh bytes whose first n are a copy of the n bytes at data. */
  function Regrown(mem: Heap, data: nat, n: nat, size: nat): Heap
    requires n <= size && InBounds(mem, data, n)
  {
    Store(mem + Zeros(size), |mem|, Load(mem, data, n).value).value
  }

  /** Every window of the regrown storage reads as the copied bytes below
      n and as zeros from n on; the old heap is unchanged. */
  lemma RegrownWindows(mem: Heap, data: nat, n: nat, size: nat, at: nat, m: nat)
    requires n <= size && InBounds(mem, data, n) && at + m <= size
    ensures |Regrown(mem, data, n, size)| == |mem| + size
    ensures Regrown(mem, data, n, size)[..|mem|] == mem
    ensures at + m <= n ==> Load(Regrown(mem, data, n, size), |mem| + at, m) == Load(mem, data + at, m)
    ensures n <= at ==> Load(Regrown(mem, data, n, size), |mem| + at, m) == Ok(Zeros(m))
  {
    var z := mem + Zeros(size);
    var bs := Load(mem, data, n).value;
    var g := Store(z, |mem|, bs).value;
    LoadAppended(mem, size);
    assert g[..|mem|] == z[..|mem|] == mem;
    if at + m <= n {
      LoadCopied(mem, z, data, |mem|, n, at, m);
    }
    if n <= at {
      LoadStoreElsewhere(z, |mem|, bs, |mem| + at, m);
      LoadZeros(mem, size, at, m);
    }
  }

  /** Element by element, regrown storage of size bytes holds the old
      slice's first len elements and zero elements after them. */
  lemma RegrownElements(mem: Heap, data: nat, len: nat, es: nat, size: nat, i: nat)
    requires Scale(len, es) <= size && Scale(i, es) + es <= size
    requires InBounds(mem, data, Scale(len, es))
    ensures i < len ==>
      Load(Regrown(mem, data, Scale(len, es), size), |mem| + Scale(i, es), es)
      == Load(mem, data + Scale(i, es), es)
    ensures len <= i ==>
      Load(Regrown(mem, data, Scale(len, es), size), |mem| + Scale(i, es), es) == Ok(Zeros(es))
  {
    if i < len {
      ElementInside(i, len, es);
    } else {
      MulMonotone(len, i, es);
    }
    RegrownWindows(mem, data, Scale(len, es), size, Scale(i, es), es);
  }

  /** An int32 slice of length and capacity 1 whose data at address 1
      holds the bytes 1 2 3 4, grown by 1 (new capacity 2, so 8 fresh
      bytes at address 5): as written the new element 0 reads 1 0 0 0,
      corrected it reads 1 2 3 4 again. */
  lemma GrowInt32Counterexample()
    ensures NewCap(1, 2, 1, 1) == 2
    ensures Load(Regrown([0, 1, 2, 3, 4], 1, CopyCount(1, 4, true), 8), 5, 4) == Ok([1, 0, 0, 0])
    ensures Load(Regrown([0, 1, 2, 3, 4], 1, CopyCount(1, 4, false), 8), 5, 4) == Ok([1, 2, 3, 4])
  {
    var mem: Heap := [0, 1, 2, 3, 4];
    RegrownWindows(mem, 1, 1, 8, 0, 1);
    RegrownWindows(mem, 1, 1, 8, 1, 7);
    RegrownWindows(mem, 1, 4, 8, 0, 4);
    var g := Regrown(mem, 1, 1, 8);
    assert mem[1..2] == [1];
    assert g[5..6][0] == g[5] == 1;
    assert g[6..13][0] == g[6] == 0 && g[6..13][1] == g[7] == 0 && g[6..13][2] == g[8] == 0;
    assert g[5..9] == [1, 0, 0, 0];
    assert mem[1..5] == [1, 2, 3, 4];
  }

  /** MakeSlice(t, 0, 0) when the element's empty array is not yet
      registered: NewArrayType refuses the zero-size array, so MakeSlice
      panics with libffi's error instead of returning an empty slice. */
  lemma MakeEmptySlicePanics(reg: Registry, p: Platform, mem: Heap, e: Type, r: Result<Made>)
    requires RegistryOk(reg) && PlatformOk(p) && ArrayName(0, e) !in reg
    requires MadeSlice(reg, p, mem, Some(SliceTypeOf(p, e)), 0, 0, r)
    ensures r == Fail(Panic("ffi: " + BadTypedef))
  {
    assert SizeT(p, 0 * e.size) == 0;
  }
}
