/** Encoder (pkg/ffi/encoder.go): writing a Go value into a Value's
    storage in native (little-endian) order. An integer goes through one
    writer on the whole value; an array or struct through a fresh writer
    per element or field, at the element's or field's own view. The
    compatibility test of the inferred C type against the destination's
    type is left abstract and arrives as its verdict. The zero Value
    panics whatever the verdict: the mismatch message names its nil
    type, and the writer asks that type for its size. */
module Encoder {

  import opened Base
  import opened Errors
  import opened Bytes
  import opened Arith
  import opened Types
  import opened Memory
  import opened Values
  import opened GoValues
  import opened Binary

  const Mismatch := "ffi.Encode: can not encode go-type into c-type"

  /** binary.Write(NewWriter(c), order, data) for data whose image is bs:
      as many of the bytes as fit in c's storage, from its start. The
      writer never reports an error. */
  function WriteInto(mem: Heap, c: Value, bs: seq<byte>): (r: Result<Heap>)
    ensures !HasType(c) ==> r == Fail(NilType)
    ensures HasType(c) ==> (r.Ok? <==> InBounds(mem, Addr(c), c.typ.size))
    ensures !r.Ok? ==> r.Fail?
    ensures r.Ok? ==> |r.value| == |mem|
  {
    var w :- NewWriter(c);
    if !WriterOk(mem, w) then Fail(AccessFault(w.base)) else Ok(Write(mem, w, bs).mem)
  }

  /** A typed view at the nil address passes the compatibility gate; the
      write of an integer into it is then a nil dereference. */
  lemma EncodeNilView(mem: Heap, p: Platform, t: Type, k: IntKind, x: int)
    requires PlatformOk(p) && t.size > 0
    ensures !IsValid(View(t, 0))
    ensures Encode(mem, p, View(t, 0), true, VInt(k, x)) == Fail(NilDeref)
  {
  }

  /** The bytes of an integer: the value itself for a sized kind; int and
      uint go through int32 or int64 of the platform's width
      (pkg/ffi/encoder.go:46-59). */
  function IntImage(p: Platform, k: IntKind, x: int): seq<byte>
    requires PlatformOk(p)
  {
    if FixedWidth(k).Some? then Packed(VInt(k, x))
    else Packed(VInt(WordKind(p, true), WrapSigned(x, p.word)))
  }

  /** Encoder.Encode (pkg/ffi/encoder.go:22-33) with encode_value
      (pkg/ffi/encoder.go:38-96). The error comes back with the heap the
      encoding left. A typed view at the nil address passes the gate and
      fails when the writer touches it. */
  function Encode(mem: Heap, p: Platform, cval: Value, compatible: bool, v: GoValue): (r: Result<Outcome<Heap>>)
    requires PlatformOk(p)
    ensures !HasType(cval) ==> r == Fail(NilType)
    ensures HasType(cval) && !compatible ==> r == Ok(Outcome(mem, Some(Mismatch)))
    ensures compatible && HasType(cval) && (v.VPtr? || v.VString?) ==> r == Fail(Panic("unimplemented"))
    ensures compatible && HasType(cval) && v.VSlice? ==> r == Fail(Panic("unhandled kind [slice]"))
    ensures r.Ok? ==> |r.value.state| == |mem|
  {
    if !HasType(cval) then Fail(NilType)
    else if !compatible then Ok(Outcome(mem, Some(Mismatch)))
    else match v
      case VInt(k, x) =>
        var m :- WriteInto(mem, cval, IntImage(p, k, x));
        Ok(Outcome(m, None))
      case VArray(_, es) => EncodeParts(mem, p, cval, es, false, 0)
      case VStruct(fs) => EncodeParts(mem, p, cval, fs, true, 0)
      case VPtr(_) => Fail(Panic("unimplemented"))
      case VString(_) => Fail(Panic("unimplemented"))
      case VSlice(_, _) => Fail(Panic("unhandled kind [slice]"))
  }

  /** The array and struct loops (pkg/ffi/encoder.go:67-88) from part i
      on: each part goes through binary.Write into its own view, and the
      first error stops the loop with the parts before it written. */
  function EncodeParts(mem: Heap, p: Platform, c: Value, parts: seq<GoValue>, byField: bool, i: nat)
    : (r: Result<Outcome<Heap>>)
    requires PlatformOk(p) && i <= |parts|
    ensures r.Ok? ==> |r.value.state| == |mem|
    decreases |parts| - i
  {
    if i == |parts| then Ok(Outcome(mem, None))
    else
      var view :- Part(mem, p, c, i, byField);
      var image := Marshal(parts[i]);
      if image.Err? then Ok(Outcome(mem, Some(image.msg)))
      else
        var m :- WriteInto(mem, view, image.value);
        EncodeParts(m, p, c, parts, byField, i + 1)
  }

  function Min(a: nat, b: nat): nat
  {
    if a < b then a else b
  }

  /** A write through c's writer leaves the first min(|bs|, size) bytes
      of bs at c's address and every range clear of them as it was. */
  lemma WriteIntoLoads(mem: Heap, c: Value, bs: seq<byte>, b: nat, n: nat)
    requires HasType(c) && InBounds(mem, Addr(c), c.typ.size)
    ensures var k := Min(|bs|, c.typ.size);
      Load(WriteInto(mem, c, bs).value, Addr(c), k) == Ok(bs[..k])
    ensures var k := Min(|bs|, c.typ.size);
      b + n <= Addr(c) || Addr(c) + k <= b ==> Load(WriteInto(mem, c, bs).value, b, n) == Load(mem, b, n)
  {
    var k := Min(|bs|, c.typ.size);
    LoadStore(mem, Addr(c), bs[..k]);
    if b + n <= Addr(c) || Addr(c) + k <= b {
      LoadStoreElsewhere(mem, Addr(c), bs[..k], b, n);
    }
  }

  /** The image of an integer is its low Width bytes, little-endian; for
      uint the conversion to int32 or int64 keeps the bit pattern. */
  lemma IntImageBits(p: Platform, k: IntKind, x: int)
    requires PlatformOk(p)
    ensures IntImage(p, k, x) == ToLE(Truncate(x, Width(p, k)), Width(p, k))
  {
    if FixedWidth(k).None? {
      var w := p.word;
      assert Truncate(WrapSigned(x, w), w) == Truncate(x, w);
    }
  }

  /** An integer encoded into storage of at least its width: no error,
      and the storage starts with the integer's low bytes. */
  lemma EncodeInt(mem: Heap, p: Platform, cval: Value, k: IntKind, x: int)
    requires PlatformOk(p) && HasType(cval) && InBounds(mem, Addr(cval), cval.typ.size)
    requires Width(p, k) <= cval.typ.size
    ensures var r := Encode(mem, p, cval, true, VInt(k, x));
      && r.Ok? && r.value.err.None?
      && Load(r.value.state, Addr(cval), Width(p, k)) == Ok(ToLE(Truncate(x, Width(p, k)), Width(p, k)))
  {
    IntImageBits(p, k, x);
    var image := IntImage(p, k, x);
    WriteIntoLoads(mem, cval, image, 0, 0);
    assert Min(|image|, cval.typ.size) == Width(p, k) && image[..Width(p, k)] == image;
  }

  /** Parts before n never overlap. */
  predicate Apart(c: Value, n: nat, byField: bool)
    requires Composite(c, n, byField)
  {
    forall i, j :: 0 <= i < j < n ==> PartAddr(c, i, byField) + PartType(c, i, byField).size <= PartAddr(c, j, byField)
  }

  /** Every Go part from i on has an image exactly as large as its C part,
      and the C part lies in the heap. */
  predicate Fits(mem: Heap, c: Value, parts: seq<GoValue>, byField: bool, i: nat)
    requires Composite(c, |parts|, byField)
  {
    forall k :: i <= k < |parts| ==>
      && Marshal(parts[k]).Ok?
      && |Marshal(parts[k]).value| == PartType(c, k, byField).size
      && InBounds(mem, PartAddr(c, k, byField), PartType(c, k, byField).size)
  }

  /** The loop from part i on, over parts that fit and do not overlap: no
      error, part j >= i holds its image, and the parts before i keep
      their bytes. */
  lemma {:induction false} EncodePartsWritten(mem: Heap, p: Platform, c: Value, parts: seq<GoValue>, byField: bool, i: nat, j: nat)
    requires PlatformOk(p) && i <= |parts| && j < |parts| && Composite(c, |parts|, byField)
    requires Apart(c, |parts|, byField) && Fits(mem, c, parts, byField, i)
    ensures var r := EncodeParts(mem, p, c, parts, byField, i);
      && r.Ok? && r.value.err.None?
      && (i <= j ==> Load(r.value.state, PartAddr(c, j, byField), PartType(c, j, byField).size) == Marshal(parts[j]))
      && (j < i ==> Load(r.value.state, PartAddr(c, j, byField), PartType(c, j, byField).size)
                    == Load(mem, PartAddr(c, j, byField), PartType(c, j, byField).size))
    decreases |parts| - i
  {
    if i < |parts| {
      var view := View(PartType(c, i, byField), PartAddr(c, i, byField));
      assert Part(mem, p, c, i, byField) == Ok(view);
      var image := Marshal(parts[i]).value;
      var m := WriteInto(mem, view, image).value;
      WriteIntoLoads(mem, view, image, PartAddr(c, j, byField), PartType(c, j, byField).size);
      assert image[..|image|] == image;
      EncodePartsWritten(m, p, c, parts, byField, i + 1, j);
    }
  }

  /** A Go array encoded into a C array view with room for all its
      elements, each of the same packed size as the C element: no error,
      and element j's bytes, at the array's address plus j element
      sizes, are its packed image. */
  lemma EncodeArray(mem: Heap, p: Platform, cval: Value, e: GoType, es: seq<GoValue>, j: nat)
    requires PlatformOk(p) && Composite(cval, |es|, false)
    requires WellFormed(p, VArray(e, es)) && SizeOf(e) == Some(cval.typ.elem.size)
    requires InBounds(mem, cval.addr, Scale(|es|, cval.typ.elem.size)) && j < |es|
    ensures var r := Encode(mem, p, cval, true, VArray(e, es));
      && r.Ok? && r.value.err.None?
      && Load(r.value.state, cval.addr + Scale(j, cval.typ.elem.size), cval.typ.elem.size) == Ok(Packed(es[j]))
  {
    var s := cval.typ.elem.size;
    forall k | 0 <= k < |es|
      ensures Marshal(es[k]) == Ok(Packed(es[k])) && |Packed(es[k])| == s
      ensures InBounds(mem, PartAddr(cval, k, false), s)
    {
      UnpackPacked(p, es[k]);
      ElementInside(k, |es|, s);
    }
    forall i, k | 0 <= i < k < |es| ensures PartAddr(cval, i, false) + s <= PartAddr(cval, k, false) {
      ElementInside(i, k, s);
    }
    EncodePartsWritten(mem, p, cval, es, false, 0, j);
  }

  /** A Go struct encoded into a laid-out C struct view whose field k has
      the packed size of Go field k: no error, and field j's bytes, at
      the struct's address plus the field's offset, are its packed image. */
  lemma EncodeStruct(mem: Heap, p: Platform, cval: Value, fs: seq<GoValue>, j: nat)
    requires PlatformOk(p) && cval.View? && cval.typ.StructType? && LaidOut(cval.typ)
    requires |fs| == |cval.typ.fields| && InBounds(mem, cval.addr, cval.typ.size) && j < |fs|
    requires forall k :: 0 <= k < |fs| ==>
      WellFormed(p, fs[k]) && SizeOf(GoValues.TypeOf(fs[k])) == Some(cval.typ.fields[k].typ.size)
    ensures var r := Encode(mem, p, cval, true, VStruct(fs));
      && r.Ok? && r.value.err.None?
      && Load(r.value.state, cval.addr + cval.typ.fields[j].offset, cval.typ.fields[j].typ.size) == Ok(Packed(fs[j]))
  {
    forall k | 0 <= k < |fs|
      ensures Marshal(fs[k]) == Ok(Packed(fs[k])) && |Packed(fs[k])| == cval.typ.fields[k].typ.size
    {
      UnpackPacked(p, fs[k]);
    }
    EncodePartsWritten(mem, p, cval, fs, true, 0, j);
  }
}
