/** Decoder (pkg/ffi/decoder.go): reading a Go value back out of a
    Value's storage. Decode is handed a Go pointer and fills its pointee:
    an integer through one reader over the whole value, an array or
    struct through a fresh reader per element or field. As for the
    encoder, the compatibility test arrives as its verdict. */
module Decoder {

  import opened Base
  import opened Errors
  import opened Bytes
  import opened Arith
  import opened Types
  import opened Memory
  import opened Values
  import opened GoValues
  import opened Binary
  import Encoder

  const Mismatch := "ffi.Decode: can not decode go-type from c-type"

  /** The panic of reflect.Value.Elem on a value of the named kind that is
      not a pointer. */
  function ElemPanic(kind: string): Fault
  {
    Panic("reflect: call of reflect.Value.Elem on " + kind + " Value")
  }

  /** What NewReader(c) (pkg/ffi/value.go:646-649) holds: the typ.Size()
      bytes of c's storage. */
  function ReaderBytes(mem: Heap, c: Value): (r: Result<seq<byte>>)
    ensures !HasType(c) ==> r == Fail(NilType)
    ensures HasType(c) ==> (r.Ok? <==> InBounds(mem, Addr(c), c.typ.size))
    ensures r.Ok? ==> |r.value| == c.typ.size
  {
    if !HasType(c) then Fail(NilType) else Load(mem, Addr(c), c.typ.size)
  }

  /** binary.Read into the pointee of a pointer to an integer of kind k
      holding x (pkg/ffi/decoder.go:50-83): a sized kind is read as
      itself; int and uint read an int32/int64 or uint32/uint64 of the
      platform's width and store it only when the read succeeded. */
  function ReadInt(p: Platform, k: IntKind, x: int, bs: seq<byte>): (r: Outcome<GoValue>)
    requires PlatformOk(p)
    ensures r.state.VInt? && r.state.k == k
    ensures r.err.Some? <==> |bs| < Width(p, k)
    ensures r.err.Some? ==> r.state.x == x
  {
    var target := if FixedWidth(k).Some? then VInt(k, x) else VInt(WordKind(p, Signed(k)), 0);
    var y := Unmarshal(target, bs);
    if y.Err? then Outcome(VInt(k, x), Some(y.msg)) else Outcome(VInt(k, y.value.x), None)
  }

  /** Decoder.Decode (pkg/ffi/decoder.go:22-36) with decode_value
      (pkg/ffi/decoder.go:38-123). The result holds v as the decoding
      left it together with the returned error. */
  function Decode(mem: Heap, p: Platform, cval: Value, compatible: bool, v: GoValue): (r: Result<Outcome<GoValue>>)
    requires PlatformOk(p)
    ensures !HasType(cval) ==> r == Fail(NilType)
    ensures HasType(cval) && !compatible ==> r == Ok(Outcome(v, Some(Mismatch)))
    ensures compatible && HasType(cval) && v.VArray? ==> r == Fail(ElemPanic("array"))
    ensures compatible && HasType(cval) && v.VStruct? ==> r == Fail(ElemPanic("struct"))
    ensures compatible && HasType(cval) && (v.VString? || (v.VPtr? && (v.to.VPtr? || v.to.VString?))) ==>
      r == Fail(Panic("unimplemented"))
    ensures compatible && HasType(cval) && (v.VSlice? || (v.VPtr? && v.to.VSlice?)) ==>
      r == Fail(Panic("unhandled kind [slice]"))
    ensures r.Ok? && r.value.err.None? ==> v.VPtr? && r.value.state.VPtr?
    ensures r.Ok? && !v.VPtr? ==> r.value.state == v
  {
    if !HasType(cval) then Fail(NilType)
    else if !compatible then Ok(Outcome(v, Some(Mismatch)))
    else match v
      case VPtr(x) =>
        var o :- DecodeInto(mem, p, cval, x);
        Ok(Outcome(VPtr(o.state), o.err))
      case VInt(k, x) =>
        var bs :- ReaderBytes(mem, cval);
        if FixedWidth(k).Some? then
          // binary.Read reads the bytes and then rejects a non-pointer
          var w := FixedWidth(k).value;
          Ok(Outcome(v, Some(if |bs| < w then ShortRead(|bs|) else ReadInvalid)))
        else
          var o := ReadInt(p, k, x, bs);
          if o.err.Some? then Ok(Outcome(v, o.err))
          else Fail(ElemPanic(if k == GoInt then "int" else "uint"))
      case VArray(_, _) => Fail(ElemPanic("array"))
      case VStruct(_) => Fail(ElemPanic("struct"))
      case VString(_) => Fail(Panic("unimplemented"))
      case VSlice(_, _) => Fail(Panic("unhandled kind [slice]"))
  }

  /** decode_value on a pointer whose pointee is x: the pointee as the
      decoding left it, and the error. */
  function DecodeInto(mem: Heap, p: Platform, cval: Value, x: GoValue): (r: Result<Outcome<GoValue>>)
    requires PlatformOk(p) && HasType(cval)
    ensures r.Ok? ==> GoValues.TypeOf(r.value.state) == GoValues.TypeOf(x)
  {
    match x
    case VInt(k, n) =>
      var bs :- ReaderBytes(mem, cval);
      Ok(ReadInt(p, k, n, bs))
    case VArray(e, es) =>
      var o :- DecodeParts(mem, p, cval, es, false, 0);
      Ok(Outcome(VArray(e, o.state), o.err))
    case VStruct(fs) =>
      var o :- DecodeParts(mem, p, cval, fs, true, 0);
      assert TypesOf(o.state) == TypesOf(fs);
      Ok(Outcome(VStruct(o.state), o.err))
    case VPtr(_) => Fail(Panic("unimplemented"))
    case VString(_) => Fail(Panic("unimplemented"))
    case VSlice(_, _) => Fail(Panic("unhandled kind [slice]"))
  }

  /** The array and struct loops (pkg/ffi/decoder.go:91-115) from part i
      on: each Go part is read by binary.Read from a reader over its own
      C part; the first error stops the loop with the parts before it
      already filled. */
  function DecodeParts(mem: Heap, p: Platform, c: Value, parts: seq<GoValue>, byField: bool, i: nat)
    : (r: Result<Outcome<seq<GoValue>>>)
    requires PlatformOk(p) && i <= |parts|
    ensures r.Ok? ==> |r.value.state| == |parts|
    ensures r.Ok? ==> forall k :: 0 <= k < |parts| ==> GoValues.TypeOf(r.value.state[k]) == GoValues.TypeOf(parts[k])
    decreases |parts| - i
  {
    if i == |parts| then Ok(Outcome(parts, None))
    else
      var view :- Part(mem, p, c, i, byField);
      var bs :- ReaderBytes(mem, view);
      var y := Unmarshal(parts[i], bs);
      UnmarshalTyped(parts[i], bs);
      if y.Err? then Ok(Outcome(parts, Some(y.msg)))
      else DecodeParts(mem, p, c, parts[i := y.value], byField, i + 1)
  }

  /** An integer encoded into storage of at least its width and decoded
      through a pointer to the same kind reads back as itself. */
  lemma DecodeEncodeInt(mem: Heap, p: Platform, cval: Value, k: IntKind, x: int, y: int)
    requires PlatformOk(p) && HasType(cval) && InBounds(mem, Addr(cval), cval.typ.size)
    requires Width(p, k) <= cval.typ.size && InRange(p, k, x)
    ensures Encoder.Encode(mem, p, cval, true, VInt(k, x)).Ok?
    ensures Decode(Encoder.Encode(mem, p, cval, true, VInt(k, x)).value.state, p, cval, true, VPtr(VInt(k, y)))
      == Ok(Outcome(VPtr(VInt(k, x)), None))
  {
    Encoder.EncodeInt(mem, p, cval, k, x);
    var m := Encoder.Encode(mem, p, cval, true, VInt(k, x)).value.state;
    var w := Width(p, k);
    LoadWithin(m, Addr(cval), cval.typ.size, 0, w);
    ReadIntBits(p, k, x, y, ReaderBytes(m, cval).value);
  }

  /** Reading an integer from bytes that start with the low bytes of x,
      little-endian, gives x back when x is in the kind's range. */
  lemma ReadIntBits(p: Platform, k: IntKind, x: int, y: int, bs: seq<byte>)
    requires PlatformOk(p) && InRange(p, k, x) && Width(p, k) <= |bs|
    requires bs[..Width(p, k)] == ToLE(Truncate(x, Width(p, k)), Width(p, k))
    ensures ReadInt(p, k, y, bs) == Outcome(VInt(k, x), None)
  {
    TruncateInverse(x, Width(p, k));
  }

  /** From part i on, part k of the storage holds the image of vs[k], a
      value of fixed size, and the Go part has vs[k]'s type. */
  predicate Stored(mem: Heap, p: Platform, c: Value, parts: seq<GoValue>, vs: seq<GoValue>, byField: bool, i: nat)
    requires Composite(c, |parts|, byField) && |vs| == |parts|
  {
    forall k :: i <= k < |parts| ==>
      && WellFormed(p, vs[k]) && SizeOf(GoValues.TypeOf(vs[k])).Some? && GoValues.TypeOf(parts[k]) == GoValues.TypeOf(vs[k])
      && Load(mem, PartAddr(c, k, byField), PartType(c, k, byField).size) == Ok(Packed(vs[k]))
  }

  /** The loop from part i on, over parts whose storage holds the images
      of vs: no error, and the Go parts end up as vs. */
  lemma {:induction false} DecodePartsRead(mem: Heap, p: Platform, c: Value, parts: seq<GoValue>, vs: seq<GoValue>, byField: bool, i: nat)
    requires PlatformOk(p) && i <= |parts| && |vs| == |parts| && Composite(c, |parts|, byField)
    requires parts[..i] == vs[..i] && Stored(mem, p, c, parts, vs, byField, i)
    ensures DecodeParts(mem, p, c, parts, byField, i) == Ok(Outcome(vs, None))
    decreases |parts| - i
  {
    if i < |parts| {
      DecodePartStep(mem, p, c, parts, vs, byField, i);
      var next := parts[i := vs[i]];
      assert next[..i + 1] == vs[..i + 1];
      assert Stored(mem, p, c, next, vs, byField, i + 1) by {
        forall k | i + 1 <= k < |parts| ensures next[k] == parts[k] { }
      }
      DecodePartsRead(mem, p, c, next, vs, byField, i + 1);
    } else {
      assert parts == parts[..i] && vs == vs[..i];
    }
  }

  /** One turn of the loop over a part whose storage holds the image of
      vs[i]: the Go part becomes vs[i] and the loop goes on. */
  lemma DecodePartStep(mem: Heap, p: Platform, c: Value, parts: seq<GoValue>, vs: seq<GoValue>, byField: bool, i: nat)
    requires PlatformOk(p) && i < |parts| && |vs| == |parts| && Composite(c, |parts|, byField)
    requires Stored(mem, p, c, parts, vs, byField, i)
    ensures DecodeParts(mem, p, c, parts, byField, i) == DecodeParts(mem, p, c, parts[i := vs[i]], byField, i + 1)
  {
    var view := View(PartType(c, i, byField), PartAddr(c, i, byField));
    assert Part(mem, p, c, i, byField) == Ok(view);
    var bs := Packed(vs[i]);
    assert ReaderBytes(mem, view) == Ok(bs);
    UnmarshalMarshal(p, parts[i], vs[i], []);
    assert bs + [] == bs;
  }

  /** A Go array encoded into a C array view and decoded through a
      pointer to an array of as many elements of the same type reads back
      as the array that was encoded. */
  lemma DecodeEncodeArray(mem: Heap, p: Platform, cval: Value, e: GoType, es: seq<GoValue>, xs: seq<GoValue>)
    requires PlatformOk(p) && Composite(cval, |es|, false)
    requires WellFormed(p, VArray(e, es)) && SizeOf(e) == Some(cval.typ.elem.size)
    requires InBounds(mem, cval.addr, Scale(|es|, cval.typ.elem.size))
    requires |xs| == |es| && forall k :: 0 <= k < |xs| ==> GoValues.TypeOf(xs[k]) == e
    ensures Encoder.Encode(mem, p, cval, true, VArray(e, es)).Ok?
    ensures Decode(Encoder.Encode(mem, p, cval, true, VArray(e, es)).value.state, p, cval, true, VPtr(VArray(e, xs)))
      == Ok(Outcome(VPtr(VArray(e, es)), None))
  {
    if |es| > 0 {
      EncodedArrayStored(mem, p, cval, e, es, xs);
      DecodePartsRead(Encoder.Encode(mem, p, cval, true, VArray(e, es)).value.state, p, cval, xs, es, false, 0);
    }
  }

  /** After encoding a Go array, every element's storage holds its image. */
  lemma EncodedArrayStored(mem: Heap, p: Platform, cval: Value, e: GoType, es: seq<GoValue>, xs: seq<GoValue>)
    requires PlatformOk(p) && Composite(cval, |es|, false)
    requires WellFormed(p, VArray(e, es)) && SizeOf(e) == Some(cval.typ.elem.size)
    requires InBounds(mem, cval.addr, Scale(|es|, cval.typ.elem.size))
    requires |xs| == |es| && forall k :: 0 <= k < |xs| ==> GoValues.TypeOf(xs[k]) == e
    requires |es| > 0
    ensures Encoder.Encode(mem, p, cval, true, VArray(e, es)).Ok?
    ensures Stored(Encoder.Encode(mem, p, cval, true, VArray(e, es)).value.state, p, cval, xs, es, false, 0)
  {
    Encoder.EncodeArray(mem, p, cval, e, es, 0);
    forall k | 0 <= k < |es|
      ensures Load(Encoder.Encode(mem, p, cval, true, VArray(e, es)).value.state, PartAddr(cval, k, false), cval.typ.elem.size)
        == Ok(Packed(es[k]))
    {
      Encoder.EncodeArray(mem, p, cval, e, es, k);
    }
  }

  /** A Go struct encoded into a laid-out C struct view and decoded
      through a pointer to a struct with the same field types reads back
      as the struct that was encoded. */
  lemma DecodeEncodeStruct(mem: Heap, p: Platform, cval: Value, fs: seq<GoValue>, xs: seq<GoValue>)
    requires PlatformOk(p) && cval.View? && cval.typ.StructType? && LaidOut(cval.typ)
    requires |fs| == |cval.typ.fields| && InBounds(mem, cval.addr, cval.typ.size)
    requires forall k :: 0 <= k < |fs| ==>
      WellFormed(p, fs[k]) && SizeOf(GoValues.TypeOf(fs[k])) == Some(cval.typ.fields[k].typ.size)
    requires |xs| == |fs| && forall k :: 0 <= k < |xs| ==> GoValues.TypeOf(xs[k]) == GoValues.TypeOf(fs[k])
    ensures Encoder.Encode(mem, p, cval, true, VStruct(fs)).Ok?
    ensures Decode(Encoder.Encode(mem, p, cval, true, VStruct(fs)).value.state, p, cval, true, VPtr(VStruct(xs)))
      == Ok(Outcome(VPtr(VStruct(fs)), None))
  {
    if |fs| > 0 {
      EncodedStructStored(mem, p, cval, fs, xs);
      DecodePartsRead(Encoder.Encode(mem, p, cval, true, VStruct(fs)).value.state, p, cval, xs, fs, true, 0);
    }
  }

  /** After encoding a Go struct, every field's storage holds its image. */
  lemma EncodedStructStored(mem: Heap, p: Platform, cval: Value, fs: seq<GoValue>, xs: seq<GoValue>)
    requires PlatformOk(p) && cval.View? && cval.typ.StructType? && LaidOut(cval.typ)
    requires |fs| == |cval.typ.fields| && InBounds(mem, cval.addr, cval.typ.size)
    requires forall k :: 0 <= k < |fs| ==>
      WellFormed(p, fs[k]) && SizeOf(GoValues.TypeOf(fs[k])) == Some(cval.typ.fields[k].typ.size)
    requires |xs| == |fs| && forall k :: 0 <= k < |xs| ==> GoValues.TypeOf(xs[k]) == GoValues.TypeOf(fs[k])
    requires |fs| > 0
    ensures Encoder.Encode(mem, p, cval, true, VStruct(fs)).Ok?
    ensures Stored(Encoder.Encode(mem, p, cval, true, VStruct(fs)).value.state, p, cval, xs, fs, true, 0)
  {
    Encoder.EncodeStruct(mem, p, cval, fs, 0);
    forall k | 0 <= k < |fs|
      ensures Load(Encoder.Encode(mem, p, cval, true, VStruct(fs)).value.state, PartAddr(cval, k, true), PartType(cval, k, true).size)
        == Ok(Packed(fs[k]))
    {
      Encoder.EncodeStruct(mem, p, cval, fs, k);
    }
  }
}
