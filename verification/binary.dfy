/** The part of Go's encoding/binary package the encoder and decoder go
    through, in little-endian order: values of fixed size are packed
    field after field and element after element with no padding, and
    every other value is rejected. */
module Binary {

  import opened Base
  import opened Errors
  import opened Bytes
  import opened Arith
  import opened Types
  import opened GoValues

  const WriteInvalid := "binary.Write: invalid type"
  const ReadInvalid := "binary.Read: invalid type"

  /** sizeof: the packed size of a type, None for the types without a
      fixed size (int, uint, strings, pointers, slices). */
  function SizeOf(t: GoType): Option<nat>
  {
    match t
    case TInt(k) => FixedWidth(k)
    case TArray(n, e) => if SizeOf(e).Some? then Some(Scale(n, SizeOf(e).value)) else None
    case TStruct(fs) => SizeOfFields(fs)
    case _ => None
  }

  /** The packed size of a struct's fields: their sum, None if any has none. */
  function SizeOfFields(fs: seq<GoType>): Option<nat>
  {
    if |fs| == 0 then Some(0)
    else
      var a := SizeOfFields(fs[..|fs| - 1]);
      var b := SizeOf(fs[|fs| - 1]);
      if a.Some? && b.Some? then Some(a.value + b.value) else None
  }

  /** dataSize: a slice counts its elements, any other value its type. */
  function DataSize(v: GoValue): Option<nat>
  {
    if v.VSlice? then
      if SizeOf(v.elem).Some? then Some(Scale(|v.elems|, SizeOf(v.elem).value)) else None
    else SizeOf(TypeOf(v))
  }

  /** The encoder's byte image of a value: each integer truncated to its
      width, little-endian; composites concatenated. Meaningful where
      DataSize is defined. */
  function Packed(v: GoValue): seq<byte>
  {
    match v
    case VInt(k, x) =>
      if FixedWidth(k).Some? then ToLE(Truncate(x, FixedWidth(k).value), FixedWidth(k).value) else []
    case VArray(_, es) => PackedAll(es)
    case VStruct(fs) => PackedAll(fs)
    case VSlice(_, es) => PackedAll(es)
    case _ => []
  }

  function PackedAll(vs: seq<GoValue>): seq<byte>
  {
    if |vs| == 0 then [] else PackedAll(vs[..|vs| - 1]) + Packed(vs[|vs| - 1])
  }

  /** binary.Write's image of data: a pointer is followed once
      (reflect.Indirect); a value without a packed size is an error and
      nothing is written. */
  function Marshal(v: GoValue): (r: Result<seq<byte>>)
    ensures r.Ok? || r == Err(WriteInvalid)
  {
    var u := if v.VPtr? then v.to else v;
    if DataSize(u).None? then Err(WriteInvalid) else Ok(Packed(u))
  }

  /** The decoder's reading of size-of-t bytes as a value of type t:
      signed kinds sign-extend, unsigned kinds zero-extend. */
  function Unpacked(t: GoType, bs: seq<byte>): (r: GoValue)
    requires SizeOf(t) == Some(|bs|)
    decreases t, 0
  {
    match t
    case TInt(k) => VInt(k, if Signed(k) then SignExtend(FromLE(bs), |bs|) else FromLE(bs))
    case TArray(n, e) => VArray(e, UnpackedElems(e, SizeOf(e).value, n, bs))
    case TStruct(fs) => VStruct(UnpackedFields(fs, bs))
  }

  /** n consecutive elements of type e, s bytes each. */
  function UnpackedElems(e: GoType, s: nat, n: nat, bs: seq<byte>): (r: seq<GoValue>)
    requires SizeOf(e) == Some(s) && |bs| == Scale(n, s)
    ensures |r| == n
    decreases e, 1, n
  {
    if n == 0 then []
    else
      var k := Scale(n - 1, s);
      UnpackedElems(e, s, n - 1, bs[..k]) + [Unpacked(e, bs[k..])]
  }

  /** One value per field type, each from its own stretch of bytes. */
  function UnpackedFields(fs: seq<GoType>, bs: seq<byte>): (r: seq<GoValue>)
    requires SizeOfFields(fs) == Some(|bs|)
    ensures |r| == |fs|
    decreases fs, 1
  {
    if |fs| == 0 then []
    else
      var k := SizeOfFields(fs[..|fs| - 1]).value;
      UnpackedFields(fs[..|fs| - 1], bs[..k]) + [Unpacked(fs[|fs| - 1], bs[k..])]
  }

  /** The error io.ReadFull reports when only m of the bytes it needs are
      there. */
  function ShortRead(m: nat): string
  {
    if m == 0 then "EOF" else "unexpected EOF"
  }

  /** binary.Read(r, order, &x) with the reader holding avail: x's packed
      size of bytes decoded as a value shaped like x (a slice keeps its
      length), or the read's error with x untouched. */
  function Unmarshal(x: GoValue, avail: seq<byte>): (r: Result<GoValue>)
    ensures DataSize(x).None? ==> r == Err(ReadInvalid)
    ensures DataSize(x).Some? && |avail| < DataSize(x).value ==> r == Err(ShortRead(|avail|))
    ensures r.Ok? ==> DataSize(x).Some? && DataSize(x).value <= |avail|
    ensures r.Ok? || r.Err?
  {
    match DataSize(x)
    case None => Err(ReadInvalid)
    case Some(n) =>
      if |avail| < n then Err(ShortRead(|avail|))
      else if x.VSlice? then Ok(VSlice(x.elem, UnpackedElems(x.elem, SizeOf(x.elem).value, |x.elems|, avail[..n])))
      else Ok(Unpacked(TypeOf(x), avail[..n]))
  }

  /** Packing then unpacking at the value's own type gives the value
      back, and the image has exactly the type's packed size. */
  lemma {:induction false} UnpackPacked(p: Platform, v: GoValue)
    requires WellFormed(p, v) && SizeOf(TypeOf(v)).Some?
    ensures SizeOf(TypeOf(v)) == Some(|Packed(v)|)
    ensures Unpacked(TypeOf(v), Packed(v)) == v
    decreases v, 0
  {
    match v
    case VInt(k, x) =>
      var w := FixedWidth(k).value;
      TruncateInverse(x, w);
    case VArray(e, es) =>
      UnpackPackedElems(p, e, SizeOf(e).value, es);
    case VStruct(fs) =>
      UnpackPackedFields(p, fs);
  }

  lemma {:induction false} UnpackPackedElems(p: Platform, e: GoType, s: nat, es: seq<GoValue>)
    requires SizeOf(e) == Some(s)
    requires forall i :: 0 <= i < |es| ==> TypeOf(es[i]) == e && WellFormed(p, es[i])
    ensures |PackedAll(es)| == Scale(|es|, s)
    ensures UnpackedElems(e, s, |es|, PackedAll(es)) == es
    decreases es, 1
  {
    var n := |es|;
    if n > 0 {
      var front := es[..n - 1];
      UnpackPackedElems(p, e, s, front);
      UnpackPacked(p, es[n - 1]);
      var a, b := PackedAll(front), Packed(es[n - 1]);
      assert PackedAll(es) == a + b;
      Distrib(n, 1, s);
      var k := Scale(n - 1, s);
      assert (a + b)[..k] == a && (a + b)[k..] == b;
      assert es == front + [es[n - 1]];
    }
  }

  lemma {:induction false} UnpackPackedFields(p: Platform, fs: seq<GoValue>)
    requires forall i :: 0 <= i < |fs| ==> WellFormed(p, fs[i])
    requires SizeOfFields(TypesOf(fs)).Some?
    ensures SizeOfFields(TypesOf(fs)) == Some(|PackedAll(fs)|)
    ensures UnpackedFields(TypesOf(fs), PackedAll(fs)) == fs
    decreases fs, 1
  {
    var n := |fs|;
    if n > 0 {
      var front := fs[..n - 1];
      var ts := TypesOf(fs);
      assert ts[..n - 1] == TypesOf(front);
      UnpackPackedFields(p, front);
      UnpackPacked(p, fs[n - 1]);
      var a, b := PackedAll(front), Packed(fs[n - 1]);
      assert PackedAll(fs) == a + b;
      assert (a + b)[..|a|] == a && (a + b)[|a|..] == b;
      assert fs == front + [fs[n - 1]];
    }
  }

  /** Unpacking at a type gives a value of that type. */
  lemma {:induction false} UnpackedTyped(t: GoType, bs: seq<byte>)
    requires SizeOf(t) == Some(|bs|)
    ensures TypeOf(Unpacked(t, bs)) == t
    decreases t, 0
  {
    if t.TStruct? {
      UnpackedFieldsTyped(t.fields, bs);
    } else if t.TArray? {
      UnpackedElemsTyped(t.elem, SizeOf(t.elem).value, t.n, bs);
    }
  }

  lemma {:induction false} UnpackedElemsTyped(e: GoType, s: nat, n: nat, bs: seq<byte>)
    requires SizeOf(e) == Some(s) && |bs| == Scale(n, s)
    ensures forall i :: 0 <= i < n ==> TypeOf(UnpackedElems(e, s, n, bs)[i]) == e
    decreases e, 1, n
  {
    if n > 0 {
      var k := Scale(n - 1, s);
      UnpackedElemsTyped(e, s, n - 1, bs[..k]);
      UnpackedTyped(e, bs[k..]);
    }
  }

  lemma {:induction false} UnpackedFieldsTyped(fs: seq<GoType>, bs: seq<byte>)
    requires SizeOfFields(fs) == Some(|bs|)
    ensures TypesOf(UnpackedFields(fs, bs)) == fs
    decreases fs, 1
  {
    var n := |fs|;
    if n > 0 {
      var k := SizeOfFields(fs[..n - 1]).value;
      var front := UnpackedFields(fs[..n - 1], bs[..k]);
      UnpackedFieldsTyped(fs[..n - 1], bs[..k]);
      UnpackedTyped(fs[n - 1], bs[k..]);
      var r := UnpackedFields(fs, bs);
      assert r == front + [Unpacked(fs[n - 1], bs[k..])];
      forall i | 0 <= i < n ensures TypesOf(r)[i] == fs[i] {
        if i < n - 1 { assert r[i] == front[i]; assert TypesOf(front)[i] == fs[..n - 1][i]; }
      }
    }
  }

  /** binary.Read fills its target with a value of the target's own type. */
  lemma UnmarshalTyped(x: GoValue, avail: seq<byte>)
    ensures Unmarshal(x, avail).Ok? ==> TypeOf(Unmarshal(x, avail).value) == TypeOf(x)
  {
    if DataSize(x).Some? && DataSize(x).value <= |avail| && !x.VSlice? {
      UnpackedTyped(TypeOf(x), avail[..DataSize(x).value]);
    }
  }

  /** A decode target shaped like v: the same type, and for a slice the
      same element type and length (binary.Read fills a slice in place). */
  predicate SameShape(x: GoValue, v: GoValue)
  {
    if x.VSlice? then v.VSlice? && x.elem == v.elem && |x.elems| == |v.elems|
    else !v.VSlice? && TypeOf(x) == TypeOf(v)
  }

  /** What binary.Write produces for a value of fixed size, binary.Read
      into a target of the same shape reads back as that value, whatever
      follows it in the reader. */
  lemma UnmarshalMarshal(p: Platform, x: GoValue, v: GoValue, rest: seq<byte>)
    requires WellFormed(p, v) && !v.VPtr? && DataSize(v).Some? && SameShape(x, v)
    ensures Marshal(v) == Ok(Packed(v))
    ensures Unmarshal(x, Packed(v) + rest) == Ok(v)
  {
    var bs := Packed(v) + rest;
    if v.VSlice? {
      UnpackPackedElems(p, v.elem, SizeOf(v.elem).value, v.elems);
    } else {
      UnpackPacked(p, v);
    }
    assert bs[..|Packed(v)|] == Packed(v);
  }
}
