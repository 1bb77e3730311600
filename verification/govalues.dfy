/** The Go side of the encoder and decoder: the reflect view of the values
    a caller hands to Encode and Decode. Only the kinds the two switch
    on are distinguished; floats are not modelled. */
module GoValues {

  import opened Base
  import opened Bytes
  import opened Types

  /** The Go integer kinds: the eight fixed-width ones, and int and uint,
      whose width is the platform word. */
  datatype IntKind = I8 | I16 | I32 | I64 | U8 | U16 | U32 | U64 | GoInt | GoUint

  /** A Go type. A struct's fields are all exported: reflect's
      `Interface` and `binary.Read` accept every one of them. */
  datatype GoType =
    | TInt(k: IntKind)
    | TArray(n: nat, elem: GoType)
    | TStruct(fields: seq<GoType>)
    | TPtr(elem: GoType)
    | TString
    | TSlice(elem: GoType)

  /** A Go value. A pointer is never nil here: it carries its pointee,
      which is what Decode writes through. Arrays and slices carry their
      element type, so an empty one still has a type. */
  datatype GoValue =
    | VInt(k: IntKind, x: int)
    | VArray(elem: GoType, elems: seq<GoValue>)
    | VStruct(fields: seq<GoValue>)
    | VPtr(to: GoValue)
    | VString(s: string)
    | VSlice(elem: GoType, elems: seq<GoValue>)

  /** The sized kinds: every kind but int and uint. */
  function FixedWidth(k: IntKind): (r: Option<nat>)
    ensures r.Some? ==> r.value in {1, 2, 4, 8}
  {
    match k
    case I8 => Some(1)
    case U8 => Some(1)
    case I16 => Some(2)
    case U16 => Some(2)
    case I32 => Some(4)
    case U32 => Some(4)
    case I64 => Some(8)
    case U64 => Some(8)
    case _ => None
  }

  /** The width of an integer kind in bytes on a platform. */
  function Width(p: Platform, k: IntKind): nat
  {
    if FixedWidth(k).Some? then FixedWidth(k).value else p.word
  }

  predicate Signed(k: IntKind)
  {
    k in {I8, I16, I32, I64, GoInt}
  }

  /** The fixed-width kind of the platform's int (or uint) width:
      int32/int64 for the signed ones, uint32/uint64 for the others. */
  function WordKind(p: Platform, signed: bool): (r: IntKind)
    requires PlatformOk(p)
    ensures FixedWidth(r) == Some(p.word) && Signed(r) == signed
  {
    if p.word == 4 then (if signed then I32 else U32)
    else (if signed then I64 else U64)
  }

  /** reflect.TypeOf. */
  function TypeOf(v: GoValue): GoType
  {
    match v
    case VInt(k, _) => TInt(k)
    case VArray(e, es) => TArray(|es|, e)
    case VStruct(fs) => TStruct(TypesOf(fs))
    case VPtr(x) => TPtr(TypeOf(x))
    case VString(_) => TString
    case VSlice(e, _) => TSlice(e)
  }

  /** The types of a struct's fields, in order. */
  function TypesOf(fs: seq<GoValue>): (r: seq<GoType>)
    ensures |r| == |fs|
  {
    seq(|fs|, i requires 0 <= i < |fs| => TypeOf(fs[i]))
  }

  /** x is a value of kind k: inside the kind's signed or unsigned range. */
  predicate InRange(p: Platform, k: IntKind, x: int)
  {
    if Signed(k) then Width(p, k) >= 1 && InSigned(x, Width(p, k)) else InUnsigned(x, Width(p, k))
  }

  /** What Go's type system guarantees of every value: integers lie in
      their kind's range and the elements of an array or slice all have
      its element type. */
  predicate WellFormed(p: Platform, v: GoValue)
  {
    match v
    case VInt(k, x) => InRange(p, k, x)
    case VArray(e, es) => forall i :: 0 <= i < |es| ==> TypeOf(es[i]) == e && WellFormed(p, es[i])
    case VStruct(fs) => forall i :: 0 <= i < |fs| ==> WellFormed(p, fs[i])
    case VPtr(x) => WellFormed(p, x)
    case VString(_) => true
    case VSlice(e, es) => forall i :: 0 <= i < |es| ==> TypeOf(es[i]) == e && WellFormed(p, es[i])
  }

  /** A Go error that comes back together with the state the operation
      left: None is a nil error. */
  datatype Outcome<T> = Outcome(state: T, err: Option<string>)
}
