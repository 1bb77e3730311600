/** The kind enumeration of ffi types (pkg/ffi/type.go:52-110).
    The numeric codes are libffi's FFI_TYPE_* constants, except Array,
    which the package numbers 255 itself. Slice is used by value.go but
    its constant is declared in a file that is not part of this model, so
    it has no code here and no name: Kind.String has no case for it. */
module Kinds {

  import opened Base

  datatype Kind =
    | Void | Int | Float | Double | LongDouble
    | Uint8 | Int8 | Uint16 | Int16 | Uint32 | Int32 | Uint64 | Int64
    | Struct | Ptr | Array | Slice

  /** The libffi type code of a kind; None for Slice. */
  function Code(k: Kind): Option<nat>
  {
    match k
    case Void => Some(0)
    case Int => Some(1)
    case Float => Some(2)
    case Double => Some(3)
    case LongDouble => Some(4)
    case Uint8 => Some(5)
    case Int8 => Some(6)
    case Uint16 => Some(7)
    case Int16 => Some(8)
    case Uint32 => Some(9)
    case Int32 => Some(10)
    case Uint64 => Some(11)
    case Int64 => Some(12)
    case Struct => Some(13)
    case Ptr => Some(14)
    case Array => Some(255)
    case Slice => None
  }

  /** The kind a type code denotes, the inverse of Code. */
  function FromCode(c: nat): (r: Option<Kind>)
    ensures r.Some? ==> Code(r.value) == Some(c)
  {
    if c == 0 then Some(Void)
    else if c == 1 then Some(Int)
    else if c == 2 then Some(Float)
    else if c == 3 then Some(Double)
    else if c == 4 then Some(LongDouble)
    else if c == 5 then Some(Uint8)
    else if c == 6 then Some(Int8)
    else if c == 7 then Some(Uint16)
    else if c == 8 then Some(Int16)
    else if c == 9 then Some(Uint32)
    else if c == 10 then Some(Int32)
    else if c == 11 then Some(Uint64)
    else if c == 12 then Some(Int64)
    else if c == 13 then Some(Struct)
    else if c == 14 then Some(Ptr)
    else if c == 255 then Some(Array)
    else None
  }

  /** Kind.String: the kind's name; None where the source panics ("unreachable"). */
  function Name(k: Kind): Option<string>
  {
    match k
    case Void => Some("Void")
    case Int => Some("Int")
    case Float => Some("Float")
    case Double => Some("Double")
    case LongDouble => Some("LongDouble")
    case Uint8 => Some("Uint8")
    case Int8 => Some("Int8")
    case Uint16 => Some("Uint16")
    case Int16 => Some("Int16")
    case Uint32 => Some("Uint32")
    case Int32 => Some("Int32")
    case Uint64 => Some("Uint64")
    case Int64 => Some("Int64")
    case Struct => Some("Struct")
    case Ptr => Some("Ptr")
    case Array => Some("Array")
    case Slice => None
  }

  /** Every declared kind has a code, and decoding the code gives the kind back. */
  lemma CodeRoundTrip(k: Kind)
    ensures k != Slice <==> Code(k).Some?
    ensures Code(k).Some? ==> FromCode(Code(k).value) == Some(k)
  {
  }

  /** Codes are distinct: the switch in Kind.String has no duplicate case. */
  lemma CodeInjective(a: Kind, b: Kind)
    requires Code(a).Some? && Code(a) == Code(b)
    ensures a == b
  {
    CodeRoundTrip(a);
    CodeRoundTrip(b);
  }

  /** Names are defined exactly for the kinds that have a code, and are distinct. */
  lemma NameInjective(a: Kind, b: Kind)
    ensures Name(a).Some? <==> Code(a).Some?
    ensures Name(a).Some? && Name(a) == Name(b) ==> a == b
  {
  }

  /** The error text of a ValueError (pkg/ffi/value.go:30-35): kind code 0
      (Void) reads as the zero Value; a kind without a name makes
      Kind.String panic, so the text is None. */
  function ValueErrorText(op: string, k: Kind): (r: Option<string>)
    ensures k == Void ==> r == Some("ffi: call of " + op + " on zero Value")
    ensures k != Void ==> (r.Some? <==> k != Slice)
    ensures k != Void && r.Some? ==> r.value == "ffi: call of " + op + " on " + Name(k).value + " Value"
  {
    if Code(k) == Some(0) then Some("ffi: call of " + op + " on zero Value")
    else match Name(k)
      case None => None
      case Some(n) => Some("ffi: call of " + op + " on " + n + " Value")
  }
}
