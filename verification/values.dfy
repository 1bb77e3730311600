/** Values: a type over storage (pkg/ffi/value.go). A Value is the zero
    Value, a view of a type at an address, or a slice that carries its
    (data, len, cap) header. Navigation computes new views over the same
    bytes; the setters store into them. */
module Values {

  import opened Base
  import opened Kinds
  import opened Errors
  import opened Bytes
  import opened Types
  import opened Memory
  import opened Arith

  datatype Value =
    | Invalid                                       // Value{}: nil type, nil storage
    | View(typ: Type, addr: nat)                    // typ's bytes start at addr; 0 is nil
    | SliceView(typ: Type, data: nat, len: int, cap: int)  // a slice and its header

  /** A slice header as reflect.SliceHeader lays it out. */
  datatype Header = Header(data: nat, len: int, cap: int)

  /** A freshly allocated value and the heap that now holds it. */
  datatype Allocated = Allocated(v: Value, mem: Heap)

  /** The value has a type: it is not the zero Value. Every method that
      reaches v.typ panics on the zero Value. */
  predicate HasType(v: Value)
  {
    !v.Invalid?
  }

  /** Value.IsValid (pkg/ffi/value.go:286-288): the storage pointer is not
      nil. A slice's pointer is its header, which is never nil; a view at
      address 0 is a typed but invalid value, as Elem returns for a nil
      pointer. */
  predicate IsValid(v: Value)
  {
    v.SliceView? || (v.View? && v.addr != 0)
  }

  /** Value.Type (pkg/ffi/value.go:423-425): the type, which is nil for
      the zero Value; it never panics. */
  function TypeOf(v: Value): (r: Option<Type>)
    ensures r.None? <==> v.Invalid?
    ensures r.Some? ==> r.value == v.typ
  {
    if v.Invalid? then None else Some(v.typ)
  }

  /** Value.Kind (pkg/ffi/value.go:290-293). */
  function KindOfValue(v: Value): (r: Result<Kind>)
    ensures r.Ok? <==> HasType(v)
    ensures r.Ok? ==> r.value == KindOf(v.typ)
  {
    if v.Invalid? then Fail(NilType) else Ok(KindOf(v.typ))
  }

  /** Where the value's bytes start: v.val for a view. A slice value's
      header is kept outside the heap, so for it this is the data
      pointer, not the header that v.val points to. A view at 0 is the
      nil pointer: touching its bytes is a NilDeref. */
  function Addr(v: Value): nat
    requires HasType(v)
  {
    if v.View? then v.addr else v.data
  }

  /** The panic of `&buf[0]` on an empty buffer. */
  const EmptyIndex := Panic("runtime error: index out of range [0] with length 0")

  /** The panics of `make` for a length that is negative as a Go int,
      and for a capacity that is negative or below the length. */
  const MakeLenRange := Panic("runtime error: makeslice: len out of range")
  const MakeCapRange := Panic("runtime error: makeslice: cap out of range")

  /** Go's `make([]byte, n, c)` with n and c uintptr sizes converted to
      int: the runtime checks the length first, then the capacity. Go's
      allocation limit below 2^(8*word-1) is not modelled. */
  function MakeBytesFault(p: Platform, n: nat, c: nat): (r: Option<Fault>)
    requires PlatformOk(p)
    ensures r.None? <==> n <= c < Half(p.word)
    ensures r.Some? ==> (r.value == MakeLenRange <==> n >= Half(p.word))
  {
    if n >= Half(p.word) then Some(MakeLenRange)
    else if c >= Half(p.word) || n > c then Some(MakeCapRange)
    else None
  }

  /** New (pkg/ffi/value.go:78-89): fresh zero-filled storage of the
      type's size, typed by it. A nil type panics. `make` panics when the
      size, converted to a Go int, is negative (2^(8*word-1) or more), as
      a size_t that wrapped does. A type of size 0 panics at `&buf[0]`,
      which indexes past an empty buffer; no registered type has size 0
      (Types.RegistryOk). The storage is appended to the heap: the old
      heap is untouched and the new address is not nil. */
  function New(mem: Heap, p: Platform, t: Option<Type>): (r: Result<Allocated>)
    requires PlatformOk(p)
    ensures r.Ok? <==> t.Some? && 0 < t.value.size < Half(p.word)
    ensures t.None? ==> r == Fail(Panic("ffi: New(nil)"))
    ensures t.Some? && t.value.size >= Half(p.word) ==> r == Fail(MakeLenRange)
    ensures t.Some? && t.value.size == 0 ==> r == Fail(EmptyIndex)
    ensures r.Ok? ==>
      && r.value.v.View? && r.value.v.typ == t.value && IsValid(r.value.v)
      && !InBounds(mem, r.value.v.addr, 1)
      && |r.value.mem| == |mem| + t.value.size
      && r.value.mem[..|mem|] == mem
      && Load(r.value.mem, r.value.v.addr, t.value.size) == Ok(Zeros(t.value.size))
  {
    if t.None? then Fail(Panic("ffi: New(nil)"))
    else
      var made := MakeBytesFault(p, t.value.size, t.value.size);
      if made.Some? then Fail(made.value)
      else if t.value.size == 0 then Fail(EmptyIndex)
      else
      LoadAppended(mem, t.value.size);
      Ok(Allocated(View(t.value, |mem|), mem + Zeros(t.value.size)))
  }

  /** A new value of an integer type reads as zero through Int and Uint,
      and every range of the old heap reads as before. */
  lemma NewReadsZero(mem: Heap, p: Platform, t: Type, a: nat, n: nat)
    requires PlatformOk(p) && 0 < t.size < Half(p.word)
    ensures var r := New(mem, p, Some(t)).value;
      && (IntWidth(p, KindOf(t)).Some? && IntWidth(p, KindOf(t)).value <= t.size ==> Int(r.mem, p, r.v) == Ok(0))
      && (UintWidth(KindOf(t)).Some? && UintWidth(KindOf(t)).value <= t.size ==> Uint(r.mem, r.v) == Ok(0))
      && (InBounds(mem, a, n) ==> Load(r.mem, a, n) == Load(mem, a, n))
  {
    var r := New(mem, p, Some(t)).value;
    if IntWidth(p, KindOf(t)).Some? && IntWidth(p, KindOf(t)).value <= t.size {
      var w := IntWidth(p, KindOf(t)).value;
      LoadZeros(mem, t.size, 0, w);
      FromLEZeros(w);
    }
    if UintWidth(KindOf(t)).Some? && UintWidth(KindOf(t)).value <= t.size {
      var w := UintWidth(KindOf(t)).value;
      LoadZeros(mem, t.size, 0, w);
      FromLEZeros(w);
    }
    if InBounds(mem, a, n) {
      assert Load(r.mem, a, n).value == Load(mem, a, n).value;
    }
  }

  /** Zero bytes denote zero. */
  lemma {:induction false} FromLEZeros(n: nat)
    ensures FromLE(Zeros(n)) == 0
  {
    if n > 0 {
      assert Zeros(n)[1..] == Zeros(n - 1);
      FromLEZeros(n - 1);
    }
  }

  /** A word at an address, as an unsigned number. */
  function LoadWord(mem: Heap, p: Platform, a: nat): (r: Result<nat>)
    ensures r.Ok? <==> InBounds(mem, a, p.word)
    ensures r.Ok? ==> r.value < Pow256(p.word)
  {
    var bs :- Load(mem, a, p.word);
    Ok(FromLE(bs))
  }

  /** The header of a slice value: carried by a SliceView; read from the
      storage, as three words Data, Len, Cap, for a slice-typed view
      (a struct field or array element of slice type). */
  function HeaderOf(mem: Heap, p: Platform, v: Value): (r: Result<Header>)
    requires HasType(v) && PlatformOk(p)
    ensures v.SliceView? ==> r == Ok(Header(v.data, v.len, v.cap))
  {
    if v.SliceView? then Ok(Header(v.data, v.len, v.cap))
    else
      var d :- LoadWord(mem, p, v.addr);
      var l :- LoadWord(mem, p, v.addr + p.word);
      var c :- LoadWord(mem, p, v.addr + 2 * p.word);
      Ok(Header(d, SignExtend(l, p.word), SignExtend(c, p.word)))
  }

  /** Value.Len (pkg/ffi/value.go:295-311): an array's declared length, a
      slice's header length; any other kind is a ValueError. */
  function Len(mem: Heap, p: Platform, v: Value): (r: Result<int>)
    requires PlatformOk(p)
    ensures !HasType(v) ==> r == Fail(NilType)
    ensures HasType(v) && v.typ.ArrayType? ==> r == Ok(v.typ.len)
    ensures v.SliceView? && v.typ.SliceType? ==> r == Ok(v.len)
    ensures HasType(v) && KindOf(v.typ) !in {Kind.Array, Kind.Slice} ==> r == Fail(ValueError("ffi.Value.Len", KindOf(v.typ)))
  {
    if v.Invalid? then Fail(NilType)
    else match KindOf(v.typ)
      case Array => LenOf(v.typ)
      case Slice =>
        var h :- HeaderOf(mem, p, v);
        Ok(h.len)
      case k => Fail(ValueError("ffi.Value.Len", k))
  }

  /** Len as written: the array branch asserts `v.typ.(*cffi_array)`
      (pkg/ffi/value.go:300), which panics on every array descriptor. */
  function LenAsWritten(mem: Heap, p: Platform, v: Value): (r: Result<int>)
    requires PlatformOk(p)
    ensures HasType(v) && v.typ.ArrayType? ==> r == Fail(PointerAssertion(v.typ, "cffi_array"))
    ensures !(HasType(v) && KindOf(v.typ) == Array) ==> r == Len(mem, p, v)
  {
    if HasType(v) && KindOf(v.typ) == Array then Fail(PointerAssertion(v.typ, "cffi_array"))
    else Len(mem, p, v)
  }

  /** Value.Cap (pkg/ffi/value.go:135-146): an array's capacity is its length. */
  function Cap(mem: Heap, p: Platform, v: Value): (r: Result<int>)
    requires PlatformOk(p)
    ensures !HasType(v) ==> r == Fail(NilType)
    ensures HasType(v) && v.typ.ArrayType? ==> r == Len(mem, p, v)
    ensures v.SliceView? && v.typ.SliceType? ==> r == Ok(v.cap)
    ensures HasType(v) && KindOf(v.typ) !in {Kind.Array, Kind.Slice} ==> r == Fail(ValueError("ffi.Value.Cap", KindOf(v.typ)))
  {
    if v.Invalid? then Fail(NilType)
    else match KindOf(v.typ)
      case Array => LenOf(v.typ)
      case Slice =>
        var h :- HeaderOf(mem, p, v);
        Ok(h.cap)
      case k => Fail(ValueError("ffi.Value.Cap", k))
  }

  /** The panic of a type assertion on a descriptor whose kind and
      constructor disagree; no package constructor builds one. */
  const Conversion := Panic("interface conversion")

  /** The Go type that holds a descriptor inside the Type interface. The
      package builds every descriptor as a struct value and registers
      that value (pkg/ffi/type.go:273, 307, 338, 355), never a pointer. */
  function DynamicName(t: Type): string
  {
    match t
    case Builtin(_, _, _, _) => "cffi_type"
    case StructType(_, _, _, _) => "cffi_struct"
    case ArrayType(_, _, _, _, _) => "cffi_array"
    case PtrType(_, _, _, _) => "cffi_ptr"
    case SliceType(_, _, _, _) => "cffi_slice"
  }

  /** The panic of the assertion `v.typ.(*want)` on a descriptor held as
      a value: a value of type T never converts to *T. */
  function PointerAssertion(t: Type, want: string): Fault
  {
    Panic("interface conversion: ffi.Type is ffi." + DynamicName(t) + ", not *ffi." + want)
  }

  /** Value.Field (pkg/ffi/value.go:158-174): the view of field i at the
      struct's address plus the field's offset, typed as the field. */
  function Field(v: Value, i: int): (r: Result<Value>)
    ensures !HasType(v) ==> r == Fail(NilType)
    ensures HasType(v) && KindOf(v.typ) != Struct ==> r == Fail(WrongKind(KindOf(v.typ)))
    ensures r.Ok? <==> HasType(v) && v.typ.StructType? && 0 <= i < |v.typ.fields|
    ensures r.Ok? ==> r.value == View(v.typ.fields[i].typ, Addr(v) + v.typ.fields[i].offset)
    ensures HasType(v) && v.typ.StructType? && !(0 <= i < |v.typ.fields|) ==> r == Fail(Panic("ffi: Field index out of range"))
  {
    if v.Invalid? then Fail(NilType)
    else if KindOf(v.typ) != Struct then Fail(WrongKind(KindOf(v.typ)))
    else if !v.typ.StructType? then Fail(Conversion)
    else if i < 0 || i >= |v.typ.fields| then Fail(Panic("ffi: Field index out of range"))
    else
      var f := v.typ.fields[i];
      Ok(View(f.typ, Addr(v) + f.offset))
  }

  /** Field as written: `v.typ.(*cffi_struct)` (pkg/ffi/value.go:162)
      panics on every struct descriptor, because it is held as a value. */
  function FieldAsWritten(v: Value, i: int): (r: Result<Value>)
    ensures HasType(v) && v.typ.StructType? ==> r == Fail(PointerAssertion(v.typ, "cffi_struct"))
    ensures !(HasType(v) && KindOf(v.typ) == Struct) ==> r == Field(v, i)
  {
    if HasType(v) && KindOf(v.typ) == Struct then Fail(PointerAssertion(v.typ, "cffi_struct"))
    else Field(v, i)
  }

  /** Value.NumField (pkg/ffi/value.go:313-318). */
  function NumField(v: Value): (r: Result<nat>)
    ensures r.Ok? <==> HasType(v) && v.typ.StructType?
    ensures r.Ok? ==> r.value == |v.typ.fields|
  {
    if v.Invalid? then Fail(NilType)
    else if KindOf(v.typ) != Struct then Fail(WrongKind(KindOf(v.typ)))
    else NumFields(v.typ)
  }

  /** The index of the first field called name, scanning from i. */
  function FirstNamed(fields: seq<StructField>, name: string, i: nat): (r: Option<nat>)
    requires i <= |fields|
    ensures r.Some? ==> i <= r.value < |fields| && fields[r.value].name == name
    ensures r.Some? ==> forall j :: i <= j < r.value ==> fields[j].name != name
    ensures r.None? ==> forall j :: i <= j < |fields| ==> fields[j].name != name
    decreases |fields| - i
  {
    if i == |fields| then None
    else if fields[i].name == name then Some(i)
    else FirstNamed(fields, name, i + 1)
  }

  /** Value.FieldByName (pkg/ffi/value.go:191-208): the view of the first
      field with that name, which is what Field gives for its index; the
      zero Value when no field has the name. */
  function FieldByName(v: Value, name: string): (r: Result<Value>)
    ensures !HasType(v) ==> r == Fail(NilType)
    ensures HasType(v) && KindOf(v.typ) != Struct ==> r == Fail(WrongKind(KindOf(v.typ)))
    ensures HasType(v) && v.typ.StructType? ==>
      && r.Ok?
      && (r.value == Invalid <==> forall j :: 0 <= j < |v.typ.fields| ==> v.typ.fields[j].name != name)
      && (r.value != Invalid ==>
            exists i :: (0 <= i < |v.typ.fields| && v.typ.fields[i].name == name
                         && (forall j :: 0 <= j < i ==> v.typ.fields[j].name != name)
                         && r == Field(v, i)))
  {
    if v.Invalid? then Fail(NilType)
    else if KindOf(v.typ) != Struct then Fail(WrongKind(KindOf(v.typ)))
    else if !v.typ.StructType? then Fail(Conversion)
    else match FirstNamed(v.typ.fields, name, 0)
      case None => Ok(Invalid)
      case Some(i) => Field(v, i)
  }

  /** Value.Index (pkg/ffi/value.go:223-250), corrected: element i of an
      array or slice, at the base plus i element sizes; i must be below
      the length for both kinds. */
  function Index(mem: Heap, p: Platform, v: Value, i: int): (r: Result<Value>)
    requires PlatformOk(p)
    ensures !HasType(v) ==> r == Fail(NilType)
    ensures HasType(v) && KindOf(v.typ) !in {Kind.Array, Kind.Slice} ==> r == Fail(ValueError("ffi.Value.Index", KindOf(v.typ)))
    ensures HasType(v) && v.typ.ArrayType? ==>
      (r.Ok? <==> 0 <= i < v.typ.len)
      && (r.Ok? ==> r.value == View(v.typ.elem, Addr(v) + i * v.typ.elem.size))
    ensures v.SliceView? && v.typ.SliceType? ==>
      (r.Ok? <==> 0 <= i < v.len)
      && (r.Ok? ==> r.value == View(v.typ.elem, v.data + i * v.typ.elem.size))
  {
    IndexBelow(mem, p, v, i, false)
  }

  /** Index as written: the array branch asserts `v.typ.(*cffi_array)`
      (pkg/ffi/value.go:229), which panics on every array descriptor;
      the slice branch is Index's. */
  function IndexAsWritten(mem: Heap, p: Platform, v: Value, i: int): (r: Result<Value>)
    requires PlatformOk(p)
    ensures HasType(v) && v.typ.ArrayType? ==> r == Fail(PointerAssertion(v.typ, "cffi_array"))
    ensures !(HasType(v) && KindOf(v.typ) == Array) ==> r == Index(mem, p, v, i)
  {
    if HasType(v) && KindOf(v.typ) == Array then Fail(PointerAssertion(v.typ, "cffi_array"))
    else Index(mem, p, v, i)
  }

  /** Index with the assertion of line 229 corrected and the bound of
      line 230 as written: the array branch rejects only i < 0 || i > Len,
      so i == Len yields a view just past the array. */
  function IndexPastEnd(mem: Heap, p: Platform, v: Value, i: int): (r: Result<Value>)
    requires PlatformOk(p)
    ensures HasType(v) && v.typ.ArrayType? ==>
      (r.Ok? <==> 0 <= i <= v.typ.len)
      && (r.Ok? ==> r.value == View(v.typ.elem, Addr(v) + i * v.typ.elem.size))
    ensures !(HasType(v) && v.typ.ArrayType? && i == v.typ.len) ==> r == Index(mem, p, v, i)
  {
    IndexBelow(mem, p, v, i, true)
  }

  /** The body both Index variants share; `inclusive` selects the
      array bound the source wrote. */
  function IndexBelow(mem: Heap, p: Platform, v: Value, i: int, inclusive: bool): (r: Result<Value>)
    requires PlatformOk(p)
    ensures !HasType(v) ==> r == Fail(NilType)
    ensures HasType(v) && KindOf(v.typ) != Kind.Array && KindOf(v.typ) != Kind.Slice ==>
      r == Fail(ValueError("ffi.Value.Index", KindOf(v.typ)))
    ensures HasType(v) && KindOf(v.typ) == Kind.Array ==> r == ArrayElement(v.typ, Addr(v), i, inclusive)
    ensures v.SliceView? && KindOf(v.typ) == Kind.Slice ==> r == SliceElement(v.typ, Header(v.data, v.len, v.cap), i)
  {
    if v.Invalid? then Fail(NilType)
    else match KindOf(v.typ)
      case Array => ArrayElement(v.typ, Addr(v), i, inclusive)
      case Slice =>
        var h :- HeaderOf(mem, p, v);
        SliceElement(v.typ, h, i)
      case k => Fail(ValueError("ffi.Value.Index", k))
  }

  /** Element i of an array at base; `inclusive` admits i == len. */
  function ArrayElement(t: Type, base: nat, i: int, inclusive: bool): (r: Result<Value>)
    ensures t.ArrayType? ==>
      (r.Ok? <==> 0 <= i && (if inclusive then i <= t.len else i < t.len))
      && (r.Ok? ==> r.value == View(t.elem, base + i * t.elem.size))
      && (!r.Ok? ==> r == Fail(Panic("ffi: array index out of range")))
  {
    if !t.ArrayType? then Fail(Conversion)
    else if i < 0 || (if inclusive then i > t.len else i >= t.len) then
      Fail(Panic("ffi: array index out of range"))
    else Ok(View(t.elem, base + i * t.elem.size))
  }

  /** Element i of a slice with header h. */
  function SliceElement(t: Type, h: Header, i: int): (r: Result<Value>)
    ensures !(0 <= i < h.len) ==> r == Fail(Panic("ffi: slice index out of range"))
    ensures t.SliceType? ==>
      (r.Ok? <==> 0 <= i < h.len)
      && (r.Ok? ==> r.value == View(t.elem, h.data + i * t.elem.size))
  {
    if i < 0 || i >= h.len then Fail(Panic("ffi: slice index out of range"))
    else if !t.SliceType? then Fail(Conversion)
    else Ok(View(t.elem, h.data + i * t.elem.size))
  }

  /** Value.Slice (pkg/ffi/value.go:379-420): a slice of an array or slice
      sharing its storage; requires 0 <= beg <= end <= cap. */
  function Slice(mem: Heap, p: Platform, v: Value, beg: int, end: int): (r: Result<Value>)
    requires PlatformOk(p)
    ensures !HasType(v) ==> r == Fail(NilType)
    ensures HasType(v) && KindOf(v.typ) !in {Kind.Array, Kind.Slice} ==> r == Fail(ValueError("ffi.Value.Slice", KindOf(v.typ)))
    ensures HasType(v) && v.typ.ArrayType? ==>
      (r.Ok? <==> 0 <= beg <= end <= v.typ.len)
      && (r.Ok? ==> r.value == SliceView(SliceTypeOf(p, v.typ.elem), Addr(v) + beg * v.typ.elem.size, end - beg, v.typ.len - beg))
    ensures v.SliceView? && v.typ.SliceType? ==>
      (r.Ok? <==> 0 <= beg <= end <= v.cap)
      && (r.Ok? ==> r.value == SliceView(v.typ, v.data + beg * v.typ.elem.size, end - beg, v.cap - beg))
    ensures HasType(v) && v.typ.SliceType? && HeaderOf(mem, p, v).Fail? ==> r == HeaderOf(mem, p, v).PropagateFailure()
    ensures r.Ok? ==> r.value.SliceView? && r.value.typ.SliceType? && 0 <= r.value.len <= r.value.cap
  {
    if v.Invalid? then Fail(NilType)
    else match KindOf(v.typ)
      case Array =>
        if !v.typ.ArrayType? then Fail(Conversion)
        else SliceOver(SliceTypeOf(p, v.typ.elem), Addr(v), v.typ.len, beg, end)
      case Slice =>
        if !v.typ.SliceType? then Fail(Conversion)
        else
          var h :- HeaderOf(mem, p, v);
          SliceOver(v.typ, h.data, h.cap, beg, end)
      case k => Fail(ValueError("ffi.Value.Slice", k))
  }

  /** Slice as written: the array branch asserts `v.typ.(*cffi_array)`
      (pkg/ffi/value.go:391), which panics on every array descriptor. */
  function SliceAsWritten(mem: Heap, p: Platform, v: Value, beg: int, end: int): (r: Result<Value>)
    requires PlatformOk(p)
    ensures HasType(v) && v.typ.ArrayType? ==> r == Fail(PointerAssertion(v.typ, "cffi_array"))
    ensures !(HasType(v) && KindOf(v.typ) == Array) ==> r == Slice(mem, p, v, beg, end)
  {
    if HasType(v) && KindOf(v.typ) == Array then Fail(PointerAssertion(v.typ, "cffi_array"))
    else Slice(mem, p, v, beg, end)
  }

  /** Every struct and array descriptor panics in the as-written Field,
      Len, Index and Slice, where the corrected members answer. */
  lemma AssertionsPanic(mem: Heap, p: Platform, v: Value)
    requires PlatformOk(p) && v.View? && (v.typ.StructType? || v.typ.ArrayType?)
    ensures v.typ.StructType? && |v.typ.fields| > 0 ==>
      FieldAsWritten(v, 0).Fail? && Field(v, 0).Ok?
    ensures v.typ.ArrayType? ==>
      && LenAsWritten(mem, p, v).Fail? && Len(mem, p, v) == Ok(v.typ.len)
      && SliceAsWritten(mem, p, v, 0, 0).Fail?
    ensures v.typ.ArrayType? && v.typ.len > 0 ==>
      && IndexAsWritten(mem, p, v, 0).Fail? && Index(mem, p, v, 0).Ok?
      && Slice(mem, p, v, 0, 0).Ok?
  {
  }

  /** Every element of a reslice is the element of the original at the
      shifted index: the same type at the same address. Its length and
      capacity are counted from beg. */
  lemma SliceIndex(mem: Heap, p: Platform, v: Value, beg: int, end: int, i: int)
    requires PlatformOk(p) && ((v.View? && v.typ.ArrayType?) || (v.SliceView? && v.typ.SliceType?))
    requires Slice(mem, p, v, beg, end).Ok?
    ensures var s := Slice(mem, p, v, beg, end).value;
      && Len(mem, p, s) == Ok(end - beg)
      && Cap(mem, p, s) == Ok((if v.View? then v.typ.len else v.cap) - beg)
      && (0 <= i < end - beg && (v.View? || beg + i < v.len) ==>
            Index(mem, p, s, i) == Index(mem, p, v, beg + i))
  {
    var s := Slice(mem, p, v, beg, end).value;
    var es := v.typ.elem.size;
    assert s.typ.elem == v.typ.elem;
    if 0 <= i < end - beg {
      assert s.data + i * es == Addr(v) + (beg + i) * es by {
        assert (beg + i) * es == beg * es + i * es;
      }
    }
  }

  /** The bounds check and header arithmetic of Value.Slice. */
  function SliceOver(st: Type, base: nat, cap: int, beg: int, end: int): (r: Result<Value>)
    requires st.SliceType?
    ensures r.Ok? <==> 0 <= beg <= end <= cap
    ensures r.Ok? ==> r.value == SliceView(st, base + beg * st.elem.size, end - beg, cap - beg)
    ensures !r.Ok? ==> r == Fail(Panic("ffi.Value.Slice: slice index out of bounds"))
  {
    if beg < 0 || end < beg || end > cap then Fail(Panic("ffi.Value.Slice: slice index out of bounds"))
    else Ok(SliceView(st, base + beg * st.elem.size, end - beg, cap - beg))
  }

  /** The byte width Int and SetInt use for a kind: the signed kinds, with
      Int as wide as a Go int. */
  function IntWidth(p: Platform, k: Kind): Option<nat>
  {
    match k
    case Int => Some(p.word)
    case Int8 => Some(1)
    case Int16 => Some(2)
    case Int32 => Some(4)
    case Int64 => Some(8)
    case _ => None
  }

  /** The byte width Uint and SetUint use: the unsigned fixed-width kinds
      (the source has the Uint and Uintptr cases commented out). */
  function UintWidth(k: Kind): Option<nat>
  {
    match k
    case Uint8 => Some(1)
    case Uint16 => Some(2)
    case Uint32 => Some(4)
    case Uint64 => Some(8)
    case _ => None
  }

  /** Value.Int (pkg/ffi/value.go:252-270): the kind's width of bytes at
      the value, sign-extended to int64. */
  function Int(mem: Heap, p: Platform, v: Value): (r: Result<int>)
    requires PlatformOk(p)
    ensures HasType(v) && IntWidth(p, KindOf(v.typ)).None? ==> r == Fail(ValueError("ffi.Value.Int", KindOf(v.typ)))
    ensures r.Ok? ==> InSigned(r.value, 8)
  {
    if v.Invalid? then Fail(NilType)
    else match IntWidth(p, KindOf(v.typ))
      case None => Fail(ValueError("ffi.Value.Int", KindOf(v.typ)))
      case Some(w) =>
        var bs :- Load(mem, Addr(v), w);
        Pow256Monotone(w, 8);
        Ok(SignExtend(FromLE(bs), w))
  }

  /** Value.SetInt (pkg/ffi/value.go:333-351): store x converted to the
      kind's width, which keeps its low bytes. */
  function SetInt(mem: Heap, p: Platform, v: Value, x: int): (r: Result<Heap>)
    requires PlatformOk(p) && InSigned(x, 8)
    ensures HasType(v) && IntWidth(p, KindOf(v.typ)).None? ==> r == Fail(ValueError("ffi.Value.SetInt", KindOf(v.typ)))
    ensures r.Ok? ==> |r.value| == |mem|
  {
    if v.Invalid? then Fail(NilType)
    else match IntWidth(p, KindOf(v.typ))
      case None => Fail(ValueError("ffi.Value.SetInt", KindOf(v.typ)))
      case Some(w) => Store(mem, Addr(v), ToLE(Truncate(x, w), w))
  }

  /** Value.Uint (pkg/ffi/value.go:427-447): the kind's width of bytes,
      zero-extended. */
  function Uint(mem: Heap, v: Value): (r: Result<int>)
    ensures HasType(v) && UintWidth(KindOf(v.typ)).None? ==> r == Fail(ValueError("ffi.Value.Uint", KindOf(v.typ)))
    ensures r.Ok? ==> InUnsigned(r.value, 8)
  {
    if v.Invalid? then Fail(NilType)
    else match UintWidth(KindOf(v.typ))
      case None => Fail(ValueError("ffi.Value.Uint", KindOf(v.typ)))
      case Some(w) =>
        var bs :- Load(mem, Addr(v), w);
        Pow256Monotone(w, 8);
        Ok(FromLE(bs))
  }

  /** Value.SetUint (pkg/ffi/value.go:359-377). */
  function SetUint(mem: Heap, v: Value, x: int): (r: Result<Heap>)
    requires InUnsigned(x, 8)
    ensures HasType(v) && UintWidth(KindOf(v.typ)).None? ==> r == Fail(ValueError("ffi.Value.SetUint", KindOf(v.typ)))
    ensures r.Ok? ==> |r.value| == |mem|
  {
    if v.Invalid? then Fail(NilType)
    else match UintWidth(KindOf(v.typ))
      case None => Fail(ValueError("ffi.Value.SetUint", KindOf(v.typ)))
      case Some(w) => Store(mem, Addr(v), ToLE(Truncate(x, w), w))
  }

  /** After SetInt(x) on a signed kind of width w, Int gives x truncated to
      w bytes and sign-extended, which is x itself when x fits. Both
      calls fail together on every other kind. */
  lemma IntRoundTrip(mem: Heap, p: Platform, v: Value, x: int)
    requires PlatformOk(p) && InSigned(x, 8) && HasType(v)
    ensures IntWidth(p, KindOf(v.typ)).None? ==>
      SetInt(mem, p, v, x).Fail? && Int(mem, p, v).Fail?
    ensures SetInt(mem, p, v, x).Ok? ==>
      var w := IntWidth(p, KindOf(v.typ)).value;
      && Int(SetInt(mem, p, v, x).value, p, v) == Ok(SignExtend(Truncate(x, w), w))
      && (InSigned(x, w) ==> Int(SetInt(mem, p, v, x).value, p, v) == Ok(x))
  {
    if SetInt(mem, p, v, x).Ok? {
      var w := IntWidth(p, KindOf(v.typ)).value;
      var bs := ToLE(Truncate(x, w), w);
      LoadStore(mem, Addr(v), bs);
      TruncateInverse(x, w);
    }
  }

  /** After SetUint(x) on an unsigned kind of width w, Uint gives x
      truncated to w bytes, which is x itself when x fits. */
  lemma UintRoundTrip(mem: Heap, v: Value, x: int)
    requires InUnsigned(x, 8) && HasType(v)
    ensures UintWidth(KindOf(v.typ)).None? ==> SetUint(mem, v, x).Fail? && Uint(mem, v).Fail?
    ensures SetUint(mem, v, x).Ok? ==>
      var w := UintWidth(KindOf(v.typ)).value;
      && Uint(SetUint(mem, v, x).value, v) == Ok(Truncate(x, w))
      && (InUnsigned(x, w) ==> Uint(SetUint(mem, v, x).value, v) == Ok(x))
  {
    if SetUint(mem, v, x).Ok? {
      var w := UintWidth(KindOf(v.typ)).value;
      LoadStore(mem, Addr(v), ToLE(Truncate(x, w), w));
      TruncateInverse(x, w);
    }
  }

  /** Value.Elem (pkg/ffi/value.go:148-156): a pointer's pointee, typed
      as the element type, at the address stored in the pointer. */
  function Elem(mem: Heap, p: Platform, v: Value): (r: Result<Value>)
    requires PlatformOk(p)
    ensures HasType(v) && KindOf(v.typ) != Ptr ==> r == Fail(WrongKind(KindOf(v.typ)))
    ensures r.Ok? ==>
      && HasType(v) && v.typ.PtrType? && LoadWord(mem, p, Addr(v)).Ok?
      && r.value == View(v.typ.elem, LoadWord(mem, p, Addr(v)).value)
      && (IsValid(r.value) <==> LoadWord(mem, p, Addr(v)).value != 0)
  {
    if v.Invalid? then Fail(NilType)
    else if KindOf(v.typ) != Ptr then Fail(WrongKind(KindOf(v.typ)))
    else
      var e :- ElemOf(v.typ);
      var target :- LoadWord(mem, p, Addr(v));
      Ok(View(e, target))
  }

  /** Value.SetPointer (pkg/ffi/value.go:353-357): store an address. */
  function SetPointer(mem: Heap, p: Platform, v: Value, x: nat): (r: Result<Heap>)
    requires PlatformOk(p) && x < Pow256(p.word)
    ensures HasType(v) && KindOf(v.typ) != Ptr ==> r == Fail(WrongKind(KindOf(v.typ)))
    ensures r.Ok? ==> |r.value| == |mem|
  {
    if v.Invalid? then Fail(NilType)
    else if KindOf(v.typ) != Ptr then Fail(WrongKind(KindOf(v.typ)))
    else Store(mem, Addr(v), ToLE(x, p.word))
  }

  /** Storing an address into a pointer value and dereferencing it gives
      the pointee view at that address. */
  lemma ElemSetPointer(mem: Heap, p: Platform, v: Value, x: nat)
    requires PlatformOk(p) && x < Pow256(p.word)
    requires v.View? && v.typ.PtrType? && InBounds(mem, v.addr, p.word)
    ensures SetPointer(mem, p, v, x).Ok?
    ensures Elem(SetPointer(mem, p, v, x).value, p, v) == Ok(View(v.typ.elem, x))
  {
    LoadStore(mem, v.addr, ToLE(x, p.word));
  }

  /** A nil pointer dereferences to the invalid view of its element type
      at address 0, and so does Indirect; reading through it panics. */
  lemma NilPointerIndirect(mem: Heap, p: Platform, v: Value)
    requires PlatformOk(p) && v.View? && v.typ.PtrType? && LoadWord(mem, p, v.addr) == Ok(0)
    ensures Indirect(mem, p, v) == Ok(View(v.typ.elem, 0))
    ensures !IsValid(Indirect(mem, p, v).value)
    ensures KindOf(v.typ.elem) == Int32 ==> Int(mem, p, Indirect(mem, p, v).value) == Fail(NilDeref)
  {
  }

  /** Indirect (pkg/ffi/value.go:459-467): dereference a pointer, leave
      anything else as it is. */
  function Indirect(mem: Heap, p: Platform, v: Value): (r: Result<Value>)
    requires PlatformOk(p)
    ensures HasType(v) && KindOf(v.typ) != Ptr ==> r == Ok(v)
    ensures HasType(v) && KindOf(v.typ) == Ptr ==> r == Elem(mem, p, v)
  {
    if v.Invalid? then Fail(NilType)
    else if KindOf(v.typ) != Ptr then Ok(v)
    else Elem(mem, p, v)
  }

  /** Indirect through a pointer that SetPointer(x) just set is the
      element type's view at x, valid exactly when x is not nil. */
  lemma IndirectSetPointer(mem: Heap, p: Platform, v: Value, x: nat)
    requires PlatformOk(p) && x < Pow256(p.word)
    requires v.View? && v.typ.PtrType? && InBounds(mem, v.addr, p.word)
    ensures SetPointer(mem, p, v, x).Ok?
    ensures Indirect(SetPointer(mem, p, v, x).value, p, v) == Ok(View(v.typ.elem, x))
    ensures IsValid(Indirect(SetPointer(mem, p, v, x).value, p, v).value) <==> x != 0
  {
    ElemSetPointer(mem, p, v, x);
  }

  /** The writer NewWriter returns: the value's bytes (Buffer) and a cursor. */
  datatype WBuffer = WBuffer(base: nat, size: nat, idx: nat)

  /** The cursor stays inside the buffer and the buffer inside the heap. */
  predicate WriterOk(mem: Heap, w: WBuffer)
  {
    w.idx <= w.size && InBounds(mem, w.base, w.size)
  }

  /** NewWriter (pkg/ffi/value.go:662-666): a cursor at the start of the
      value's typ.Size() bytes (Buffer, pkg/ffi/value.go:125-133). */
  function NewWriter(v: Value): (r: Result<WBuffer>)
    ensures r.Ok? <==> HasType(v)
    ensures r.Ok? ==> r.value == WBuffer(Addr(v), v.typ.size, 0)
  {
    if v.Invalid? then Fail(NilType) else Ok(WBuffer(Addr(v), v.typ.size, 0))
  }

  datatype Wrote = Wrote(mem: Heap, w: WBuffer, n: nat)

  /** wbuffer.Write (pkg/ffi/value.go:656-660): copy as much of bs as fits
      after the cursor and advance it by that count. It has no error
      result: a full buffer just takes fewer bytes. */
  function Write(mem: Heap, w: WBuffer, bs: seq<byte>): (r: Wrote)
    requires WriterOk(mem, w)
    ensures r.n == if |bs| < w.size - w.idx then |bs| else w.size - w.idx
    ensures r.w == w.(idx := w.idx + r.n) && WriterOk(r.mem, r.w)
    ensures |r.mem| == |mem|
    ensures forall k :: 0 <= k < r.n ==> r.mem[w.base + w.idx + k] == bs[k]
    ensures forall k :: 0 <= k < |mem| && !(w.base + w.idx <= k < w.base + w.idx + r.n) ==> r.mem[k] == mem[k]
  {
    var n := if |bs| < w.size - w.idx then |bs| else w.size - w.idx;
    var m := Store(mem, w.base + w.idx, bs[..n]).value;
    Wrote(m, w.(idx := w.idx + n), n)
  }

  /** Part i of c: its field for a struct, its element otherwise. Over
      an array or struct view, part i is the view of the part's type at
      the part's address. */
  function Part(mem: Heap, p: Platform, c: Value, i: int, byField: bool): (r: Result<Value>)
    requires PlatformOk(p)
    ensures i >= 0 && Composite(c, i + 1, byField) ==> r == Ok(View(PartType(c, i, byField), PartAddr(c, i, byField)))
  {
    if byField then Field(c, i) else Index(mem, p, c, i)
  }

  /** c is a view of an array or a struct with at least n parts. */
  predicate Composite(c: Value, n: nat, byField: bool)
  {
    c.View? && (if byField then c.typ.StructType? && n <= |c.typ.fields| else c.typ.ArrayType? && n <= c.typ.len)
  }

  /** Where part i of an array or struct view starts. */
  function PartAddr(c: Value, i: nat, byField: bool): nat
    requires Composite(c, i + 1, byField)
  {
    if byField then c.addr + c.typ.fields[i].offset else c.addr + Scale(i, c.typ.elem.size)
  }

  /** The type of part i. */
  function PartType(c: Value, i: nat, byField: bool): Type
    requires Composite(c, i + 1, byField)
  {
    if byField then c.typ.fields[i].typ else c.typ.elem
  }

  /** Index keeps every element inside the array: the element view ends
      no later than the array's len element sizes. */
  lemma IndexInside(mem: Heap, p: Platform, v: Value, i: int)
    requires PlatformOk(p) && HasType(v) && v.typ.ArrayType? && Index(mem, p, v, i).Ok?
    ensures Index(mem, p, v, i).value.addr + v.typ.elem.size <= Addr(v) + Scale(v.typ.len, v.typ.elem.size)
  {
    ElementInside(i, v.typ.len, v.typ.elem.size);
  }

  /** With the assertion corrected, the bound as written on int32[2] at
      address 16 accepts index 2, which names bytes 24..28, past the
      array's 8 bytes; Index refuses it. */
  lemma IndexPastEndExample(mem: Heap)
    ensures var t := ArrayType("int32[2]", 8, 8, 2, Builtin("int32", Kinds.Int32, 4, 4));
      && IndexPastEnd(mem, Amd64, View(t, 16), 2) == Ok(View(t.elem, 24))
      && Index(mem, Amd64, View(t, 16), 2).Fail?
  {
  }
}
