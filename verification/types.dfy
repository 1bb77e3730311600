/** Type descriptors and the name-keyed type registry (pkg/ffi/type.go).
    A Type is immutable; the registry maps each name to the one
    descriptor registered under it, and every constructor consults it
    before building anything. The registry is threaded through the
    constructors instead of living in a global map. */
module Types {

  import opened Base
  import opened Kinds
  import opened Errors
  import opened Bytes
  import Layout

  /** What the package learns from libffi and the Go toolchain about the
      machine: the word size (pointer, size_t and Go int all have it),
      the word's alignment, and the alignments that differ between ABIs. */
  datatype Platform = Platform(
    word: nat,
    wordAlign: nat,
    align64: nat,
    longDoubleSize: nat,
    longDoubleAlign: nat)

  predicate PlatformOk(p: Platform)
  {
    && (p.word == 4 || p.word == 8) && p.wordAlign > 0 && p.align64 > 0
    && p.longDoubleSize > 0 && p.longDoubleAlign > 0
  }

  /** x86-64 Linux, the platform of the package's tests. */
  const Amd64 := Platform(8, 8, 8, 16, 16)

  /** A type descriptor. Builtin covers the predefined libffi types; the
      composite constructors record what their Go structs hold. */
  datatype Type =
    | Builtin(name: string, kind: Kind, size: nat, align: nat)
    | StructType(name: string, size: nat, align: nat, fields: seq<StructField>)
    | ArrayType(name: string, size: nat, align: nat, len: int, elem: Type)
    | PtrType(name: string, size: nat, align: nat, elem: Type)
    | SliceType(name: string, size: nat, align: nat, elem: Type)

  /** A laid-out struct field (StructField in the source). */
  datatype StructField = StructField(name: string, typ: Type, offset: nat)

  /** A field as NewStructType's caller describes it (Field in the source). */
  datatype Field = Field(name: string, typ: Type)

  /** A constructed type together with the registry after construction. */
  datatype Built = Built(t: Type, reg: Registry)

  type Registry = map<string, Type>

  /** Type.Kind. An array reports Array although its libffi type is
      libffi's pointer type (pkg/ffi/type.go:317-321). */
  function KindOf(t: Type): Kind
  {
    match t
    case Builtin(_, k, _, _) => k
    case StructType(_, _, _, _) => Struct
    case ArrayType(_, _, _, _, _) => Array
    case PtrType(_, _, _, _) => Ptr
    case SliceType(_, _, _, _) => Slice
  }

  /** Type.Len: only arrays have a length (pkg/ffi/type.go:180-186, 323-325). */
  function LenOf(t: Type): (r: Result<int>)
    ensures r.Ok? <==> t.ArrayType?
    ensures r.Ok? ==> r.value == t.len
  {
    if t.ArrayType? then Ok(t.len) else Fail(Panic("ffi: Len of non-array type"))
  }

  /** Type.Elem: arrays, pointers and slices have an element type
      (pkg/ffi/type.go:188-198, 327-329, 364-366). The builtin "*" has
      kind Ptr but no element: the source then reinterprets the
      descriptor as a cffi_ptr and reads past it, which is BadAddress here. */
  function ElemOf(t: Type): (r: Result<Type>)
    ensures r.Ok? <==> t.ArrayType? || t.PtrType? || t.SliceType?
    ensures r.Ok? ==> r.value == t.elem
    ensures r.Fail? && KindOf(t) != Ptr ==> r.fault == Panic("ffi: Elem of invalid type")
  {
    match t
    case ArrayType(_, _, _, _, e) => Ok(e)
    case PtrType(_, _, _, e) => Ok(e)
    case SliceType(_, _, _, e) => Ok(e)
    case _ => if KindOf(t) == Ptr then Fail(BadAddress) else Fail(Panic("ffi: Elem of invalid type"))
  }

  /** Type.NumField (pkg/ffi/type.go:200-206, 251-253). */
  function NumFields(t: Type): (r: Result<nat>)
    ensures r.Ok? <==> t.StructType?
    ensures r.Ok? ==> r.value == |t.fields|
  {
    if t.StructType? then Ok(|t.fields|) else Fail(Panic("ffi: NumField of non-struct type"))
  }

  /** Type.Field: panics on a non-struct and outside [0, NumField())
      (pkg/ffi/type.go:208-214, 255-260). */
  function FieldOf(t: Type, i: int): (r: Result<StructField>)
    ensures r.Ok? <==> t.StructType? && 0 <= i < |t.fields|
    ensures r.Ok? ==> r.value == t.fields[i]
  {
    if !t.StructType? then Fail(Panic("ffi: Field of non-struct type"))
    else if i < 0 || i >= |t.fields| then Fail(Panic("ffi: field index out of range"))
    else Ok(t.fields[i])
  }

  /** The predefined types in the order init registers them
      (pkg/ffi/type.go:216-238, 484-504). Sizes and alignments are the
      platform's; `int`, `long` and the char types are libffi aliases of
      the fixed-width types, so they carry those kinds. */
  function Builtins(p: Platform): seq<Type>
  {
    var longKind := if p.word == 8 then Int64 else Int32;
    var ulongKind := if p.word == 8 then Uint64 else Uint32;
    [ Builtin("void", Void, 1, 1),
      Builtin("unsigned char", Uint8, 1, 1),
      Builtin("char", Int8, 1, 1),
      Builtin("unsigned short", Uint16, 2, 2),
      Builtin("short", Int16, 2, 2),
      Builtin("unsigned int", Uint32, 4, 4),
      Builtin("int", Int32, 4, 4),
      Builtin("unsigned long", ulongKind, p.word, p.wordAlign),
      Builtin("long", longKind, p.word, p.wordAlign),
      Builtin("uint8", Uint8, 1, 1),
      Builtin("int8", Int8, 1, 1),
      Builtin("uint16", Uint16, 2, 2),
      Builtin("int16", Int16, 2, 2),
      Builtin("uint32", Uint32, 4, 4),
      Builtin("int32", Int32, 4, 4),
      Builtin("uint64", Uint64, 8, p.align64),
      Builtin("int64", Int64, 8, p.align64),
      Builtin("float", Float, 4, 4),
      Builtin("double", Double, 8, p.align64),
      Builtin("long double", LongDouble, p.longDoubleSize, p.longDoubleAlign),
      Builtin("*", Ptr, p.word, p.wordAlign) ]
  }

  /** init's loop: register each type unless its name is already taken. */
  function InitTypes(reg: Registry, ts: seq<Type>): (r: Registry)
    ensures r.Keys == reg.Keys + set i | 0 <= i < |ts| :: ts[i].name
    ensures forall n :: n in reg ==> n in r && r[n] == reg[n]
    decreases |ts|
  {
    if |ts| == 0 then reg
    else
      var reg' := if ts[0].name in reg then reg else reg[ts[0].name := ts[0]];
      var r := InitTypes(reg', ts[1..]);
      assert r.Keys == reg.Keys + set i | 0 <= i < |ts| :: ts[i].name by {
        forall n | n in set i | 0 <= i < |ts| :: ts[i].name
          ensures n in r.Keys
        {
          var i :| 0 <= i < |ts| && ts[i].name == n;
          if i > 0 { assert ts[1..][i - 1].name == n; }
        }
        forall n | n in r.Keys
          ensures n in reg.Keys + set i | 0 <= i < |ts| :: ts[i].name
        {
          if n !in reg' {
            var i :| 0 <= i < |ts[1..]| && ts[1..][i].name == n;
            assert ts[i + 1].name == n;
          }
        }
      }
      r
  }

  /** The registry after package initialization. */
  function InitialRegistry(p: Platform): Registry
  {
    InitTypes(map[], Builtins(p))
  }

  /** The registry's invariant: each entry is filed under its own name
      (register_type and init both key by t.Name()) and has a positive
      size and alignment (libffi's predefined types have both, and
      ffi_prep_cif rejects a composite whose size comes out 0). */
  predicate RegistryOk(reg: Registry)
  {
    forall n :: n in reg ==> reg[n].name == n && reg[n].size > 0 && reg[n].align > 0
  }

  /** A type is canonical when it is the descriptor registered under its name. */
  predicate Canonical(reg: Registry, t: Type)
  {
    t.name in reg && reg[t.name] == t
  }

  /** reg' keeps every entry of reg. */
  predicate Extends(reg: Registry, reg': Registry)
  {
    forall n :: n in reg ==> n in reg' && reg'[n] == reg[n]
  }

  /** TypeByName: the registered type, or nil (None) when the name is not
      a key (pkg/ffi/type.go:398-406). */
  function TypeByName(reg: Registry, n: string): (r: Option<Type>)
    ensures r.None? <==> n !in reg
    ensures r.Some? ==> r.value == reg[n]
    ensures RegistryOk(reg) && r.Some? ==> r.value.name == n && Canonical(reg, r.value)
  {
    if n in reg then Some(reg[n]) else None
  }

  /** register_type: file t under its own name (pkg/ffi/type.go:408-410). */
  function Register(reg: Registry, t: Type): (r: Registry)
    requires t.name !in reg
    ensures Extends(reg, r) && Canonical(r, t)
  {
    reg[t.name := t]
  }

  /** Registering adds exactly the new name. */
  lemma RegisterKeys(reg: Registry, t: Type)
    requires t.name !in reg
    ensures Register(reg, t).Keys == reg.Keys + {t.name}
    ensures |Register(reg, t)| == |reg| + 1
  {
  }

  /** Size and alignment of each field's type, the layout's input. */
  function Slots(fields: seq<Field>): (s: seq<Layout.Slot>)
    ensures |s| == |fields|
    ensures forall i :: 0 <= i < |fields| ==> s[i] == Layout.Slot(fields[i].typ.size, fields[i].typ.align)
  {
    seq(|fields|, i requires 0 <= i < |fields| => Layout.Slot(fields[i].typ.size, fields[i].typ.align))
  }

  /** Every field type is registered under its own name, as every type
      the package hands out is. */
  predicate FieldsCanonical(reg: Registry, fields: seq<Field>)
  {
    forall i :: 0 <= i < |fields| ==> Canonical(reg, fields[i].typ)
  }

  /** The message NewCif returns when libffi rejects a type. */
  const BadTypedef := "error while preparing cif (FFI_BAD_TYPEDEF)"

  /** NewStructType (pkg/ffi/type.go:267-309). A registered name returns
      the registered type unchanged, whatever the fields. Otherwise libffi
      lays the struct out; it rejects an empty field list and a struct of
      size 0. Field i records the type registered under its type's name,
      and the offset the C helper computes. */
  function NewStructType(reg: Registry, name: string, fields: seq<Field>): (r: Result<Built>)
    requires RegistryOk(reg) && FieldsCanonical(reg, fields)
    ensures name in reg ==> r == Ok(Built(reg[name], reg))
    ensures name !in reg ==>
      (r.Err? <==> |fields| == 0 || Layout.Size(Slots(fields)) == 0)
    ensures r.Err? ==> r.msg == BadTypedef
    ensures !r.Fail?
    ensures r.Ok? ==> RegistryOk(r.value.reg) && Extends(reg, r.value.reg) && Canonical(r.value.reg, r.value.t)
    ensures name !in reg && r.Ok? ==>
      var t := r.value.t;
      && t.name == name
      && r.value.reg == Register(reg, t)
      && KindOf(t) == Struct
      && NumFields(t) == Ok(|fields|)
      && t.size == Layout.Size(Slots(fields)) && t.align == Layout.MaxAlign(Slots(fields))
      && forall i :: 0 <= i < |fields| ==>
           FieldOf(t, i) == Ok(StructField(fields[i].name, fields[i].typ, Layout.Offset(Slots(fields), i)))
  {
    if name in reg then Ok(Built(reg[name], reg))
    else
      var s := Slots(fields);
      assert Layout.Aligned(s) by {
        forall i | 0 <= i < |s| ensures s[i].align > 0 {
          assert Canonical(reg, fields[i].typ);
        }
      }
      if |fields| == 0 || Layout.Size(s) == 0 then Err(BadTypedef)
      else
        var laid := seq(|fields|, i requires 0 <= i < |fields| =>
          StructField(fields[i].name, reg[fields[i].typ.name], Layout.Offset(s, i)));
        var t := StructType(name, Layout.Size(s), Layout.MaxAlign(s), laid);
        Ok(Built(t, Register(reg, t)))
  }

  /** A struct type whose fields lie inside it and never overlap. */
  predicate LaidOut(t: Type)
    requires t.StructType?
  {
    && (forall i, j :: 0 <= i < j < |t.fields| ==>
          t.fields[i].offset + t.fields[i].typ.size <= t.fields[j].offset)
    && (forall i :: 0 <= i < |t.fields| ==> t.fields[i].offset + t.fields[i].typ.size <= t.size)
  }

  /** Every struct NewStructType builds is laid out: each field ends
      before the next begins and inside the struct's size. */
  lemma NewStructLaidOut(reg: Registry, name: string, fields: seq<Field>)
    requires RegistryOk(reg) && FieldsCanonical(reg, fields) && name !in reg
    requires |fields| > 0 && Layout.Size(Slots(fields)) > 0
    ensures NewStructType(reg, name, fields).Ok?
    ensures NewStructType(reg, name, fields).value.t.StructType?
    ensures LaidOut(NewStructType(reg, name, fields).value.t)
  {
    var t := NewStructType(reg, name, fields).value.t;
    var s := Slots(fields);
    assert Layout.Aligned(s) by {
      forall i | 0 <= i < |s| ensures s[i].align > 0 {
        assert Canonical(reg, fields[i].typ);
      }
    }
    assert forall i :: 0 <= i < |fields| ==> t.fields[i] == StructField(fields[i].name, fields[i].typ, Layout.Offset(s, i)) by {
      forall i | 0 <= i < |fields| ensures t.fields[i] == StructField(fields[i].name, fields[i].typ, Layout.Offset(s, i)) {
        assert FieldOf(t, i).Ok?;
      }
    }
    forall i, j | 0 <= i < j < |t.fields| ensures t.fields[i].offset + t.fields[i].typ.size <= t.fields[j].offset {
      Layout.NoOverlap(s, i, j);
    }
    forall i | 0 <= i < |t.fields| ensures t.fields[i].offset + t.fields[i].typ.size <= t.size {
      Layout.FieldInside(s, i);
    }
  }

  /** Go's %d. */
  function Decimal(n: int): string
  {
    if n < 0 then "-" + NatDecimal(-n) else NatDecimal(n)
  }

  function NatDecimal(n: nat): (r: string)
    ensures |r| > 0
  {
    if n < 10 then [Digit(n)] else NatDecimal(n / 10) + [Digit(n % 10)]
  }

  function Digit(d: nat): char
    requires d < 10
  {
    "0123456789"[d]
  }

  /** A Go int product converted to C.size_t: both are one word wide, so
      the value wraps modulo 2^(8*word). */
  function SizeT(p: Platform, x: int): (r: nat)
    ensures 0 <= x < Pow256(p.word) ==> r == x
  {
    TruncateInverse(x, 1);
    if 0 <= x < Pow256(p.word) then x else Truncate(x, p.word)
  }

  /** The name NewArrayType synthesizes: "<elem>[<n>]". */
  function ArrayName(n: int, e: Type): string
  {
    e.name + "[" + Decimal(n) + "]"
  }

  /** NewArrayType (pkg/ffi/type.go:331-357). A registered name returns
      the registered type. Otherwise the descriptor gets libffi's pointer
      type with the size n * e.size (as a size_t) and no elements, and
      NewCif prepares a call returning it (pkg/ffi/ffi.go:103-120).
      ffi_prep_cif accepts a nonzero size as it stands, but a size of 0
      sends it to lay the type out from its elements, and with none it
      answers FFI_BAD_TYPEDEF: that is the one error. */
  function NewArrayType(reg: Registry, p: Platform, n: int, e: Type): (r: Result<Built>)
    requires RegistryOk(reg) && PlatformOk(p)
    ensures !r.Fail?
    ensures ArrayName(n, e) in reg ==> r == Ok(Built(reg[ArrayName(n, e)], reg))
    ensures r.Err? <==> ArrayName(n, e) !in reg && SizeT(p, n * e.size) == 0
    ensures r.Err? ==> r.msg == BadTypedef
    ensures r.Ok? ==>
      && RegistryOk(r.value.reg) && Extends(reg, r.value.reg) && Canonical(r.value.reg, r.value.t)
      && r.value.t.size > 0
    ensures r.Ok? && ArrayName(n, e) !in reg ==>
      var t := r.value.t;
      && t.name == ArrayName(n, e)
      && r.value.reg == Register(reg, t)
      && KindOf(t) == Array && LenOf(t) == Ok(n) && ElemOf(t) == Ok(e)
      && t.size == SizeT(p, n * e.size) && t.align == p.wordAlign
  {
    var name := ArrayName(n, e);
    if name in reg then Ok(Built(reg[name], reg))
    else if SizeT(p, n * e.size) == 0 then Err(BadTypedef)
    else
      var t := ArrayType(name, SizeT(p, n * e.size), p.wordAlign, n, e);
      Ok(Built(t, Register(reg, t)))
  }

  /** The name NewPointerType synthesizes: "<elem>*". */
  function PointerName(e: Type): string
  {
    e.name + "*"
  }

  /** NewPointerType (pkg/ffi/type.go:368-393): word-sized, cannot fail. */
  function NewPointerType(reg: Registry, p: Platform, e: Type): (r: Built)
    requires RegistryOk(reg) && PlatformOk(p)
    ensures PointerName(e) in reg ==> r == Built(reg[PointerName(e)], reg)
    ensures RegistryOk(r.reg) && Extends(reg, r.reg) && Canonical(r.reg, r.t)
    ensures PointerName(e) !in reg ==>
      && r.t.name == PointerName(e)
      && r.reg == Register(reg, r.t)
      && KindOf(r.t) == Ptr && ElemOf(r.t) == Ok(e)
      && r.t.size == p.word && r.t.align == p.wordAlign
  {
    var name := PointerName(e);
    if name in reg then Built(reg[name], reg)
    else
      var t := PtrType(name, p.word, p.wordAlign, e);
      Built(t, Register(reg, t))
  }

  /** The slice type of an element type. NewSliceType is not part of this
      model: this stand-in gives the Slice kind, the element, and a
      three-word size (data, len, cap), and does not touch the registry. */
  function SliceTypeOf(p: Platform, e: Type): (r: Type)
    ensures KindOf(r) == Slice && ElemOf(r) == Ok(e)
  {
    SliceType(e.name + "[]", 3 * p.word, p.wordAlign, e)
  }

  /** A type canonical in a registry stays canonical in every extension of it. */
  lemma CanonicalExtends(reg: Registry, reg': Registry, t: Type)
    requires Canonical(reg, t) && Extends(reg, reg')
    ensures Canonical(reg', t)
  {
  }

  /** Asking twice is answered from the registry: the second request
      returns the first result and leaves the registry unchanged. */
  lemma ConstructorsIdempotent(reg: Registry, p: Platform, n: int, e: Type, name: string, fields: seq<Field>)
    requires RegistryOk(reg) && PlatformOk(p) && FieldsCanonical(reg, fields)
    ensures var a := NewArrayType(reg, p, n, e);
      a.Ok? ==> NewArrayType(a.value.reg, p, n, e) == a
    ensures var a := NewPointerType(reg, p, e);
      NewPointerType(a.reg, p, e) == a
    ensures var s := NewStructType(reg, name, fields);
      s.Ok? ==> FieldsCanonical(s.value.reg, fields) && NewStructType(s.value.reg, name, fields) == s
  {
    var a := NewArrayType(reg, p, n, e);
    if a.Ok? {
      assert a.value.t.name == ArrayName(n, e);
    }
    var b := NewPointerType(reg, p, e);
    assert b.t.name == PointerName(e);
    var s := NewStructType(reg, name, fields);
    if s.Ok? {
      assert s.value.t.name == name;
      forall i | 0 <= i < |fields| ensures Canonical(s.value.reg, fields[i].typ) {
        CanonicalExtends(reg, s.value.reg, fields[i].typ);
      }
    }
  }

  /** Initialization leaves a well-formed registry in which every
      predefined type is canonical. */
  lemma InitialRegistryOk(p: Platform)
    requires PlatformOk(p)
    ensures RegistryOk(InitialRegistry(p))
    ensures forall i :: 0 <= i < |Builtins(p)| ==> Canonical(InitialRegistry(p), Builtins(p)[i])
  {
    var b := Builtins(p);
    InitTypesFresh(map[], b);
  }

  /** init over distinct names files each type under its own name. */
  lemma {:induction false} InitTypesFresh(reg: Registry, ts: seq<Type>)
    requires RegistryOk(reg)
    requires forall i :: 0 <= i < |ts| ==> ts[i].name !in reg && ts[i].size > 0 && ts[i].align > 0
    requires forall i, j :: 0 <= i < j < |ts| ==> ts[i].name != ts[j].name
    ensures RegistryOk(InitTypes(reg, ts))
    ensures forall i :: 0 <= i < |ts| ==> Canonical(InitTypes(reg, ts), ts[i])
    decreases |ts|
  {
    if |ts| > 0 {
      var reg' := reg[ts[0].name := ts[0]];
      InitTypesFresh(reg', ts[1..]);
      forall i | 0 <= i < |ts| ensures Canonical(InitTypes(reg, ts), ts[i]) {
        if i > 0 { assert ts[i] == ts[1..][i - 1]; }
      }
    }
  }
}
