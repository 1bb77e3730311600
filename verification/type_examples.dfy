/** The concrete answers the package's tests pin down
    (pkg/ffi/type_test.go), proved of the model on x86-64 for any
    registry in which the builtins used are registered. */
module TypeExamples {

  import opened Errors
  import opened Types
  import Layout

  const U8 := Builtin("uint8", Kinds.Uint8, 1, 1)
  const I16 := Builtin("int16", Kinds.Int16, 2, 2)
  const I32 := Builtin("int32", Kinds.Int32, 4, 4)

  /** On x86-64 these are the registered uint8, int16 and int32. */
  lemma BuiltinsOfAmd64()
    ensures Builtins(Amd64)[9] == U8 && Builtins(Amd64)[12] == I16 && Builtins(Amd64)[14] == I32
  {
  }

  predicate HasBuiltins(reg: Registry)
  {
    RegistryOk(reg) && Canonical(reg, U8) && Canonical(reg, I16) && Canonical(reg, I32)
  }

  /** struct_2: {uint8, int16, int32, uint8} has offsets 0, 2, 4, 8 and
      size 12 (pkg/ffi/type_test.go:70-79). */
  lemma Struct2Layout(reg: Registry)
    requires HasBuiltins(reg) && "struct_2" !in reg
    ensures
      var fs := [Field("F1", U8), Field("F2", I16), Field("F3", I32), Field("F4", U8)];
      var r := NewStructType(reg, "struct_2", fs);
      && r.Ok? && r.value.t.size == 12
      && NumFields(r.value.t) == Ok(4)
      && r.value.t.fields[0].offset == 0 && r.value.t.fields[1].offset == 2
      && r.value.t.fields[2].offset == 4 && r.value.t.fields[3].offset == 8
  {
    var fs := [Field("F1", U8), Field("F2", I16), Field("F3", I32), Field("F4", U8)];
    var s := Slots(fs);
    assert s == [Layout.Slot(1, 1), Layout.Slot(2, 2), Layout.Slot(4, 4), Layout.Slot(1, 1)];
    assert Layout.End(s, 1) == 1;
    assert Layout.End(s, 2) == 4;
    assert Layout.End(s, 3) == 8;
    assert Layout.End(s, 4) == 9;
    assert s[..3] == [Layout.Slot(1, 1), Layout.Slot(2, 2), Layout.Slot(4, 4)];
    assert s[..3][..2] == [Layout.Slot(1, 1), Layout.Slot(2, 2)];
    assert s[..3][..2][..1] == [Layout.Slot(1, 1)];
    assert Layout.MaxAlign(s[..3][..2][..1]) == 1;
    assert Layout.MaxAlign(s[..3][..2]) == 2;
    assert Layout.MaxAlign(s[..3]) == 4;
    assert Layout.MaxAlign(s) == 4;
    var r := NewStructType(reg, "struct_2", fs);
    assert r.Ok?;
    assert FieldOf(r.value.t, 3) == Ok(r.value.t.fields[3]);
  }

  /** int32[10]: name, length, element, size 40 and kind Array
      (pkg/ffi/type_test.go:128, 137-145). */
  lemma Int32ArrayType(reg: Registry)
    requires HasBuiltins(reg) && "int32[10]" !in reg
    ensures
      var a := NewArrayType(reg, Amd64, 10, I32);
      && a.Ok? && a.value.t.name == "int32[10]" && a.value.t.size == 40 && a.value.t.align == 8
      && KindOf(a.value.t) == Kinds.Array && LenOf(a.value.t) == Ok(10) && ElemOf(a.value.t) == Ok(I32)
  {
    assert Decimal(10) == "10" by {
      assert NatDecimal(1) == "1";
    }
    assert ArrayName(10, I32) == "int32[10]";
  }

  /** int32[0]: a zero-size array is the one NewArrayType refuses, with
      libffi's FFI_BAD_TYPEDEF, and the registry does not change. */
  lemma EmptyArrayType(reg: Registry)
    requires HasBuiltins(reg) && "int32[0]" !in reg
    ensures NewArrayType(reg, Amd64, 0, I32) == Err(BadTypedef)
  {
    assert Decimal(0) == "0";
    assert ArrayName(0, I32) == "int32[0]";
  }

  /** int32* and s_0**: pointer names append "*", sizes are the word
      (pkg/ffi/type_test.go:155-187). */
  lemma PointerTypes(reg: Registry, s0: Type)
    requires HasBuiltins(reg) && "int32*" !in reg
    requires Canonical(reg, s0) && s0.name == "s_0" && "s_0*" !in reg && "s_0**" !in reg
    ensures
      var p := NewPointerType(reg, Amd64, I32);
      && p.t.name == "int32*" && p.t.size == 8 && KindOf(p.t) == Kinds.Ptr && ElemOf(p.t) == Ok(I32)
    ensures
      var p1 := NewPointerType(reg, Amd64, s0);
      var p2 := NewPointerType(p1.reg, Amd64, p1.t);
      && p2.t.name == "s_0**" && ElemOf(p2.t) == Ok(p1.t) && ElemOf(p1.t) == Ok(s0)
  {
    var p1 := NewPointerType(reg, Amd64, s0);
    assert p1.t.name == "s_0*";
    assert "s_0**" !in p1.reg;
  }

  /** struct_3: {uint8, int32[10], int32, uint8} has offsets 0, 8, 48, 52
      and size 56, the end (53) rounded up to the largest alignment, the
      array's pointer alignment 8 (pkg/ffi/type_test.go:80-89). */
  lemma Struct3Layout(reg: Registry)
    requires HasBuiltins(reg) && "int32[10]" !in reg && "struct_3" !in reg
    ensures
      var a := NewArrayType(reg, Amd64, 10, I32);
      && a.Ok?
      && var fs := [Field("F1", U8), Field("F2", a.value.t), Field("F3", I32), Field("F4", U8)];
      && FieldsCanonical(a.value.reg, fs)
      && var r := NewStructType(a.value.reg, "struct_3", fs);
      && r.Ok? && r.value.t.size == 56
      && NumFields(r.value.t) == Ok(4)
      && r.value.t.fields[0].offset == 0 && r.value.t.fields[1].offset == 8
      && r.value.t.fields[2].offset == 48 && r.value.t.fields[3].offset == 52
  {
    Int32ArrayType(reg);
    var a := NewArrayType(reg, Amd64, 10, I32);
    var fs := [Field("F1", U8), Field("F2", a.value.t), Field("F3", I32), Field("F4", U8)];
    CanonicalExtends(reg, a.value.reg, U8);
    CanonicalExtends(reg, a.value.reg, I32);
    assert FieldsCanonical(a.value.reg, fs);
    assert "struct_3" !in a.value.reg;
    var s := Slots(fs);
    assert s == [Layout.Slot(1, 1), Layout.Slot(40, 8), Layout.Slot(4, 4), Layout.Slot(1, 1)];
    assert Layout.End(s, 1) == 1;
    assert Layout.End(s, 2) == 48;
    assert Layout.End(s, 3) == 52;
    assert Layout.End(s, 4) == 53;
    assert s[..3] == [Layout.Slot(1, 1), Layout.Slot(40, 8), Layout.Slot(4, 4)];
    assert s[..3][..2] == [Layout.Slot(1, 1), Layout.Slot(40, 8)];
    assert s[..3][..2][..1] == [Layout.Slot(1, 1)];
    assert Layout.MaxAlign(s[..3][..2][..1]) == 1;
    assert Layout.MaxAlign(s[..3][..2]) == 8;
    assert Layout.MaxAlign(s[..3]) == 8;
    assert Layout.MaxAlign(s) == 8;
    var r := NewStructType(a.value.reg, "struct_3", fs);
    assert r.Ok?;
    assert FieldOf(r.value.t, 3) == Ok(r.value.t.fields[3]);
  }
}
