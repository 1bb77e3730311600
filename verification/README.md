# go-ffi `pkg/ffi` in Dafny

A model of the layout and navigation core of the Go FFI bridge `pkg/ffi`, with proofs:

- the C type descriptors and their name-keyed registry;
- the struct offset algorithm;
- `Value`s as typed views over native storage;
- slices and their growth;
- the integer getters and setters;
- the `Encoder` and `Decoder` that copy Go integers, arrays and structs into and out of a `Value`'s bytes in native (little-endian) order.

Native memory is one flat byte sequence (`Memory.Heap`):

- An address is an index into it.
- Allocation appends zero bytes at the end.
- `unsafe.Pointer` arithmetic becomes arithmetic on these indices.
- Address 0 is nil. Byte 0 is a reserved page that is never allocated, and a load or store there is a nil-dereference panic.
- `Value.IsValid` holds when the storage pointer is not nil. A typed view at address 0 is what `Elem` returns for a nil pointer. The zero `Value{}` has no type, and every method that reaches its type panics.

A Go `panic` becomes `Fail(fault)`. A returned Go `error` becomes `Err(msg)`, or, where the operation also hands back a state, an `Outcome` whose `err` is `Some(msg)`.

Modules:

| module | contents |
|---|---|
| `Kinds` | the kind enumeration, libffi codes and names |
| `Layout` | the C offset helper: align-up, offsets, struct size |
| `Types` | `Type`, the registry, `NewStructType`/`NewArrayType`/`NewPointerType`, `TypeByName` |
| `TypeExamples` | the concrete layouts the package's tests check on x86-64 |
| `Memory` | loads and stores on the heap |
| `Values` | `Value`, `New`, `Field`, `FieldByName`, `Index`, `Len`, `Cap`, `Slice`, `Int`/`SetInt`, `Uint`/`SetUint`, `Elem`/`Indirect`, the writer `NewWriter`/`wbuffer.Write` |
| `Slices` | `MakeSlice` and `grow_slice` as methods, specified by predicates |
| `GoValues` | the Go side: integer kinds, arrays, structs, pointers, strings, slices |
| `Binary` | the part of `encoding/binary` that the encoder and decoder call |
| `Encoder` | `Encoder.Encode` and `encode_value` |
| `Decoder` | `Decoder.Decode` and `decode_value` |

Several values come from outside the package:

- The platform is a parameter (`Types.Platform`): word size and alignment, and the sizes and alignments of the builtin libffi types. Go's `int` and `uint` are taken to be one word wide.
- `ctype_from_gotype` and `is_compatible` are not part of this model. `Encode` and `Decode` receive the compatibility verdict as a boolean.
- `NewSliceType` is not part of this model. `Types.SliceTypeOf` stands in for it: kind Slice, the given element, three words wide.

## Model

| member | source | states |
|---|---|---|
| Kinds.CodeRoundTrip | pkg/ffi/type.go:52-72 | every kind except Slice has a libffi type code, and decoding that code gives the kind back |
| Kinds.CodeInjective | pkg/ffi/type.go:54-72 | two kinds with the same code are the same kind |
| Kinds.NameInjective | pkg/ffi/type.go:74-110 | Kind.String names exactly the kinds that have a code, and no two of them get the same name |
| Kinds.ValueErrorText | pkg/ffi/value.go:30-35 | a ValueError's text: "zero Value" for kind 0; otherwise the method and the kind's name; no text where Kind.String panics |
| Layout.AlignUp | pkg/ffi/type.go:27-28 | rounding up gives a multiple of the alignment, at least x and below x plus the alignment |
| Layout.AlignUpLeast | pkg/ffi/type.go:27-28 | the rounded value is the least multiple of the alignment not below x |
| Layout.FirstOffset | pkg/ffi/type.go:21-36 | the first field sits at offset 0 |
| Layout.OffsetIsLeastAligned | pkg/ffi/type.go:26-34 | field i is aligned to its own alignment, starts at or after the end of field i-1, and is the least such position |
| Layout.EndMonotone | pkg/ffi/type.go:26-30 | the running offset of the C loop never decreases |
| Layout.NoOverlap | pkg/ffi/type.go:26-34 | a field ends at or before the start of every later field |
| Layout.FieldInside | pkg/ffi/type.go:21-36 | every field ends within the struct; the size is a multiple of the largest alignment, at least the end of the last field and below that end plus the largest alignment |
| Types.LenOf | pkg/ffi/type.go:180-186 | only array types have a length, and it is the declared one |
| Types.ElemOf | pkg/ffi/type.go:188-198 | arrays, pointers and slices have an element type; other types panic with "ffi: Elem of invalid type" |
| Types.NumFields | pkg/ffi/type.go:251-253 | NumField is defined exactly for structs and counts their fields |
| Types.FieldOf | pkg/ffi/type.go:255-260 | Field(i) succeeds exactly for a struct and 0 <= i < NumField, returning the i-th laid-out field |
| Types.TypeByName | pkg/ffi/type.go:400-406 | the result is nil exactly when the name is not registered; otherwise it is the registered type, filed under its own name |
| Types.Register | pkg/ffi/type.go:408-410 | registering keeps every existing entry and files the type under its own name |
| Types.RegisterKeys | pkg/ffi/type.go:408-410 | registering adds exactly one key, the type's name |
| Types.NewStructType | pkg/ffi/type.go:268-309 | a registered name returns the registered type, leaving the registry unchanged and ignoring the fields. Otherwise libffi rejects an empty or zero-size struct (FFI_BAD_TYPEDEF). Otherwise the fields get the C helper's offsets and the struct gets the helper's size and largest alignment, and it is registered |
| Types.NewStructLaidOut | pkg/ffi/type.go:298-306 | every struct NewStructType builds from a nonempty field list of nonzero size is accepted, with its fields inside it and pairwise apart |
| Types.NewArrayType | pkg/ffi/type.go:332-357 | a registered name returns the registered type. Otherwise the type is "elem[n]", of kind Array, Len n, Elem e, word alignment and size n*elem.size as a size_t, and it is registered. When that size is 0, NewCif's ffi_prep_cif refuses it with FFI_BAD_TYPEDEF and nothing is registered. It never panics, and every type it returns has a nonzero size |
| Types.NewPointerType | pkg/ffi/type.go:369-393 | a registered name returns the registered type. Otherwise the type is "elem*", of kind Ptr, Elem e, word size and alignment; it is registered |
| Types.ConstructorsIdempotent | pkg/ffi/type.go:269-271 | asking for the same array, pointer or struct type again returns the first result and leaves the registry unchanged |
| Types.InitTypesFresh | pkg/ffi/type.go:468-506 | init files each predefined type under its own name |
| Types.InitialRegistryOk | pkg/ffi/type.go:468-506 | after init the registry is well formed and every builtin is the type registered under its name |
| TypeExamples.Struct2Layout | pkg/ffi/type_test.go:70-79 | {uint8, int16, int32, uint8} has offsets 0, 2, 4, 8 and size 12 |
| TypeExamples.Struct3Layout | pkg/ffi/type_test.go:80-89 | {uint8, int32[10], int32, uint8} has offsets 0, 8, 48, 52 and size 56 |
| TypeExamples.Int32ArrayType | pkg/ffi/type_test.go:141-145 | int32[10] is named "int32[10]", has size 40, kind Array, Len 10 and Elem int32 |
| TypeExamples.EmptyArrayType | pkg/ffi/type.go:343-353 | int32[0] is refused with FFI_BAD_TYPEDEF |
| TypeExamples.PointerTypes | pkg/ffi/type_test.go:155-187 | "int32*" is word-sized with Elem int32; "s_0**" points to "s_0*", which points to s_0 |
| Values.TypeOf | pkg/ffi/value.go:423-425 | Type never panics: it is nil exactly for the zero Value, and otherwise the value's type |
| Values.KindOfValue | pkg/ffi/value.go:291-293 | Kind succeeds exactly when the Value has a type (a nil type panics) and returns its type's kind |
| Values.New | pkg/ffi/value.go:80-89 | New(nil) panics. A size that is negative as a Go int (2^(8*word-1) or more) panics in `make` with "makeslice: len out of range", and a type of size 0 panics where `&buf[0]` indexes an empty buffer. Otherwise the result is a valid view of the type at a fresh address past the old heap. The heap grows by exactly the type's size, the old heap is its prefix, and the new bytes read as zeros |
| Values.MakeBytesFault | pkg/ffi/value.go:84 | `make([]byte, n, c)` with uintptr sizes converted to int succeeds exactly when n <= c < 2^(8*word-1); otherwise the panic is "len out of range" exactly when n is negative as an int, else "cap out of range" |
| Values.NewReadsZero | pkg/ffi/value.go:78-89 | a new value of an integer type reads 0 through Int and Uint, and every range of the old heap reads as before |
| Values.Len | pkg/ffi/value.go:297-311 | with the assertion at line 300 corrected (see Findings): an array's declared length; a slice's header length; a ValueError naming ffi.Value.Len on any other kind |
| Values.LenAsWritten | pkg/ffi/value.go:298-301 | as written, every array descriptor panics in the `*cffi_array` assertion; every other value gets Len's answer |
| Values.Cap | pkg/ffi/value.go:137-146 | an array's capacity is its Len; a slice's capacity is its header's cap; a ValueError naming ffi.Value.Cap on any other kind |
| Values.Field | pkg/ffi/value.go:160-174 | with the assertion at line 162 corrected (see Findings). A non-struct panics through mustBe. Field i succeeds exactly for 0 <= i < NumField, as a view of field i's type at base plus field i's offset. An index out of range panics with "ffi: Field index out of range" |
| Values.FieldAsWritten | pkg/ffi/value.go:160-163 | as written, every struct descriptor panics in the `*cffi_struct` assertion; every other value gets Field's answer |
| Values.NumField | pkg/ffi/value.go:315-318 | defined exactly on struct views; the number of fields |
| Values.FirstNamed | pkg/ffi/value.go:196-200 | the index found is the first field with that name; None means no field has it |
| Values.FieldByName | pkg/ffi/value.go:194-208 | the zero Value exactly when no field has the name. Otherwise it is Field(i), with the corrected assertion, for the first field i with that name. A non-struct panics |
| Values.Index | pkg/ffi/value.go:225-250 | with the assertion at line 229 and the bound at line 230 corrected. On an array it succeeds exactly for 0 <= i < Len, as a view of the element type at base plus i element sizes. On a slice it succeeds exactly for 0 <= i < len, at data plus i element sizes. Any other kind is a ValueError |
| Values.IndexAsWritten | pkg/ffi/value.go:228-230 | as written, every array descriptor panics in the `*cffi_array` assertion; slices and other kinds get Index's answer |
| Values.IndexPastEnd | pkg/ffi/value.go:229-237 | with the assertion corrected but the bound as written, the array branch accepts 0 <= i <= Len; everywhere else it agrees with Index |
| Values.IndexInside | pkg/ffi/value.go:228-237 | every element view Index returns for an array lies within the array's len element sizes |
| Values.IndexPastEndExample | pkg/ffi/value.go:230 | on int32[2] at address 16, the bound as written accepts index 2 and returns the bytes 24..28, past the array; the corrected Index rejects it |
| Values.Slice | pkg/ffi/value.go:381-420 | with the assertion at line 391 corrected. On an array, it is a slice of the element type over the same storage, bounded by Len. On a slice, it is bounded by the header's cap, and its data moves beg elements up. Out-of-bounds indices panic. Every result satisfies 0 <= len <= cap. Any other kind is a ValueError |
| Values.SliceAsWritten | pkg/ffi/value.go:389-392 | as written, every array descriptor panics in the `*cffi_array` assertion; every other value gets Slice's answer |
| Values.AssertionsPanic | pkg/ffi/value.go:162 | every struct and array view panics in the as-written Field, Len, Index and Slice, where the corrected members answer |
| Values.SliceIndex | pkg/ffi/value.go:406-419 | a reslice [beg:end] has Len end-beg and Cap cap-beg, and its element i is the original's element beg+i: the same type at the same address |
| Values.Int | pkg/ffi/value.go:254-270 | a ValueError naming ffi.Value.Int on a kind that is not signed; any result fits in an int64 |
| Values.SetInt | pkg/ffi/value.go:335-351 | a ValueError naming ffi.Value.SetInt on a kind that is not signed; it changes no heap size |
| Values.Uint | pkg/ffi/value.go:429-447 | a ValueError naming ffi.Value.Uint on a kind that is not unsigned; any result fits in a uint64 |
| Values.SetUint | pkg/ffi/value.go:361-377 | a ValueError naming ffi.Value.SetUint on a kind that is not unsigned |
| Values.IntRoundTrip | pkg/ffi/value.go:335-351 | after SetInt(x), Int returns x truncated to the kind's width and sign-extended, which is x when it fits; both fail on the other kinds |
| Values.UintRoundTrip | pkg/ffi/value.go:361-377 | after SetUint(x), Uint returns x truncated to the kind's width, which is x when it fits; both fail on the other kinds |
| Values.Elem | pkg/ffi/value.go:150-156 | a non-pointer panics through mustBe. A pointer yields a view of its element type at the address stored in its word, and that view is valid exactly when the word is not nil |
| Values.SetPointer | pkg/ffi/value.go:354-357 | a non-pointer panics through mustBe; storing keeps the heap size |
| Values.ElemSetPointer | pkg/ffi/value.go:150-156 | after SetPointer(x), Elem is the element type's view at x |
| Values.NilPointerIndirect | pkg/ffi/value.go:150-156 | a nil pointer dereferences (Elem, Indirect) to the invalid view at address 0, and reading through it panics with a nil dereference |
| Values.Indirect | pkg/ffi/value.go:462-467 | a non-pointer comes back unchanged; a pointer is dereferenced by Elem |
| Values.IndirectSetPointer | pkg/ffi/value.go:459-467 | Indirect through a pointer just set to x by SetPointer is the element type's view at x, valid exactly when x is not nil |
| Values.NewWriter | pkg/ffi/value.go:663-666 | succeeds exactly when the Value has a type, with a cursor at 0 over the value's type-size bytes from its address |
| Values.Write | pkg/ffi/value.go:656-660 | copies min(len(p), size - idx) bytes to the cursor and advances it by that count. The buffer stays within the heap, and every byte outside the written range is unchanged |
| Values.Part | pkg/ffi/value.go:160-174 | part i of an array or struct view with more than i parts is the view of that part's type at that part's address. This uses the corrected Field and Index |
| Slices.Scratch | pkg/ffi/value.go:594-597 | the scratch `make` never panics when len*elemSize <= cap*elemSize < 2^(8*word-1); when it does not panic, the wrapped cap*elemSize is below 2^(8*word-1) |
| Slices.MakeSlice | pkg/ffi/value.go:580-611 | it succeeds exactly for a slice type, 0 <= len <= cap, a scratch `make([]byte, len*elemSize, cap*elemSize)` that does not panic, and an array type "elem[cap]" that NewArrayType accepts with a size New can allocate. It then returns a slice header (fresh data, len, cap) over zeroed storage the size of that array. The argument panics come in the source's order, and a refused array panics with "ffi: " and its error |
| Slices.MadeSliceFresh | pkg/ffi/value.go:595-608 | with a fresh array name and no size_t overflow, the storage is exactly cap element sizes of zeros when that is below 2^(8*word-1). When it is 0, MakeSlice panics with FFI_BAD_TYPEDEF. When len or cap element sizes are negative as a Go int, the scratch `make` panics with "len out of range" or "cap out of range" |
| Slices.MadeSliceElements | pkg/ffi/value.go:580-611 | the made slice reports Len len and Cap cap; element i < len is a view at data plus i element sizes that reads as zeros |
| Slices.MakeEmptySlicePanics | pkg/ffi/value.go:601-605 | MakeSlice(t, 0, 0) with the empty array unregistered panics with "ffi: " and FFI_BAD_TYPEDEF |
| Slices.GrowFrom | pkg/ffi/value.go:631-637 | the capacity loop ends at or above the new length. It ends below twice the new length while the old length is below 1024, and below 5/4 of it otherwise |
| Slices.GrowCap | pkg/ffi/value.go:628-638 | the capacity loop the source runs computes NewCap, the capacity the grow specification asks for, and from a nonzero capacity it reaches at least the new length |
| Slices.GrowSlice | pkg/ffi/value.go:616-644 | corrected grow_slice. It panics with "ffi.Append: slice overflow" when the new length wraps below the old. It reslices the same storage when the capacity suffices. Otherwise it makes a new slice with the grown capacity, holding the old elements |
| Slices.GrowSliceAsWritten | pkg/ffi/value.go:616-644 | grow_slice as written, with the copy of len bytes |
| Slices.Reallocate | pkg/ffi/value.go:639-642 | the growing branch: MakeSlice(t, i1, c), then the copy to the start of the new storage |
| Slices.RegrownWindows | pkg/ffi/value.go:639-642 | after reallocation, the old heap is unchanged, the copied prefix reads as the source bytes and the rest reads as zeros |
| Slices.RegrownElements | pkg/ffi/value.go:639-642 | with the corrected copy, each old element reads back at the same index of the new storage, and each element at or after the old length reads as zeros |
| Slices.GrowInt32Counterexample | pkg/ffi/value.go:640-642 | growing an int32 slice of length 1 holding bytes 1 2 3 4 at address 1: as written, the new element 0 reads 1 0 0 0; corrected, it reads 1 2 3 4 |
| GoValues.WordKind | pkg/ffi/encoder.go:46-59 | int and uint go through the fixed-width kind of the platform's width, int32/int64 for signed and uint32/uint64 for unsigned |
| Binary.Marshal | pkg/ffi/encoder.go:42-44 | binary.Write's image of a value, or exactly the error "binary.Write: invalid type" |
| Binary.Unmarshal | pkg/ffi/decoder.go:50-52 | binary.Read rejects a target without a fixed size. It fails with EOF / unexpected EOF when fewer bytes are available than the target's size. On success it has read at most the available bytes |
| Binary.UnpackPacked | pkg/ffi/encoder.go:42-44 | unpacking a value's image at its own type gives the value back, and the image has exactly the type's packed size |
| Binary.UnpackPackedElems | pkg/ffi/encoder.go:67-76 | the same, element by element, for a run of elements of one type |
| Binary.UnpackPackedFields | pkg/ffi/encoder.go:79-88 | the same, field by field, for a struct's fields |
| Binary.UnpackedTyped | pkg/ffi/decoder.go:50-52 | unpacking at a type yields a value of that type |
| Binary.UnmarshalTyped | pkg/ffi/decoder.go:91-115 | binary.Read fills its target with a value of the target's own type |
| Binary.UnmarshalMarshal | pkg/ffi/decoder.go:50-52 | what binary.Write produces for a fixed-size value, binary.Read into a target of the same shape reads back as that value, whatever bytes follow |
| Encoder.WriteInto | pkg/ffi/encoder.go:31 | a writer on the zero Value panics. The write succeeds exactly when the value's storage is in the heap and off the nil page; a view at the nil address fails with a nil dereference. It keeps the heap size |
| Encoder.EncodeNilView | pkg/ffi/encoder.go:28-32 | a typed view at the nil address passes the compatibility gate, and writing an integer into it panics with a nil dereference |
| Encoder.WriteIntoLoads | pkg/ffi/value.go:656-660 | a write through a value's writer leaves the first min(len, size) bytes of the image at the value's address, and every range clear of them unchanged |
| Encoder.IntImageBits | pkg/ffi/encoder.go:46-59 | every integer's image, int and uint included, is its low Width bytes in little-endian order |
| Encoder.Encode | pkg/ffi/encoder.go:22-33 | the zero Value panics whatever the verdict. With a type, an incompatible verdict returns the error before any write, with the heap unchanged. A pointer or string panics "unimplemented", and a slice panics "unhandled kind [slice]" |
| Encoder.EncodeInt | pkg/ffi/encoder.go:42-59 | an integer encoded into storage at least its width wide: no error, and the storage starts with its low Width bytes, little-endian |
| Encoder.EncodeParts | pkg/ffi/encoder.go:67-88 | the array and struct loops keep the heap size. They use the corrected Field and Index |
| Encoder.EncodePartsWritten | pkg/ffi/encoder.go:67-88 | over parts that fit and do not overlap: no error. Every part from i on holds its binary.Write image, and the parts before i keep their bytes |
| Encoder.EncodeArray | pkg/ffi/encoder.go:67-76 | an array encodes without error, and element j's bytes, at the base plus j element sizes, are its image |
| Encoder.EncodeStruct | pkg/ffi/encoder.go:79-88 | a struct encodes into a laid-out C struct without error, and field j's bytes, at the base plus field j's offset, are its image |
| Decoder.ReaderBytes | pkg/ffi/value.go:647-649 | a reader on the zero Value panics. Otherwise it holds the value's type-size bytes, present exactly when they lie in the heap off the nil page |
| Decoder.ReadInt | pkg/ffi/decoder.go:50-83 | reading an integer keeps its kind. The read fails exactly when fewer bytes than the kind's width are available, and then leaves the integer unchanged |
| Decoder.Decode | pkg/ffi/decoder.go:22-36 | the zero Value panics whatever the verdict. With a type, an incompatible verdict returns the error before any read. A non-pointer array or struct panics in reflect's Elem. A string, or a pointer to a pointer or a string, panics "unimplemented"; a slice or a pointer to a slice panics "unhandled kind [slice]". Only a pointer target can succeed, and a non-pointer target is never changed |
| Decoder.DecodeInto | pkg/ffi/decoder.go:38-123 | the pointee keeps its Go type |
| Decoder.DecodeParts | pkg/ffi/decoder.go:91-115 | the array and struct loops keep the number of parts and each part's type. They use the corrected Field and Index |
| Decoder.ReadIntBits | pkg/ffi/decoder.go:54-83 | reading bytes that start with x's low Width bytes gives x back when x is in its kind's range: sign extension for int, zero extension for uint |
| Decoder.DecodeEncodeInt | pkg/ffi/decoder.go:50-83 | an integer encoded and then decoded through a pointer to the same kind reads back as itself, for every kind and both platform widths |
| Decoder.DecodePartsRead | pkg/ffi/decoder.go:91-115 | when every part's storage holds the image of a value with the Go part's type, the loop ends without error and the Go parts become those values |
| Decoder.EncodedArrayStored | pkg/ffi/encoder.go:67-76 | after encoding an array, every element's storage holds that element's image |
| Decoder.EncodedStructStored | pkg/ffi/encoder.go:79-88 | after encoding a struct, every field's storage holds that field's image |
| Decoder.DecodeEncodeArray | pkg/ffi/decoder.go:91-101 | an array encoded, then decoded into an array of the same type, reads back as the original |
| Decoder.DecodeEncodeStruct | pkg/ffi/decoder.go:105-115 | a struct encoded into a laid-out C struct, then decoded into a struct with the same field types, reads back as the original |

## Left out

- Floating point: `Float`/`SetFloat`, float leaves of the encoder and decoder, and `long double` are not modelled. Floats have no exact counterpart in the model.
- `pkg/ffi/ffi.go` (`NewCif`, calls through libffi, `Library`/`Fct`) and `dl/` are not part of this model. They are foreign calls. `NewCif` appears only as the FFI_BAD_TYPEDEF verdict that libffi gives for an empty or zero-size struct and for a zero-size array.
- `methodName` inspects the run-time call stack. A failed `mustBe` is therefore `WrongKind(kind)`, without the caller's name.
- `Buffer`, `NewReader`, `Addr`, `NewAt`, `UnsafeAddr`, `IsNil`, `FieldByIndex` and `ValueOf` are not modelled as operations. They forge slice headers, take addresses of locals, or dispatch on reflection. `Buffer` and `NewReader` appear only as the range of bytes a writer or reader covers, which for a slice value is not Go's range (see `Values.NewWriter` below).
- `ctype_from_gotype`, `is_compatible` and `NewSliceType` are not part of this model. The first two become a boolean verdict; `Types.SliceTypeOf` stands in for the third.
- The sizes and alignments of builtin libffi types are platform parameters, not libffi's computation. Struct size and alignment follow the align-up rule the package's tests check.
- Slices.GrowCap: the capacity loop is modelled on unbounded integers, so a Go `int` overflow of `m += m` is not modelled.
- The global `g_types` map is used sequentially; concurrent access is not modelled.
- Allocation has no alignment: `New` returns the next free address.
- Go pointers are never nil in `GoValues`. A nil pointer passed to `Decode` is not modelled.
- `Binary`: blank (`_`) struct fields, which `encoding/binary` skips, are not distinguished. The type names that Go appends to "binary.Write: invalid type", "binary.Read: invalid type" and the ffi.Encode/ffi.Decode mismatch messages are left out of the message texts.
- Decoder.Decode: for a non-pointer fixed-width integer, the model follows `binary.Read`'s fast path. It reads the width's bytes first, returning EOF / unexpected EOF when they are missing, and then reports "binary.Read: invalid type". Other Go releases may differ.
- Decoder.Decode: the reader's storage is read when an integer is decoded. Storage outside the heap is `BadAddress`, where Go has undefined behaviour; the nil page is `NilDeref`, Go's nil-dereference panic.
- Memory: only address 0 is nil. Other addresses are not checked against a real address space.
- Values.FieldByName: uses the corrected Field. As written, a name that matches panics in Field's `*cffi_struct` assertion, while an unknown name still returns the zero Value.
- Values.Part: uses the corrected Field and Index (see Findings).
- Encoder.EncodeParts: uses the corrected Field and Index. As written, every struct or array destination panics at the assertion of pkg/ffi/value.go:162 or 229 before any part is written. With that corrected, the bound at line 230 could let the loop write one element past the C array. That needs `is_compatible` to accept a Go array longer than the C array, and `is_compatible` is not part of this model.
- Decoder.DecodeParts: uses the corrected Field and Index, for the same reasons as `EncodeParts`. As written it panics at the same assertions, and past line 230 it could read one element past the C array.
- The `v.typ.(*cffi_slice)` assertions at pkg/ffi/value.go:243 and 400 succeed in the model. Whether they hold depends on how `NewSliceType` registers slice types, and it is not part of this model.
- Slices.MakeSlice: the scratch buffer `make([]byte, len*elemSize, cap*elemSize)` (pkg/ffi/value.go:595-597) is modelled only for its panic; its contents are overwritten at once. Its panic for a size below 2^(8*word-1) but beyond Go's allocation limit is not modelled (see Values.New).
- Values.New: Go's allocation limit (`maxAlloc`, 2^48 bytes on amd64) is not modelled. Only a size that is negative as a Go int panics in `make`; a size between the limit and 2^(8*word-1) succeeds in the model, where Go panics with "makeslice: len out of range" or runs out of memory.
- Values.MakeBytesFault: the same allocation limit is not modelled.
- Encoder.Encode: every Go struct field is treated as exported. As written, `v.Field(i).Interface()` (pkg/ffi/encoder.go:82) and `v.Field(i).Addr().Interface()` (pkg/ffi/decoder.go:109) panic on an unexported field, and `binary.Read` panics when it sets an unexported field nested inside a field. `GoValues.GoType` has no exported flag, so these panics are not modelled.
- Encoder.EncodeParts: treats every Go struct field as exported, as Encoder.Encode does; the panics on unexported fields are not modelled.
- Encoder.EncodePartsWritten: treats every Go struct field as exported, as Encoder.Encode does; the panics on unexported fields are not modelled.
- Encoder.EncodeStruct: treats every Go struct field as exported, as Encoder.Encode does; the panics on unexported fields are not modelled.
- Decoder.Decode: treats every Go struct field as exported, as Encoder.Encode does; the panics on unexported fields are not modelled.
- Decoder.DecodeInto: treats every Go struct field as exported, as Encoder.Encode does; the panics on unexported fields are not modelled.
- Decoder.DecodeParts: treats every Go struct field as exported, as Encoder.Encode does; the panics on unexported fields are not modelled.
- Decoder.DecodePartsRead: treats every Go struct field as exported, as Encoder.Encode does; the panics on unexported fields are not modelled.
- Decoder.EncodedStructStored: treats every Go struct field as exported, as Encoder.Encode does; the panics on unexported fields are not modelled.
- Decoder.DecodeEncodeStruct: treats every Go struct field as exported, as Encoder.Encode does; the panics on unexported fields are not modelled.
- Values.NilPointerIndirect: the comment on `Indirect` (pkg/ffi/value.go:460) says that a nil pointer gives the zero Value. The code returns `v.Elem()`, a Value with the element type and a nil `val`, and the model follows the code.
- Values.NewWriter: for a slice value (`SliceView`) the writer covers typ.Size() bytes at the slice's data pointer. In Go, `Buffer` (pkg/ffi/value.go:125-133) covers the bytes at `v.val`, and for a slice value that is the Go-side slice header `&x` made by `MakeSlice` (pkg/ffi/value.go:609) or `Slice` (pkg/ffi/value.go:419). A write therefore changes the header's data, len and cap words in Go, and the element storage in the model. The model keeps slice headers outside the heap, so that header is not addressable here.
- Decoder.ReaderBytes: for a slice value it reads the bytes at the data pointer, where Go's `NewReader` reads the slice header at `v.val`, for the reason given under `Values.NewWriter`.
- Encoder.WriteInto: for a slice value it writes at the data pointer, and fails when those bytes are outside the heap. Go overwrites the slice header at `v.val` and does not fail (see `Values.NewWriter`).
- Encoder.WriteIntoLoads: for a slice value its bytes land at the data pointer, not in the slice header (see `Values.NewWriter`).
- Encoder.EncodeInt: for a slice value it promises the integer's bytes at the data pointer, where Go writes them into the slice header (see `Values.NewWriter`).
- `MakeSlice` and `grow_slice` are methods specified by the predicates `MadeSlice` and `GrewSlice`, and the lemmas about them are stated over those predicates.

## Findings

| source | as written | input that shows it | evidently intended | confidence | as-written member | corrected member |
|---|---|---|---|---|---|---|
| pkg/ffi/value.go:162 | `Field` asserts `v.typ.(*cffi_struct)`, and `Index`, `Len` and `Slice` assert `v.typ.(*cffi_array)` (lines 229, 300, 391). But `NewStructType` and `NewArrayType` register the descriptor as a struct value (pkg/ffi/type.go:307, 355), never as a pointer. So every one of these assertions panics with an interface-conversion error | `Field(0)` on any value of the struct type `struct_2`; `Len()` on any value of `int32[10]` | assert the value type that was registered, `v.typ.(cffi_struct)` and `v.typ.(cffi_array)` | high, not executed | Values.AssertionsPanic | Values.Field |
| pkg/ffi/value.go:230 | once the assertion above is corrected, the array branch of `Index` rejects only `i < 0 \|\| i > Len`, so `i == Len` yields a view just past the array | `Index(2)` on an `int32[2]` value at address 16 returns the view of bytes 24..28 | `i >= Len` panics, like the slice branch at pkg/ffi/value.go:240 | medium, not executed; the panic at line 229 masks it as written | Values.IndexPastEndExample | Values.IndexInside |
| pkg/ffi/value.go:640-642 | `copy(*tx, *sx)` copies between the two slice values reinterpreted as `[]byte`, so only `len` bytes move, not `len * elemSize` | growing an int32 slice of len 1 and cap 1, holding bytes 1 2 3 4, by one element leaves element 0 as 1 0 0 0 | the old elements, `len * elemSize` bytes, are copied | high, not executed | Slices.GrowInt32Counterexample | Slices.RegrownElements |
