# structmap: the `FromMap` / `ToMap` derivations, modelled in Dafny

structmap converts between a Rust struct and a string-keyed map. Two procedural
macros do the work. `#[derive(ToMap)]` generates `to_genericmap` and
`to_stringmap`, which put every field into a fresh map. The key is the field's name,
or the literal of its `#[rename(name = "...")]` attribute. `#[derive(FromMap)]`
generates `from_genericmap` and `from_stringmap`, which start from `default()` and
fill the fields back in from a map. A `GenericMap` holds `Value`s. `Value` is a
closed variant (`Null`, `Bool`, `Num(I64 | U64 | F64)`, `String`, `Array`). It has a
type-driven constructor `Value::new` and five typed accessors.

This project models:

- **Values** (`value.dfy`, src/value.rs): `Value`, `Num`, `Value::new` over an
  explicitly tagged Rust input (`AnyValue`), and the accessors `bool`, `i64`,
  `u64`, `f64` and `String`.
- **Syn** (`syn.dfy`): the parsed derive input as plain datatypes. These cover
  `Data`, `Fields`, `Field`, `Type`, attribute metas, paths and literals.
- **Derive** (`derive.dfy`, structmap-derive/src/lib.rs): `parse_rename_attrs`,
  written as an imperative method over a map and proved equal to a functional
  specification. It also holds the field-name, key and accessor-name pipelines
  of `from_map` and `to_map`, and every panic they raise (`DeriveError`). A
  derivation yields the per-field steps of the code it generates (`FromMapImpl`,
  `ToMapImpl`), not token text.
- **Generated** (`generated.dfy`): what the generated functions do. Struct values
  are maps from field name to value. `to_genericmap`, `to_stringmap` and
  `from_genericmap` are loops over those steps, proved against specification
  functions.

The model follows the code. Where the code and the design it was written for
disagree, the code wins. Each such place is stated by a lemma:

- A key missing from the map makes `from_genericmap` panic with `unreachable!()`
  (structmap-derive/src/lib.rs:102). Partial maps are not tolerated.
  `AssignAllOk` states when it succeeds.
- `from_map` reads every field from its un-renamed name (structmap-derive/src/lib.rs:33-37).
  A renamed field therefore does not survive a round trip: `RenamedFieldBreaksRoundTrip`
  for any such field, `RenamedFieldExample` for one struct.
- The body of `from_stringmap` is commented out (structmap-derive/src/lib.rs:73-86).
  It returns `default()` for every map: `FromStringMap`.
- A field of type `String` gets the accessor name `string`. The accessor is spelled
  `String` (src/value.rs:80), so the derived `from_genericmap` does not type-check:
  `StringFieldDoesNotCompile`.
- `from_map` rejects only enums and unions. Tuple and unit structs get an
  implementation that assigns nothing, because a `#(...)*` repetition over several
  lists stops at the shortest and the name list is empty (`FromMapSpec`).
  `to_map` rejects them through `parse_rename_attrs`.
- `parse_rename_attrs` inspects every attribute of every field, whatever its path.
  Any second attribute on a field counts as a redefinition. A doc comment
  (`#[doc = "..."]`) on a field rejects the derivation wherever it stands:
  `DocCommentRejected`. As the field's first attribute it is a malformed rename. After
  a rename it is a "Cannot redefine field name multiple times" panic.

## Model

| member | source | states |
|---|---|---|
| Values.GetBool | src/value.rs:47-53 | Some exactly when the value is `Bool`, and then its payload |
| Values.GetI64 | src/value.rs:55-61 | Some exactly when the value is `Num(I64)`, and then its payload |
| Values.GetU64 | src/value.rs:63-69 | Some exactly when the value is `Num(U64)`, and then its payload |
| Values.GetF64 | src/value.rs:71-77 | Some exactly when the value is `Num(F64)`, and then its payload |
| Values.GetString | src/value.rs:79-86 | Some exactly when the value is `String`, and then its text |
| Values.AccessorNamed | src/value.rs:47-86 | a method-call name resolves to an accessor exactly for `bool`, `i64`, `u64`, `f64` and `String` (case-sensitive) |
| Values.NewRoundTrip | src/value.rs:26-86 | the accessor matching a value's type, applied to `Value::new` of it, returns the value; `&'static str` and `String` both come back as their text; `Vec<Value>` becomes `Array` of the same elements |
| Values.New | src/value.rs:26-44 | `Value::new` gives `Null` exactly for unsupported types, `String` exactly for `&'static str` and `String` (both with the same text), and `Array` exactly for `Vec<Value>` |
| Values.AccessorsExclusive | src/value.rs:47-86 | at most one accessor returns Some for any value |
| Values.NoAccessorForNullOrArray | src/value.rs:47-86 | `Null` and `Array` make every accessor return None |
| Derive.RenameOf | structmap-derive/src/lib.rs:189-218 | an attribute yields a key exactly when it is a list whose first item is `name = "lit"` with a string literal; otherwise it is a malformed-rename or non-identifier-path panic |
| Derive.ParseRenameAttrs | structmap-derive/src/lib.rs:176-227 | the nested loops filling the rename map give exactly the rename-map specification, panics included |
| Derive.RenameAttrsShape | structmap-derive/src/lib.rs:181-208 | a field's attributes pass exactly when there are none, or one of the rename shape on a named field not renamed before; a second attribute is an error, never an overwrite |
| Derive.RenameFieldsOk | structmap-derive/src/lib.rs:181-220 | in an accepted map every attributed field has exactly one rename attribute, is mapped to its literal, and the keys are exactly the attributed field names |
| Derive.RenameFieldsAccepts | structmap-derive/src/lib.rs:181-220 | distinct fields with no attribute or one well-formed rename attribute are accepted |
| Derive.RenameFieldsRejects | structmap-derive/src/lib.rs:182-218 | a field with two attributes, or with one that is not a rename, makes the whole map a panic |
| Derive.RenameAttrsErrors | structmap-derive/src/lib.rs:182-218 | the attribute loop panics only with a redefinition, malformed-rename, non-identifier-path or missing-name error |
| Derive.RenameMapSpec | structmap-derive/src/lib.rs:176-227 | tuple and unit structs panic with "Must have named fields"; a named struct is accepted exactly when each field has no attribute or one rename; the map sends each renamed field to its literal, and every key of the map is the name of an attributed field |
| Derive.Idents | structmap-derive/src/lib.rs:27-30 | the names of named fields in declaration order; none for tuple fields |
| Derive.Typecall | structmap-derive/src/lib.rs:40-57 | a non-path field type aborts the derivation; a path type gives its lower-cased text when that is an identifier, else aborts |
| Derive.Typecalls | structmap-derive/src/lib.rs:40-58 | succeeds exactly when every field's accessor name does, and then lists them in field order |
| Derive.TypecallResolution | structmap-derive/src/lib.rs:48-54 | `bool`, `i64`, `u64`, `f64` lower-case to names of accessors; `String` lower-cases to `string`, which names none |
| Derive.PrimitiveTypecall | structmap-derive/src/lib.rs:48-54 | the four primitive type names are already lower case, are identifiers and name accessors |
| Derive.Zip | structmap-derive/src/lib.rs:92-104 | the `#(...)*` repetition over keys, accessor names and field names stops at the shorter list; step i reads the key that is name i, unrenamed, with accessor i, into field i |
| Derive.DeriveFromMap | structmap-derive/src/lib.rs:19-26 | enums and unions are rejected with "Implementation must be a struct"; the implementation is for the input's type |
| Derive.FromMapSpec | structmap-derive/src/lib.rs:22-58 | succeeds exactly when every field type gives an accessor name; assignment i reads field i from its own un-renamed name with that accessor; tuple and unit structs get none |
| Derive.Entries | structmap-derive/src/lib.rs:134-145 | one entry per field name, in order; a renamed field's key is its literal and any other field's key is its own name, so with no renames every key is its field's name |
| Derive.DeriveToMap | structmap-derive/src/lib.rs:115-125 | non-structs are rejected with "Implementation must be a struct", tuple and unit structs with "Must have named fields" |
| Derive.ToMapSpec | structmap-derive/src/lib.rs:124-142 | succeeds exactly on named fields with at most one rename each; entries follow the fields in number and order, keyed by the rename literal or else the field's own name |
| Derive.DocCommentRejected | structmap-derive/src/lib.rs:182-218 | a doc comment (`doc = "..."`) in any attribute position of any field makes the `ToMap` derivation fail with a rename panic; when no earlier field has attributes, it is the malformed-rename panic in first position and the redefinition panic right after a rename |
| Generated.ToGenericMap | structmap-derive/src/lib.rs:161-167 | the insert loop from an empty map yields the specification map of `Value::new` of each field under its key |
| Generated.ToStringMap | structmap-derive/src/lib.rs:153-159 | the insert loop from an empty map yields the specification map of each field's display text under its key |
| Generated.MapOfEntries | structmap-derive/src/lib.rs:153-167 | the map's keys are exactly the effective keys, and each key holds the converted value of the last field inserted under it |
| Generated.FromGenericMap | structmap-derive/src/lib.rs:90-106 | the loop that overwrites `default()` field by field yields the assignment specification, panics included |
| Generated.FromStringMap | structmap-derive/src/lib.rs:71-88 | returns `default()` unchanged for every map |
| Generated.AssignAllOk | structmap-derive/src/lib.rs:92-104 | `from_genericmap` returns a struct exactly when the map has every field's key with the accessor's variant; a missing key or wrong variant panics |
| Generated.AssignAllKeys | structmap-derive/src/lib.rs:90-106 | the result has the default's fields plus the assigned ones |
| Generated.AssignAllAssigned | structmap-derive/src/lib.rs:92-104 | each assigned field holds the value the accessor extracts from its key's entry |
| Generated.AssignAllUntouched | structmap-derive/src/lib.rs:90-106 | a field no assignment names keeps its default value |
| Generated.RoundTripDerives | structmap-derive/src/lib.rs:22-142 | for attribute-free bool/i64/u64/f64 fields both derivations succeed, with the same key for each field on both sides |
| Generated.RoundTrip | structmap-derive/src/lib.rs:90-167 | for such a struct, `from_genericmap(to_genericmap(s))` returns `s` whatever the default |
| Generated.RenamedFieldBreaksRoundTrip | structmap-derive/src/lib.rs:33-37 | for any struct with a renamed field whose name no rename literal repeats, `from_genericmap(to_genericmap(s))` panics, because `to_map` stores that field under its literal while `from_map` reads its own name |
| Generated.UnsuppliedKeyPanics | structmap-derive/src/lib.rs:92-104 | a map built without the key of some assignment makes `from_genericmap` panic, with a missing-key panic at that key when it is the first assignment |
| Generated.RenamedFieldExample | structmap-derive/src/lib.rs:33-37 | `struct S { #[rename(name = "b")] a: i64 }` is stored under `b` but read from `a`, so the round trip panics with a missing key `a` |
| Generated.StringFieldDoesNotCompile | structmap-derive/src/lib.rs:49 | a `String` field makes the derived `from_genericmap` call an accessor that does not exist |

## Left out

- The proc-macro machinery is left out: `TokenStream`, `parse_macro_input`,
  `parse_meta`, `Span` and quasi-quoted output. The model takes the parsed input as
  datatypes. It gives the generated code's meaning as the lists of steps it runs.
- Generic parameter pass-through (`split_for_impl`) is left out. It is type-level
  plumbing with no run-time behaviour.
- `Value::new` uses `std::any::Any` downcasting. Here the input's type is an explicit
  tag (`AnyValue`), so the fixed order of the type tests cannot be observed.
- `f64` values are opaque bit patterns. No floating-point arithmetic is modelled.
- `to_string()` (Display) in `to_stringmap` is a function parameter, because the
  field types' Display implementations are not part of this model. Whether a field
  type implements Display at all (`Vec<Value>` does not) is not modelled.
- `str::parse` in the commented-out `from_stringmap` body is not modelled, since that
  body is not compiled.
- `to_lowercase` and `Ident::new` are modelled on ASCII only. Non-ASCII type text is
  treated as no identifier. Keywords and raw identifiers get no special treatment.
- Type-checking of the generated code is modelled only where it changes behaviour:
  every accessor name must exist (`Compiles`). The other checks are assumed to pass:
  field and value types must agree, and the struct must implement `Default`.
- `default()` is a parameter, because each struct author supplies it.
- src/lib.rs is not part of this model: it is an earlier draft that does not compile.
  tests/test.rs targets that draft.
- Derive.Typecalls: its contract does not say which field's error is reported when
  several fail. The body reports the first, as the source's `map`/`collect` does.
