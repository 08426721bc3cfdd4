/** What the code generated by the two derives does at run time
    (the bodies quoted in structmap-derive/src/lib.rs): a struct value is the map
    from its field names to their Rust values. */
module Generated {
  import opened Wrappers
  import opened Values
  import opened Syn
  import opened Derive

  /** A struct value: field name to field value. */
  type Instance = map<string, AnyValue>

  /** The `unreachable!()` panics of a generated `from_genericmap`. */
  datatype Panic =
    | MissingKey(key: string)        // the map has no entry for the field's key
    | AccessorMismatch(key: string)  // the entry's variant is not the field's type

  // ---------------------------------------------------------------------------
  // to_genericmap / to_stringmap

  /** The map built by inserting, in order, each entry's field value converted by `conv`
      under the entry's key; a later insert under the same key replaces an earlier one. */
  function MapOf<V>(entries: seq<Entry>, s: Instance, conv: AnyValue -> V): map<string, V>
    requires forall e :: e in entries ==> e.ident in s
  {
    if entries == [] then map[]
    else
      var last := entries[|entries| - 1];
      MapOf(entries[..|entries| - 1], s, conv)[last.key := conv(s[last.ident])]
  }

  /** Generated `to_genericmap`: a fresh map, one `map.insert(key, Value::new(field))` per field. */
  method ToGenericMap(impl: ToMapImpl, s: Instance) returns (m: map<string, Value>)
    requires forall e :: e in impl.entries ==> e.ident in s
    ensures m == MapOf(impl.entries, s, New)
  {
    var entries := impl.entries;
    m := map[];
    var i := 0;
    while i < |entries|
      invariant 0 <= i <= |entries|
      invariant m == MapOf(entries[..i], s, New)
    {
      m := m[entries[i].key := New(s[entries[i].ident])];
      assert entries[..i + 1][..i] == entries[..i];
      i := i + 1;
    }
    assert entries[..i] == entries;
  }

  /** Generated `to_stringmap`: a fresh map, one `map.insert(key, field.to_string())` per
      field; `display` stands for the fields' `Display` implementations. */
  method ToStringMap(impl: ToMapImpl, s: Instance, display: AnyValue -> string) returns (m: map<string, string>)
    requires forall e :: e in impl.entries ==> e.ident in s
    ensures m == MapOf(impl.entries, s, display)
  {
    var entries := impl.entries;
    m := map[];
    var i := 0;
    while i < |entries|
      invariant 0 <= i <= |entries|
      invariant m == MapOf(entries[..i], s, display)
    {
      m := m[entries[i].key := display(s[entries[i].ident])];
      assert entries[..i + 1][..i] == entries[..i];
      i := i + 1;
    }
    assert entries[..i] == entries;
  }

  /** The map's keys are exactly the entries' keys, and each key holds the converted value
      of the last field inserted under it. */
  lemma {:induction false} MapOfEntries<V>(entries: seq<Entry>, s: Instance, conv: AnyValue -> V)
    requires forall e :: e in entries ==> e.ident in s
    ensures MapOf(entries, s, conv).Keys == set e | e in entries :: e.key
    ensures forall i :: 0 <= i < |entries| && (forall j :: i < j < |entries| ==> entries[j].key != entries[i].key) ==>
      MapOf(entries, s, conv)[entries[i].key] == conv(s[entries[i].ident])
  {
    if entries != [] {
      var n := |entries| - 1;
      var init := entries[..n];
      MapOfEntries(init, s, conv);
      assert entries == init + [entries[n]];
      forall i | 0 <= i < n && (forall j :: i < j < |entries| ==> entries[j].key != entries[i].key)
        ensures MapOf(entries, s, conv)[entries[i].key] == conv(s[entries[i].ident])
      {
        assert init[i] == entries[i];
        assert forall j :: i < j < |init| ==> init[j].key != init[i].key;
      }
    }
  }

  // ---------------------------------------------------------------------------
  // from_genericmap / from_stringmap

  /** The generated code type-checks only when every accessor name is a method of Value. */
  predicate Compiles(assignments: seq<Assignment>)
  {
    forall a :: a in assignments ==> AccessorNamed(a.typecall).Some?
  }

  /** The map holds the assignment's key with a value of the variant its accessor reads. */
  predicate Supplies(hashmap: map<string, Value>, a: Assignment)
    requires AccessorNamed(a.typecall).Some?
  {
    a.key in hashmap && Call(AccessorNamed(a.typecall).value, hashmap[a.key]).Some?
  }

  /** The field value an assignment stores, given that the map supplies it. */
  function Extracted(hashmap: map<string, Value>, a: Assignment): AnyValue
    requires AccessorNamed(a.typecall).Some? && Supplies(hashmap, a)
  {
    Call(AccessorNamed(a.typecall).value, hashmap[a.key]).value
  }

  /** Runs the assignments in order on `settings`, panicking at the first one whose key is
      absent or whose accessor returns None. */
  function AssignAll(settings: Instance, hashmap: map<string, Value>, assignments: seq<Assignment>): Result<Instance, Panic>
    requires Compiles(assignments)
    decreases |assignments|
  {
    if assignments == [] then Ok(settings)
    else
      var a := assignments[0];
      if a.key !in hashmap then Err(MissingKey(a.key))
      else match Call(AccessorNamed(a.typecall).value, hashmap[a.key])
        case None => Err(AccessorMismatch(a.key))
        case Some(x) => AssignAll(settings[a.ident := x], hashmap, assignments[1..])
  }

  /** Generated `from_genericmap`: starts from `default()` and overwrites field after field. */
  method FromGenericMap(impl: FromMapImpl, default: Instance, hashmap: map<string, Value>) returns (r: Result<Instance, Panic>)
    requires Compiles(impl.assignments)
    ensures r == AssignAll(default, hashmap, impl.assignments)
  {
    var assignments := impl.assignments;
    var settings := default;
    var i := 0;
    while i < |assignments|
      invariant 0 <= i <= |assignments|
      invariant AssignAll(default, hashmap, assignments) == AssignAll(settings, hashmap, assignments[i..])
    {
      var a := assignments[i];
      assert a in assignments;
      if a.key !in hashmap {
        return Err(MissingKey(a.key));
      }
      var value := Call(AccessorNamed(a.typecall).value, hashmap[a.key]);
      if value.None? {
        return Err(AccessorMismatch(a.key));
      }
      settings := settings[a.ident := value.value];
      assert assignments[i..][1..] == assignments[i + 1..];
      i := i + 1;
    }
    return Ok(settings);
  }

  /** Generated `from_stringmap`: its field-by-field body is commented out, so it returns
      `default()` whatever the map holds. */
  function FromStringMap(impl: FromMapImpl, default: Instance, hashmap: map<string, string>): (r: Instance)
    ensures r == default
  {
    default
  }

  /** `from_genericmap` returns a struct exactly when the map supplies every field's key
      with the right variant: a partial map is a panic, not a default. */
  lemma {:induction false} AssignAllOk(settings: Instance, hashmap: map<string, Value>, assignments: seq<Assignment>)
    requires Compiles(assignments)
    ensures AssignAll(settings, hashmap, assignments).Ok? <==>
      forall i :: 0 <= i < |assignments| ==> Supplies(hashmap, assignments[i])
    decreases |assignments|
  {
    if assignments != [] {
      var a := assignments[0];
      var rest := assignments[1..];
      if Supplies(hashmap, a) {
        var next := settings[a.ident := Extracted(hashmap, a)];
        assert AssignAll(settings, hashmap, assignments) == AssignAll(next, hashmap, rest);
        AssignAllOk(next, hashmap, rest);
        assert forall i :: 0 < i < |assignments| ==> assignments[i] == rest[i - 1];
      }
    }
  }

  /** The fields of the struct `from_genericmap` returns are the default's and the assigned ones. */
  lemma {:induction false} AssignAllKeys(settings: Instance, hashmap: map<string, Value>, assignments: seq<Assignment>)
    requires Compiles(assignments) && AssignAll(settings, hashmap, assignments).Ok?
    ensures AssignAll(settings, hashmap, assignments).value.Keys == settings.Keys + (set a | a in assignments :: a.ident)
    decreases |assignments|
  {
    if assignments != [] {
      var a := assignments[0];
      var rest := assignments[1..];
      var next := settings[a.ident := Extracted(hashmap, a)];
      assert AssignAll(settings, hashmap, assignments) == AssignAll(next, hashmap, rest);
      AssignAllKeys(next, hashmap, rest);
      assert (set b | b in assignments :: b.ident) == {a.ident} + (set b | b in rest :: b.ident) by {
        assert forall b :: b in assignments <==> b == a || b in rest;
      }
    }
  }

  /** No two assignments store into the same field, as for the fields of one struct. */
  predicate DistinctAssigned(assignments: seq<Assignment>)
  {
    forall i, j :: 0 <= i < j < |assignments| ==> assignments[i].ident != assignments[j].ident
  }

  /** Each assigned field of the struct `from_genericmap` returns holds the value the
      map supplies under its key (field names are distinct, so none is overwritten). */
  lemma {:induction false} AssignAllAssigned(settings: Instance, hashmap: map<string, Value>, assignments: seq<Assignment>)
    requires Compiles(assignments) && AssignAll(settings, hashmap, assignments).Ok?
    requires DistinctAssigned(assignments)
    ensures forall i :: 0 <= i < |assignments| ==>
      var r := AssignAll(settings, hashmap, assignments).value;
      Supplies(hashmap, assignments[i]) && assignments[i].ident in r && r[assignments[i].ident] == Extracted(hashmap, assignments[i])
    decreases |assignments|
  {
    if assignments != [] {
      var a := assignments[0];
      var rest := assignments[1..];
      var next := settings[a.ident := Extracted(hashmap, a)];
      assert AssignAll(settings, hashmap, assignments) == AssignAll(next, hashmap, rest);
      AssignAllAssigned(next, hashmap, rest);
      AssignAllUntouched(next, hashmap, rest);
      var r := AssignAll(settings, hashmap, assignments).value;
      forall i | 0 <= i < |assignments|
        ensures Supplies(hashmap, assignments[i]) && assignments[i].ident in r && r[assignments[i].ident] == Extracted(hashmap, assignments[i])
      {
        if i > 0 {
          assert assignments[i] == rest[i - 1];
        } else {
          assert forall j :: 0 <= j < |rest| ==> rest[j].ident != a.ident by {
            assert forall j :: 0 <= j < |rest| ==> rest[j] == assignments[j + 1];
          }
        }
      }
    }
  }

  /** A field no assignment names keeps its default value. */
  lemma {:induction false} AssignAllUntouched(settings: Instance, hashmap: map<string, Value>, assignments: seq<Assignment>)
    requires Compiles(assignments) && AssignAll(settings, hashmap, assignments).Ok?
    ensures forall k :: k in settings && (forall i :: 0 <= i < |assignments| ==> assignments[i].ident != k) ==>
      k in AssignAll(settings, hashmap, assignments).value && AssignAll(settings, hashmap, assignments).value[k] == settings[k]
    decreases |assignments|
  {
    if assignments != [] {
      var a := assignments[0];
      var rest := assignments[1..];
      var next := settings[a.ident := Extracted(hashmap, a)];
      assert AssignAll(settings, hashmap, assignments) == AssignAll(next, hashmap, rest);
      AssignAllUntouched(next, hashmap, rest);
      forall k | k in settings && (forall i :: 0 <= i < |assignments| ==> assignments[i].ident != k)
        ensures k in AssignAll(settings, hashmap, assignments).value && AssignAll(settings, hashmap, assignments).value[k] == settings[k]
      {
        assert assignments[0].ident != k;
        assert forall i :: 0 <= i < |rest| ==> rest[i] == assignments[i + 1];
      }
    }
  }

  // ---------------------------------------------------------------------------
  // Round trip through a GenericMap

  /** A field value whose type is the field type text, for the four types whose accessor
      name is their lower-cased type name. */
  predicate OfType(x: AnyValue, text: string)
  {
    || (text == "bool" && x.BoolVal?)
    || (text == "i64" && x.I64Val?)
    || (text == "u64" && x.U64Val?)
    || (text == "f64" && x.F64Val?)
  }

  /** The names of the fields `fs`. */
  function FieldNames(fs: seq<Field>): set<string>
    requires forall i :: 0 <= i < |fs| ==> fs[i].ident.Some?
  {
    set i | 0 <= i < |fs| :: fs[i].ident.value
  }

  /** A struct whose fields round-trip: named, distinct, without attributes, each of type
      bool, i64, u64 or f64 with a value of that type in `s`. */
  predicate RoundTrippable(input: DeriveInput, s: Instance)
  {
    && input.data.Struct? && input.data.fields.Named?
    && WellFormed(input.data.fields) && DistinctIdents(input.data.fields.named)
    && var fs := input.data.fields.named;
      forall i :: 0 <= i < |fs| ==>
        fs[i].attrs == [] && fs[i].ty.TypePath? && fs[i].ident.value in s && OfType(s[fs[i].ident.value], fs[i].ty.text)
  }

  /** For such a struct both derives succeed; `to_map` stores field i under its own name
      and `from_map` reads it from there with the accessor of its type. */
  lemma RoundTripDerives(input: DeriveInput, s: Instance)
    requires RoundTrippable(input, s)
    ensures DeriveToMap(input).Ok? && DeriveFromMap(input).Ok?
    ensures var fs := input.data.fields.named;
      var entries := DeriveToMap(input).value.entries;
      var assignments := DeriveFromMap(input).value.assignments;
      && |entries| == |assignments| == |fs|
      && forall i :: 0 <= i < |fs| ==>
        && entries[i] == Entry(fs[i].ident.value, fs[i].ident.value)
        && assignments[i] == Assignment(fs[i].ident.value, fs[i].ident.value, fs[i].ty.text)
        && AccessorNamed(fs[i].ty.text) == AccessorOf(s[fs[i].ident.value])
        && AccessorOf(s[fs[i].ident.value]).Some?
    ensures (set a | a in DeriveFromMap(input).value.assignments :: a.ident) == FieldNames(input.data.fields.named)
  {
    var fs := input.data.fields.named;
    forall i | 0 <= i < |fs|
      ensures Typecall(fs[i]).Ok? && Lowercase(fs[i].ty.text) == fs[i].ty.text
      ensures AccessorNamed(fs[i].ty.text) == AccessorOf(s[fs[i].ident.value]) && AccessorOf(s[fs[i].ident.value]).Some?
    {
      OfTypeAccessor(s[fs[i].ident.value], fs[i].ty.text);
    }
    ToMapSpec(input);
    FromMapSpec(input);
    AssignedNames(DeriveFromMap(input).value.assignments, fs);
  }

  /** The accessor named by a field type text is the one matching a value of that type. */
  lemma OfTypeAccessor(x: AnyValue, text: string)
    requires OfType(x, text)
    ensures Lowercase(text) == text && IsIdent(text)
    ensures AccessorNamed(text) == AccessorOf(x) && AccessorOf(x).Some?
  {
    PrimitiveTypecall(text);
  }

  /** Converting each value to a Value and back with the accessor of its type is the identity. */
  lemma {:induction false} RoundTripValues(entries: seq<Entry>, assignments: seq<Assignment>, s: Instance)
    requires |entries| == |assignments|
    requires forall i :: 0 <= i < |entries| ==>
      && entries[i].ident in s && entries[i].key == entries[i].ident
      && assignments[i].key == assignments[i].ident == entries[i].ident
      && AccessorNamed(assignments[i].typecall) == AccessorOf(s[entries[i].ident])
      && AccessorOf(s[entries[i].ident]).Some?
    requires forall i, j :: 0 <= i < j < |entries| ==> entries[i].ident != entries[j].ident
    ensures Compiles(assignments)
    ensures forall e :: e in entries ==> e.ident in s
    ensures forall i :: 0 <= i < |assignments| ==>
      var hashmap := MapOf(entries, s, New);
      Supplies(hashmap, assignments[i]) && Extracted(hashmap, assignments[i]) == s[assignments[i].ident]
  {
    forall a | a in assignments ensures AccessorNamed(a.typecall).Some? {
      var i :| 0 <= i < |assignments| && assignments[i] == a;
    }
    forall e | e in entries ensures e.ident in s {
      var i :| 0 <= i < |entries| && entries[i] == e;
    }
    var hashmap := MapOf(entries, s, New);
    MapOfEntries(entries, s, New);
    forall i | 0 <= i < |assignments|
      ensures Supplies(hashmap, assignments[i]) && Extracted(hashmap, assignments[i]) == s[assignments[i].ident]
    {
      assert forall j :: i < j < |entries| ==> entries[j].key != entries[i].key;
      assert entries[i] in entries;
      NewRoundTrip(s[entries[i].ident]);
    }
  }

  /** The round trip over the steps of the two derived implementations. */
  lemma RoundTripSteps(entries: seq<Entry>, assignments: seq<Assignment>, s: Instance, default: Instance)
    requires |entries| == |assignments|
    requires forall i :: 0 <= i < |entries| ==>
      && entries[i].ident in s && entries[i].key == entries[i].ident
      && assignments[i].key == assignments[i].ident == entries[i].ident
      && AccessorNamed(assignments[i].typecall) == AccessorOf(s[entries[i].ident])
      && AccessorOf(s[entries[i].ident]).Some?
    requires forall i, j :: 0 <= i < j < |entries| ==> entries[i].ident != entries[j].ident
    requires s.Keys == default.Keys == set a | a in assignments :: a.ident
    ensures forall e :: e in entries ==> e.ident in s
    ensures Compiles(assignments)
    ensures AssignAll(default, MapOf(entries, s, New), assignments) == Ok(s)
  {
    RoundTripValues(entries, assignments, s);
    AssignAllRestores(default, MapOf(entries, s, New), assignments, s);
  }

  /** Round trip: for a struct whose fields are of type bool, i64, u64 or f64 and carry no
      attribute, both derives succeed, and `from_genericmap(to_genericmap(s))` gives back
      `s`, whatever the default. */
  lemma RoundTrip(input: DeriveInput, s: Instance, default: Instance)
    requires RoundTrippable(input, s)
    requires s.Keys == default.Keys == FieldNames(input.data.fields.named)
    ensures DeriveToMap(input).Ok? && DeriveFromMap(input).Ok?
    ensures forall e :: e in DeriveToMap(input).value.entries ==> e.ident in s
    ensures Compiles(DeriveFromMap(input).value.assignments)
    ensures AssignAll(default, MapOf(DeriveToMap(input).value.entries, s, New), DeriveFromMap(input).value.assignments) == Ok(s)
  {
    RoundTripDerives(input, s);
    RoundTripSteps(DeriveToMap(input).value.entries, DeriveFromMap(input).value.assignments, s, default);
  }

  /** Assignments that follow the fields one for one assign exactly the field names. */
  lemma AssignedNames(assignments: seq<Assignment>, fs: seq<Field>)
    requires |assignments| == |fs|
    requires forall i :: 0 <= i < |fs| ==> fs[i].ident.Some? && assignments[i].ident == fs[i].ident.value
    ensures (set a | a in assignments :: a.ident) == FieldNames(fs)
  {
    forall k | k in FieldNames(fs) ensures k in set a | a in assignments :: a.ident {
      var i :| 0 <= i < |fs| && fs[i].ident.value == k;
      assert assignments[i] in assignments;
    }
    forall k | k in set a | a in assignments :: a.ident ensures k in FieldNames(fs) {
      var i :| 0 <= i < |assignments| && assignments[i].ident == k;
    }
  }

  /** When the map supplies every assigned field with its value in `s`, and the assigned
      fields are exactly the fields of `s` and of the default, `from_genericmap` yields `s`. */
  lemma AssignAllRestores(default: Instance, hashmap: map<string, Value>, assignments: seq<Assignment>, s: Instance)
    requires Compiles(assignments)
    requires DistinctAssigned(assignments)
    requires forall i :: 0 <= i < |assignments| ==>
      Supplies(hashmap, assignments[i]) && assignments[i].ident in s && Extracted(hashmap, assignments[i]) == s[assignments[i].ident]
    requires s.Keys == default.Keys == set a | a in assignments :: a.ident
    ensures AssignAll(default, hashmap, assignments) == Ok(s)
  {
    AssignAllOk(default, hashmap, assignments);
    AssignAllKeys(default, hashmap, assignments);
    SameFieldsSameValues(default, hashmap, assignments, s);
  }

  /** A successful `from_genericmap` over distinct fields whose every assigned value is the
      one in `s`, and whose result has the fields of `s`, returns `s` itself. */
  lemma SameFieldsSameValues(default: Instance, hashmap: map<string, Value>, assignments: seq<Assignment>, s: Instance)
    requires Compiles(assignments)
    requires DistinctAssigned(assignments)
    requires forall i :: 0 <= i < |assignments| ==>
      Supplies(hashmap, assignments[i]) && assignments[i].ident in s && Extracted(hashmap, assignments[i]) == s[assignments[i].ident]
    requires AssignAll(default, hashmap, assignments).Ok?
    requires s.Keys == AssignAll(default, hashmap, assignments).value.Keys == set a | a in assignments :: a.ident
    ensures AssignAll(default, hashmap, assignments) == Ok(s)
  {
    var r := AssignAll(default, hashmap, assignments).value;
    AssignAllAssigned(default, hashmap, assignments);
    forall k | k in r ensures r[k] == s[k] {
      assert k in set a | a in assignments :: a.ident;
      var i :| 0 <= i < |assignments| && assignments[i].ident == k;
      assert r[assignments[i].ident] == s[assignments[i].ident];
    }
    assert r == s;
  }

  /** `from_map` reads every field from the key that is its own name, while `to_map` stores
      a renamed field under its literal. So when a field is renamed and no rename literal
      is that field's name, the map `to_genericmap` builds lacks the key `from_genericmap`
      reads it from, and the round trip panics. */
  lemma RenamedFieldBreaksRoundTrip(input: DeriveInput, s: Instance, default: Instance, i: nat)
    requires input.data.Struct? && input.data.fields.Named?
    requires WellFormed(input.data.fields) && DistinctIdents(input.data.fields.named)
    requires DeriveToMap(input).Ok? && DeriveFromMap(input).Ok?
    requires forall e :: e in DeriveToMap(input).value.entries ==> e.ident in s
    requires Compiles(DeriveFromMap(input).value.assignments)
    requires var fs := input.data.fields.named;
      i < |fs| && fs[i].attrs != [] &&
      forall j :: 0 <= j < |fs| && fs[j].attrs != [] ==> !RenamesTo(fs[j].attrs[0], fs[i].ident.value)
    ensures var r := AssignAll(default, MapOf(DeriveToMap(input).value.entries, s, New), DeriveFromMap(input).value.assignments);
      r.Err?
  {
    RenamedKeyAbsent(input, i);
    AssignmentKey(input, i);
    UnsuppliedKeyPanics(default, DeriveToMap(input).value.entries, s, DeriveFromMap(input).value.assignments, i);
  }

  /** `from_map` reads field i of a named struct from the key that is its own name. */
  lemma AssignmentKey(input: DeriveInput, i: nat)
    requires input.data.Struct? && input.data.fields.Named? && WellFormed(input.data.fields)
    requires DeriveFromMap(input).Ok? && i < |input.data.fields.named|
    ensures i < |DeriveFromMap(input).value.assignments|
    ensures DeriveFromMap(input).value.assignments[i].key == input.data.fields.named[i].ident.value
  {
    FromMapSpec(input);
  }

  /** The entries `to_map` derives from fields with distinct names never use as a key the
      name of a renamed field that no rename literal repeats. */
  lemma RenamedKeyAbsent(input: DeriveInput, i: nat)
    requires input.data.Struct? && input.data.fields.Named?
    requires WellFormed(input.data.fields) && DistinctIdents(input.data.fields.named)
    requires DeriveToMap(input).Ok?
    requires var fs := input.data.fields.named;
      i < |fs| && fs[i].attrs != [] &&
      forall j :: 0 <= j < |fs| && fs[j].attrs != [] ==> !RenamesTo(fs[j].attrs[0], fs[i].ident.value)
    ensures forall e :: e in DeriveToMap(input).value.entries ==> e.key != input.data.fields.named[i].ident.value
  {
    var fs := input.data.fields.named;
    var entries := DeriveToMap(input).value.entries;
    ToMapSpec(input);
    forall e | e in entries ensures e.key != fs[i].ident.value {
      var j :| 0 <= j < |entries| && entries[j] == e;
      if fs[j].attrs == [] {
        if j < i { assert fs[j].ident != fs[i].ident; } else { assert fs[i].ident != fs[j].ident; }
      }
    }
  }

  /** `from_genericmap` over a map `to_genericmap` built without the key of assignment `i`
      panics, and at that key when the assignment is the first. */
  lemma UnsuppliedKeyPanics(default: Instance, entries: seq<Entry>, s: Instance, assignments: seq<Assignment>, i: nat)
    requires forall e :: e in entries ==> e.ident in s
    requires Compiles(assignments)
    requires i < |assignments| && forall e :: e in entries ==> e.key != assignments[i].key
    ensures var r := AssignAll(default, MapOf(entries, s, New), assignments);
      r.Err? && (i == 0 ==> r == Err(MissingKey(assignments[0].key)))
  {
    var hashmap := MapOf(entries, s, New);
    MapOfEntries(entries, s, New);
    assert assignments[i].key !in hashmap;
    AssignAllOk(default, hashmap, assignments);
  }

  /** For `struct S { #[rename(name = "b")] a: i64 }` the round trip panics at key `a`. */
  lemma RenamedFieldExample()
    ensures var attr := Attribute(Some(MetaList(Path(false, [PathSegment("rename", false)]),
                          [NestedMeta(MetaNameValue(NamePath, Str("b")))])));
      var input := DeriveInput("S", Struct(Named([Field(Some("a"), TypePath("i64"), [attr])])));
      var s: Instance := map["a" := I64Val(7)];
      && DeriveToMap(input) == Ok(ToMapImpl("S", [Entry("b", "a")]))
      && DeriveFromMap(input) == Ok(FromMapImpl("S", [Assignment("a", "a", "i64")]))
      && MapOf([Entry("b", "a")], s, New) == map["b" := Number(I64(7))]
      && AssignAll(s, map["b" := Number(I64(7))], [Assignment("a", "a", "i64")]) == Err(MissingKey("a"))
  {
    var attr := Attribute(Some(MetaList(Path(false, [PathSegment("rename", false)]),
                  [NestedMeta(MetaNameValue(NamePath, Str("b")))])));
    var field := Field(Some("a"), TypePath("i64"), [attr]);
    var input := DeriveInput("S", Struct(Named([field])));
    assert [field][1..] == [];
    assert RenameOf(attr) == Ok("b");
    assert [attr][1..] == [];
    assert RenameAttrs(map["a" := "b"], field, []) == Ok(map["a" := "b"]);
    assert RenameAttrs(map[], field, [attr]) == Ok(map["a" := "b"]);
    assert RenameFields(map["a" := "b"], []) == Ok(map["a" := "b"]);
    assert RenameMap(Named([field])) == Ok(map["a" := "b"]);
    assert Idents([field]) == ["a"];
    assert Entries(["a"], map["a" := "b"]) == [Entry("b", "a")];
    PrimitiveTypecall("i64");
    assert Typecall(field) == Ok("i64");
    assert Typecalls([]) == Ok([]);
    assert ["i64"] + [] == ["i64"];
    assert Typecalls([field]) == Ok(["i64"]);
    assert Zip(["a"], ["i64"]) == [Assignment("a", "a", "i64")];
  }

  /** A `String` field yields the accessor name `string`, which Value does not have
      (its accessor is spelled `String`), so the derived `from_genericmap` does not compile. */
  lemma StringFieldDoesNotCompile(input: DeriveInput, i: nat)
    requires input.data.Struct? && input.data.fields.Named? && WellFormed(input.data.fields)
    requires i < |input.data.fields.named| && input.data.fields.named[i].ty == TypePath("String")
    requires DeriveFromMap(input).Ok?
    ensures !Compiles(DeriveFromMap(input).value.assignments)
  {
    FromMapSpec(input);
    TypecallResolution();
    assert DeriveFromMap(input).value.assignments[i].typecall == "string";
  }
}
