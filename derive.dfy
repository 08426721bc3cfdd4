/** The derivation logic of the `FromMap` and `ToMap` procedural macros
    (structmap-derive/src/lib.rs): rename attributes, map keys, field names and
    the accessor each field is read with. What a derivation yields is the list of
    per-field steps its generated code performs (module Generated gives them meaning). */
module Derive {
  import opened Wrappers
  import opened Syn
  import opened Values

  /** The panics that abort a derivation. */
  datatype DeriveError =
    | NotAStruct        // "Implementation must be a struct"
    | NotNamedFields    // "Must have named fields"
    | RenameRedefined   // "Cannot redefine field name multiple times"
    | MalformedRename   // "Must be `#[rename(name = 'VALUE')]`"
    | NonIdentPath      // `get_ident().unwrap()` on a path that is not one identifier
    | MissingIdent      // `field.ident.as_ref().unwrap()` on a field without a name
    | UnsupportedType   // `unimplemented!()` on a field type that is not a path
    | InvalidTypeIdent  // `Ident::new` on lower-cased type text that is no identifier

  /** One step of a generated `from_genericmap`: read `key`, convert with accessor `typecall`, store in field `ident`. */
  datatype Assignment = Assignment(key: string, ident: string, typecall: string)

  /** The derived `FromMap` implementation for the struct `name`. */
  datatype FromMapImpl = FromMapImpl(name: string, assignments: seq<Assignment>)

  /** One insert of a generated `to_genericmap`/`to_stringmap`: field `ident` under `key`. */
  datatype Entry = Entry(key: string, ident: string)

  /** The derived `ToMap` implementation for the struct `name`. */
  datatype ToMapImpl = ToMapImpl(name: string, entries: seq<Entry>)

  // ---------------------------------------------------------------------------
  // Rename attributes

  /** The path `name` as it appears in `#[rename(name = "...")]`. */
  const NamePath := Path(false, [PathSegment("name", false)])

  /** The attribute has the accepted rename shape `#[_(name = "lit", ...)]`: a list whose
      first item is the name-value pair `name = "lit"` (the attribute's own path and any
      further items are not looked at). */
  predicate RenamesTo(attr: Attribute, lit: string)
  {
    && attr.parsed.Some?
    && attr.parsed.value.MetaList?
    && |attr.parsed.value.nested| > 0
    && attr.parsed.value.nested[0] == NestedMeta(MetaNameValue(NamePath, Str(lit)))
  }

  /** The checks `parse_rename_attrs` makes of one attribute, giving the new key. */
  function RenameOf(attr: Attribute): (r: Result<string, DeriveError>)
    ensures forall lit {:trigger RenamesTo(attr, lit)} :: r == Ok(lit) <==> RenamesTo(attr, lit)
    ensures r.Err? ==> r.error == MalformedRename || r.error == NonIdentPath
  {
    match attr.parsed
    case Some(MetaList(_, nested)) =>
      if |nested| == 0 then Err(MalformedRename)
      else (
        match nested[0]
        case NestedMeta(MetaNameValue(path, lit)) =>
          if path.GetIdent().None? then Err(NonIdentPath)
          else if path.GetIdent().value != "name" then Err(MalformedRename)
          else if lit.Str? then assert path.segments == [path.segments[0]]; Ok(lit.value)
          else Err(MalformedRename)
        case _ => Err(MalformedRename))
    case _ => Err(MalformedRename)
  }

  /** The inner loop of `parse_rename_attrs` over the attributes `attrs` of field `f`. */
  function RenameAttrs(rename: map<string, string>, f: Field, attrs: seq<Attribute>): Result<map<string, string>, DeriveError>
    decreases |attrs|
  {
    if attrs == [] then Ok(rename)
    else if f.ident.None? then Err(MissingIdent)
    else if f.ident.value in rename then Err(RenameRedefined)
    else match RenameOf(attrs[0])
      case Err(e) => Err(e)
      case Ok(lit) => RenameAttrs(rename[f.ident.value := lit], f, attrs[1..])
  }

  /** The outer loop of `parse_rename_attrs` over the fields `fs`. */
  function RenameFields(rename: map<string, string>, fs: seq<Field>): Result<map<string, string>, DeriveError>
    decreases |fs|
  {
    if fs == [] then Ok(rename)
    else match RenameAttrs(rename, fs[0], fs[0].attrs)
      case Err(e) => Err(e)
      case Ok(r) => RenameFields(r, fs[1..])
  }

  /** What `parse_rename_attrs` returns: the rename map of named fields, or its panic. */
  function RenameMap(fields: Fields): Result<map<string, string>, DeriveError>
  {
    if fields.Named? then RenameFields(map[], fields.named) else Err(NotNamedFields)
  }

  /** `parse_rename_attrs`: fills a map from field name to new key, attribute by attribute. */
  method ParseRenameAttrs(fields: Fields) returns (r: Result<map<string, string>, DeriveError>)
    ensures r == RenameMap(fields)
  {
    if !fields.Named? {
      return Err(NotNamedFields);
    }
    var fs := fields.named;
    var rename: map<string, string> := map[];
    var i := 0;
    while i < |fs|
      invariant 0 <= i <= |fs|
      invariant RenameMap(fields) == RenameFields(rename, fs[i..])
    {
      var field := fs[i];
      ghost var before := rename;
      var j := 0;
      while j < |field.attrs|
        invariant 0 <= j <= |field.attrs|
        invariant RenameAttrs(before, field, field.attrs) == RenameAttrs(rename, field, field.attrs[j..])
      {
        var attr := field.attrs[j];
        if field.ident.None? {
          return Err(MissingIdent);
        }
        var fieldName := field.ident.value;
        if fieldName in rename {
          return Err(RenameRedefined);
        }
        var lit := RenameOf(attr);
        if lit.Err? {
          return Err(lit.error);
        }
        rename := rename[fieldName := lit.value];
        assert field.attrs[j..][1..] == field.attrs[j + 1..];
        j := j + 1;
      }
      assert field.attrs[j..] == [];
      assert fs[i..][1..] == fs[i + 1..];
      i := i + 1;
    }
    return Ok(rename);
  }

  /** The fields of `fs` that carry at least one attribute and a name. */
  ghost predicate Attributed(fs: seq<Field>, i: int)
  {
    0 <= i < |fs| && fs[i].attrs != [] && fs[i].ident.Some?
  }

  /** One field's attributes are accepted exactly when there are none, or there is one,
      of the rename shape, on a named field not renamed before; a second attribute on a
      renamed field is an error, never an overwrite. */
  lemma {:induction false} RenameAttrsShape(rename: map<string, string>, f: Field)
    ensures RenameAttrs(rename, f, f.attrs).Ok? <==>
      f.attrs == [] || (|f.attrs| == 1 && f.ident.Some? && f.ident.value !in rename && RenameOf(f.attrs[0]).Ok?)
    ensures RenameAttrs(rename, f, f.attrs).Ok? && f.attrs != [] ==>
      RenameAttrs(rename, f, f.attrs).value == rename[f.ident.value := RenameOf(f.attrs[0]).value]
    ensures RenameAttrs(rename, f, f.attrs).Ok? && f.attrs == [] ==> RenameAttrs(rename, f, f.attrs).value == rename
  {
    var attrs := f.attrs;
    if attrs != [] && f.ident.Some? && f.ident.value !in rename && RenameOf(attrs[0]).Ok? {
      var next := rename[f.ident.value := RenameOf(attrs[0]).value];
      assert RenameAttrs(rename, f, attrs) == RenameAttrs(next, f, attrs[1..]);
      if |attrs| > 1 {
        assert RenameAttrs(next, f, attrs[1..]) == Err(RenameRedefined);
      }
    }
  }

  /** What an accepted rename map holds: every attributed field has exactly one attribute,
      of the rename shape, and the map sends its name to that attribute's literal; the keys
      are the names of attributed fields, added to those already present. */
  lemma {:induction false} RenameFieldsOk(rename: map<string, string>, fs: seq<Field>)
    requires RenameFields(rename, fs).Ok?
    ensures forall i :: 0 <= i < |fs| && fs[i].attrs != [] ==>
      |fs[i].attrs| == 1 && fs[i].ident.Some? && RenameOf(fs[i].attrs[0]).Ok?
    ensures forall i :: Attributed(fs, i) ==>
      var m := RenameFields(rename, fs).value;
      fs[i].ident.value !in rename && fs[i].ident.value in m && m[fs[i].ident.value] == RenameOf(fs[i].attrs[0]).value
    ensures forall k :: k in RenameFields(rename, fs).value <==>
      k in rename || exists i :: Attributed(fs, i) && fs[i].ident.value == k
    ensures forall k :: k in rename ==> RenameFields(rename, fs).value[k] == rename[k]
    decreases |fs|
  {
    if fs != [] {
      var f := fs[0];
      RenameAttrsShape(rename, f);
      var next := RenameAttrs(rename, f, f.attrs).value;
      assert RenameFields(rename, fs) == RenameFields(next, fs[1..]);
      RenameFieldsOk(next, fs[1..]);
      var m := RenameFields(rename, fs).value;
      forall i | 0 <= i < |fs| && fs[i].attrs != []
        ensures |fs[i].attrs| == 1 && fs[i].ident.Some? && RenameOf(fs[i].attrs[0]).Ok?
      {
        if i > 0 { assert fs[1..][i - 1] == fs[i]; }
      }
      forall i | Attributed(fs, i)
        ensures fs[i].ident.value !in rename && fs[i].ident.value in m && m[fs[i].ident.value] == RenameOf(fs[i].attrs[0]).value
      {
        if i > 0 { assert Attributed(fs[1..], i - 1); }
      }
      forall k
        ensures k in m <==> k in rename || exists i :: Attributed(fs, i) && fs[i].ident.value == k
      {
        if k in m && k !in rename {
          if k in next {
            assert Attributed(fs, 0) && fs[0].ident.value == k;
          } else {
            var i :| Attributed(fs[1..], i) && fs[1..][i].ident.value == k;
            assert Attributed(fs, i + 1);
          }
        }
        if exists i :: Attributed(fs, i) && fs[i].ident.value == k {
          var i :| Attributed(fs, i) && fs[i].ident.value == k;
          if i > 0 { assert Attributed(fs[1..], i - 1); }
        }
      }
    }
  }

  /** Conversely, fields with distinct names that each carry no attribute or one
      well-formed rename attribute are accepted. */
  lemma {:induction false} RenameFieldsAccepts(rename: map<string, string>, fs: seq<Field>)
    requires DistinctIdents(fs)
    requires forall i :: 0 <= i < |fs| && fs[i].attrs != [] ==>
      |fs[i].attrs| == 1 && fs[i].ident.Some? && fs[i].ident.value !in rename && RenameOf(fs[i].attrs[0]).Ok?
    ensures RenameFields(rename, fs).Ok?
    decreases |fs|
  {
    if fs != [] {
      var f := fs[0];
      RenameAttrsShape(rename, f);
      var next := RenameAttrs(rename, f, f.attrs).value;
      forall i | 0 <= i < |fs[1..]| && fs[1..][i].attrs != []
        ensures |fs[1..][i].attrs| == 1 && fs[1..][i].ident.Some? && fs[1..][i].ident.value !in next
          && RenameOf(fs[1..][i].attrs[0]).Ok?
      {
        assert fs[1..][i] == fs[i + 1];
      }
      RenameFieldsAccepts(next, fs[1..]);
    }
  }

  /** `parse_rename_attrs` accepts a struct with distinct named fields exactly when every
      field carries no attribute or a single attribute of the rename shape, and then maps
      each renamed field to its literal and nothing else; any other input is a panic. */
  lemma RenameMapSpec(fields: Fields)
    requires WellFormed(fields) && DistinctIdents(fields.Iter())
    ensures !fields.Named? ==> RenameMap(fields) == Err(NotNamedFields)
    ensures RenameMap(fields).Ok? <==> (fields.Named? &&
      forall i :: 0 <= i < |fields.named| ==>
        var f := fields.named[i];
        f.attrs == [] || (|f.attrs| == 1 && RenameOf(f.attrs[0]).Ok?))
    ensures RenameMap(fields).Ok? ==>
      forall i :: 0 <= i < |fields.named| ==>
        var f := fields.named[i]; var m := RenameMap(fields).value;
        (f.attrs == [] ==> f.ident.value !in m) &&
        (f.attrs != [] ==> f.ident.value in m && RenamesTo(f.attrs[0], m[f.ident.value]))
    ensures RenameMap(fields).Ok? ==>
      forall k :: k in RenameMap(fields).value ==>
        exists i :: 0 <= i < |fields.named| && fields.named[i].attrs != [] && fields.named[i].ident == Some(k)
  {
    if fields.Named? {
      var fs := fields.named;
      if RenameMap(fields).Ok? {
        RenameFieldsOk(map[], fs);
        var m := RenameMap(fields).value;
        forall i | 0 <= i < |fs| && fs[i].attrs == []
          ensures fs[i].ident.value !in m
        {
        }
      } else if forall i :: 0 <= i < |fs| ==> fs[i].attrs == [] || (|fs[i].attrs| == 1 && RenameOf(fs[i].attrs[0]).Ok?) {
        RenameFieldsAccepts(map[], fs);
      }
    }
  }

  // ---------------------------------------------------------------------------
  // Field names and accessor names

  /** The field names, in order, skipping fields without one (`filter_map` over `field.ident`). */
  function Idents(fs: seq<Field>): (r: seq<string>)
    ensures |r| <= |fs|
    ensures (forall i :: 0 <= i < |fs| ==> fs[i].ident.Some?) ==>
      |r| == |fs| && forall i :: 0 <= i < |fs| ==> r[i] == fs[i].ident.value
    ensures (forall i :: 0 <= i < |fs| ==> fs[i].ident.None?) ==> r == []
  {
    if fs == [] then []
    else (if fs[0].ident.Some? then [fs[0].ident.value] else []) + Idents(fs[1..])
  }

  /** ASCII lower-casing of one character (`str::to_lowercase` on ASCII). */
  function LowerChar(c: char): char
  {
    if 'A' <= c <= 'Z' then (c as int + 32) as char else c
  }

  /** `str::to_lowercase`, on ASCII text. */
  function Lowercase(s: string): string
  {
    if s == [] then [] else [LowerChar(s[0])] + Lowercase(s[1..])
  }

  predicate IsIdentStart(c: char)
  {
    'a' <= c <= 'z' || 'A' <= c <= 'Z' || c == '_'
  }

  /** Text `Ident::new` accepts: a letter or `_` followed by letters, digits and `_`. */
  predicate IsIdent(s: string)
  {
    |s| > 0 && IsIdentStart(s[0]) && forall i :: 1 <= i < |s| ==> IsIdentStart(s[i]) || '0' <= s[i] <= '9'
  }

  /** The accessor name `from_map` derives for a field: its path-type text, lower-cased. */
  function Typecall(f: Field): (r: Result<string, DeriveError>)
    ensures f.ty.TypeOther? ==> r == Err(UnsupportedType)
    ensures r.Ok? ==> f.ty.TypePath? && r.value == Lowercase(f.ty.text) && IsIdent(r.value)
    ensures f.ty.TypePath? && IsIdent(Lowercase(f.ty.text)) ==> r.Ok?
  {
    match f.ty
    case TypeOther => Err(UnsupportedType)
    case TypePath(text) =>
      var name := Lowercase(text);
      if IsIdent(name) then Ok(name) else Err(InvalidTypeIdent)
  }

  /** The accessor names of all fields, in order, or the first field's panic. */
  function Typecalls(fs: seq<Field>): (r: Result<seq<string>, DeriveError>)
    ensures r.Ok? <==> forall i :: 0 <= i < |fs| ==> Typecall(fs[i]).Ok?
    ensures r.Ok? ==> |r.value| == |fs| && forall i :: 0 <= i < |fs| ==> r.value[i] == Typecall(fs[i]).value
  {
    if fs == [] then Ok([])
    else match Typecall(fs[0])
      case Err(e) => Err(e)
      case Ok(t) =>
        match Typecalls(fs[1..])
        case Err(e) => Err(e)
        case Ok(ts) => Ok([t] + ts)
  }

  /** How the accessor name derived from a field type resolves against Value's methods:
      `bool`, `i64`, `u64`, `f64` name their accessors, but `String` lower-cases to
      `string`, which names none. */
  lemma PrimitiveTypecall(t: string)
    requires t in {"bool", "i64", "u64", "f64"}
    ensures Lowercase(t) == t && IsIdent(t) && AccessorNamed(t).Some?
  {
  }

  lemma TypecallResolution()
    ensures AccessorNamed(Lowercase("bool")) == Some(BoolAccessor)
    ensures AccessorNamed(Lowercase("i64")) == Some(I64Accessor)
    ensures AccessorNamed(Lowercase("u64")) == Some(U64Accessor)
    ensures AccessorNamed(Lowercase("f64")) == Some(F64Accessor)
    ensures Lowercase("String") == "string" && AccessorNamed(Lowercase("String")) == None
  {
  }

  // ---------------------------------------------------------------------------
  // The two derivations

  /** Pairs the names with the accessor names, stopping at the shorter list, as a
      `#(...)*` repetition over several lists does. Each key is the field's own name. */
  function Zip(idents: seq<string>, typecalls: seq<string>): (r: seq<Assignment>)
    ensures |r| <= |idents| && |r| <= |typecalls|
    ensures |r| == |idents| || |r| == |typecalls|
    ensures forall i :: 0 <= i < |r| ==>
      r[i].key == idents[i] && r[i].ident == idents[i] && r[i].typecall == typecalls[i]
  {
    var n := if |idents| <= |typecalls| then |idents| else |typecalls|;
    seq(n, i requires 0 <= i < n => Assignment(idents[i], idents[i], typecalls[i]))
  }

  /** `from_map`: rejects enums and unions, then derives one assignment per named field. */
  function DeriveFromMap(input: DeriveInput): (r: Result<FromMapImpl, DeriveError>)
    ensures !input.data.Struct? ==> r == Err(NotAStruct)
    ensures r.Ok? ==> r.value.name == input.ident
  {
    match input.data
    case Struct(fields) =>
      var idents := Idents(fields.Iter());
      (match Typecalls(fields.Iter())
       case Err(e) => Err(e)
       case Ok(typecalls) => Ok(FromMapImpl(input.ident, Zip(idents, typecalls))))
    case _ => Err(NotAStruct)
  }

  /** `from_map` succeeds on a struct exactly when every field's type is a path whose
      lower-cased text is an identifier. For named fields it then reads field i from
      the key that is the field's own name (rename attributes are ignored) with the
      accessor named by its lower-cased type; a tuple or unit struct gets no assignment. */
  lemma {:induction false} FromMapSpec(input: DeriveInput)
    requires input.data.Struct? && WellFormed(input.data.fields)
    ensures var fs := input.data.fields.Iter();
      DeriveFromMap(input).Ok? <==> forall i :: 0 <= i < |fs| ==> Typecall(fs[i]).Ok?
    ensures DeriveFromMap(input).Ok? && input.data.fields.Named? ==>
      var fs := input.data.fields.named; var a := DeriveFromMap(input).value.assignments;
      |a| == |fs| &&
      forall i :: 0 <= i < |fs| ==>
        a[i] == Assignment(fs[i].ident.value, fs[i].ident.value, Lowercase(fs[i].ty.text))
    ensures DeriveFromMap(input).Ok? && !input.data.fields.Named? ==>
      DeriveFromMap(input).value.assignments == []
  {
    var fields := input.data.fields;
    var fs := fields.Iter();
    if Typecalls(fs).Ok? {
      var ts := Typecalls(fs).value;
      var idents := Idents(fs);
      assert DeriveFromMap(input) == Ok(FromMapImpl(input.ident, Zip(idents, ts)));
      if fields.Named? {
        forall i | 0 <= i < |fs|
          ensures Zip(idents, ts)[i] == Assignment(fs[i].ident.value, fs[i].ident.value, Lowercase(fs[i].ty.text))
        {
          assert ts[i] == Typecall(fs[i]).value;
        }
      }
    }
  }

  /** Pairs each field name with its effective key: its rename, if it has one, else itself.
      One entry per name, in order; without renames every key is its field's name. */
  function Entries(idents: seq<string>, rename: map<string, string>): (r: seq<Entry>)
    ensures |r| == |idents|
    ensures forall i :: 0 <= i < |r| ==> r[i].ident == idents[i]
    ensures forall i :: 0 <= i < |r| && idents[i] in rename ==> r[i].key == rename[idents[i]]
    ensures forall i :: 0 <= i < |r| && idents[i] !in rename ==> r[i].key == idents[i]
    ensures rename == map[] ==> forall i :: 0 <= i < |r| ==> r[i].key == r[i].ident
  {
    seq(|idents|, i requires 0 <= i < |idents| =>
      Entry(if idents[i] in rename then rename[idents[i]] else idents[i], idents[i]))
  }

  /** `to_map`: rejects non-structs, builds the rename map (which rejects tuple and unit
      structs) and derives one entry per named field. */
  function DeriveToMap(input: DeriveInput): (r: Result<ToMapImpl, DeriveError>)
    ensures !input.data.Struct? ==> r == Err(NotAStruct)
    ensures input.data.Struct? && !input.data.fields.Named? ==> r == Err(NotNamedFields)
    ensures r.Ok? ==> r.value.name == input.ident
  {
    match input.data
    case Struct(fields) =>
      (match RenameMap(fields)
       case Err(e) => Err(e)
       case Ok(rename) => Ok(ToMapImpl(input.ident, Entries(Idents(fields.Iter()), rename))))
    case _ => Err(NotAStruct)
  }

  /** `to_map` on a struct with distinct field names succeeds exactly when the fields are
      named and each carries no attribute or one rename attribute. Its entries then follow
      the fields in number and order: entry i stores field i, under the field's own name
      if it has no attribute, else under the literal of its rename attribute. */
  lemma ToMapSpec(input: DeriveInput)
    requires input.data.Struct? && WellFormed(input.data.fields) && DistinctIdents(input.data.fields.Iter())
    ensures DeriveToMap(input).Ok? <==> (input.data.fields.Named? &&
      forall i :: 0 <= i < |input.data.fields.named| ==>
        var f := input.data.fields.named[i];
        f.attrs == [] || (|f.attrs| == 1 && RenameOf(f.attrs[0]).Ok?))
    ensures DeriveToMap(input).Ok? ==>
      var fs := input.data.fields.named; var e := DeriveToMap(input).value.entries;
      |e| == |fs| &&
      forall i :: 0 <= i < |fs| ==>
        && e[i].ident == fs[i].ident.value
        && (fs[i].attrs == [] ==> e[i].key == fs[i].ident.value)
        && (fs[i].attrs != [] ==> RenamesTo(fs[i].attrs[0], e[i].key))
  {
    RenameMapSpec(input.data.fields);
  }

  /** `/// text` on a field is the attribute `doc = "text"`, which is not a list, so `to_map`
      rejects any struct whose fields carry one, in whatever position. When no earlier field
      carries an attribute, the panic is the malformed-rename one if the doc comment comes
      first, and "Cannot redefine field name multiple times" if it follows a rename. */
  lemma DocCommentRejected(input: DeriveInput, i: nat, j: nat, text: string)
    requires input.data.Struct? && input.data.fields.Named?
    requires i < |input.data.fields.named|
    requires var f := input.data.fields.named[i];
      j < |f.attrs| && f.attrs[j].parsed == Some(MetaNameValue(Path(false, [PathSegment("doc", false)]), Str(text)))
    ensures DeriveToMap(input).Err?
    ensures DeriveToMap(input).error in {MalformedRename, RenameRedefined, MissingIdent, NonIdentPath}
    ensures var fs := input.data.fields.named;
      (forall k :: 0 <= k < i ==> fs[k].attrs == []) && fs[i].ident.Some? && j == 0 ==>
        DeriveToMap(input) == Err(MalformedRename)
    ensures var fs := input.data.fields.named;
      (forall k :: 0 <= k < i ==> fs[k].attrs == []) && fs[i].ident.Some? && j == 1 && RenameOf(fs[i].attrs[0]).Ok? ==>
        DeriveToMap(input) == Err(RenameRedefined)
  {
    var fs := input.data.fields.named;
    var f := fs[i];
    RenameFieldsRejects(map[], fs, i);
    if (forall k :: 0 <= k < i ==> fs[k].attrs == []) && f.ident.Some? {
      RenameFieldsSkip(map[], fs, i);
      assert fs[i..][0] == f;
      if j == 0 {
        assert RenameFields(map[], fs[i..]) == Err(MalformedRename);
      } else if j == 1 && RenameOf(f.attrs[0]).Ok? {
        var next := map[f.ident.value := RenameOf(f.attrs[0]).value];
        assert RenameAttrs(map[], f, f.attrs) == RenameAttrs(next, f, f.attrs[1..]);
        assert RenameFields(map[], fs[i..]) == Err(RenameRedefined);
      }
    }
  }

  /** Fields without attributes leave the rename map as it is. */
  lemma {:induction false} RenameFieldsSkip(rename: map<string, string>, fs: seq<Field>, i: nat)
    requires i <= |fs| && forall k :: 0 <= k < i ==> fs[k].attrs == []
    ensures RenameFields(rename, fs) == RenameFields(rename, fs[i..])
    decreases i
  {
    if i > 0 {
      assert RenameFields(rename, fs) == RenameFields(rename, fs[1..]);
      assert fs[1..][i - 1..] == fs[i..];
      RenameFieldsSkip(rename, fs[1..], i - 1);
    }
  }

  /** The rename map of fields one of which has an attribute that is not an accepted
      rename (or has more than one attribute) is a panic. */
  lemma {:induction false} RenameFieldsRejects(rename: map<string, string>, fs: seq<Field>, i: nat)
    requires i < |fs| && fs[i].attrs != [] && (|fs[i].attrs| > 1 || RenameOf(fs[i].attrs[0]).Err?)
    ensures RenameFields(rename, fs).Err?
    ensures RenameFields(rename, fs).error in {MalformedRename, RenameRedefined, MissingIdent, NonIdentPath}
    decreases |fs|
  {
    RenameAttrsShape(rename, fs[0]);
    RenameAttrsErrors(rename, fs[0], fs[0].attrs);
    if RenameAttrs(rename, fs[0], fs[0].attrs).Ok? {
      assert i > 0 && fs[1..][i - 1] == fs[i];
      RenameFieldsRejects(RenameAttrs(rename, fs[0], fs[0].attrs).value, fs[1..], i - 1);
    }
  }

  /** The panics `parse_rename_attrs` can raise inside its attribute loop. */
  lemma {:induction false} RenameAttrsErrors(rename: map<string, string>, f: Field, attrs: seq<Attribute>)
    ensures RenameAttrs(rename, f, attrs).Err? ==>
      RenameAttrs(rename, f, attrs).error in {MalformedRename, RenameRedefined, MissingIdent, NonIdentPath}
    decreases |attrs|
  {
    if attrs != [] && f.ident.Some? && f.ident.value !in rename && RenameOf(attrs[0]).Ok? {
      RenameAttrsErrors(rename[f.ident.value := RenameOf(attrs[0]).value], f, attrs[1..]);
    }
  }
}
