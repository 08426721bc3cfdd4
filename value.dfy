/** The heterogeneous map value of structmap (src/value.rs): the closed `Value`
    variant, its type-driven constructor `Value::new` and its five typed accessors. */
module Values {
  import opened Wrappers

  /** Rust's i64. */
  newtype Int64 = x: int | -0x8000_0000_0000_0000 <= x < 0x8000_0000_0000_0000

  /** Rust's u64. */
  newtype UInt64 = x: int | 0 <= x < 0x1_0000_0000_0000_0000

  /** Rust's f64, kept opaque: its IEEE-754 bit pattern, never computed with. */
  datatype Float64 = Float64(bits: bv64)

  /** The numeric primitives a Value can hold. */
  datatype Num = I64(i: Int64) | U64(u: UInt64) | F64(f: Float64)

  /** The closed value variant stored in a GenericMap. */
  datatype Value =
    | Null
    | Bool(b: bool)
    | Number(n: Num)      // `Value::Num` in the source
    | String(s: string)
    | Array(elems: seq<Value>)

  /** A Rust value handed to `Value::new`, tagged by its concrete type. The source
      asks `std::any::Any` for the type at run time; here the caller's type is the tag. */
  datatype AnyValue =
    | BoolVal(b: bool)
    | I64Val(i: Int64)
    | U64Val(u: UInt64)
    | F64Val(f: Float64)
    | StrRefVal(s: string)          // &'static str
    | StringVal(s: string)          // String
    | ValueVecVal(elems: seq<Value>) // Vec<Value>
    | OtherVal(typeName: string)    // any other 'static type; its payload is irrelevant

  /** `Value::new`: tries the supported types in a fixed order and falls back to Null, so
      Null comes exactly from the unsupported types and both string types give the same
      String value. */
  function New(x: AnyValue): (v: Value)
    ensures v == Null <==> x.OtherVal?
    ensures x.StrRefVal? || x.StringVal? ==> v == String(x.s)
    ensures v.String? <==> x.StrRefVal? || x.StringVal?
    ensures v.Array? <==> x.ValueVecVal?
  {
    if x.BoolVal? then Bool(x.b)
    else if x.I64Val? then Number(I64(x.i))
    else if x.U64Val? then Number(U64(x.u))
    else if x.F64Val? then Number(F64(x.f))
    else if x.StrRefVal? then String(x.s)
    else if x.StringVal? then String(x.s)
    else if x.ValueVecVal? then Array(x.elems)
    else Null
  }

  /** `Value::bool` */
  function GetBool(v: Value): (r: Option<bool>)
    ensures r.Some? <==> v.Bool?
    ensures r.Some? ==> v == Bool(r.value)
  {
    match v
    case Bool(b) => Some(b)
    case _ => None
  }

  /** `Value::i64` */
  function GetI64(v: Value): (r: Option<Int64>)
    ensures r.Some? <==> v.Number? && v.n.I64?
    ensures r.Some? ==> v == Number(I64(r.value))
  {
    match v
    case Number(I64(i)) => Some(i)
    case _ => None
  }

  /** `Value::u64` */
  function GetU64(v: Value): (r: Option<UInt64>)
    ensures r.Some? <==> v.Number? && v.n.U64?
    ensures r.Some? ==> v == Number(U64(r.value))
  {
    match v
    case Number(U64(u)) => Some(u)
    case _ => None
  }

  /** `Value::f64` */
  function GetF64(v: Value): (r: Option<Float64>)
    ensures r.Some? <==> v.Number? && v.n.F64?
    ensures r.Some? ==> v == Number(F64(r.value))
  {
    match v
    case Number(F64(f)) => Some(f)
    case _ => None
  }

  /** `Value::String` (spelled with a capital S in the source) */
  function GetString(v: Value): (r: Option<string>)
    ensures r.Some? <==> v.String?
    ensures r.Some? ==> v == String(r.value)
  {
    match v
    case String(s) => Some(s)
    case _ => None
  }

  /** The five accessor methods of Value, named so generated code can call them. */
  datatype Accessor = BoolAccessor | I64Accessor | U64Accessor | F64Accessor | StringAccessor

  /** The accessor a method-call expression `value.<name>()` resolves to, if any:
      method names are matched exactly, so `string` names none. */
  function AccessorNamed(name: string): (r: Option<Accessor>)
    ensures r.Some? <==> name in {"bool", "i64", "u64", "f64", "String"}
    ensures r == Some(StringAccessor) <==> name == "String"
  {
    if name == "bool" then Some(BoolAccessor)
    else if name == "i64" then Some(I64Accessor)
    else if name == "u64" then Some(U64Accessor)
    else if name == "f64" then Some(F64Accessor)
    else if name == "String" then Some(StringAccessor)
    else None
  }

  /** Calls an accessor and gives back its payload as the Rust value it returns. */
  function Call(a: Accessor, v: Value): Option<AnyValue>
  {
    match a
    case BoolAccessor => if GetBool(v).Some? then Some(BoolVal(GetBool(v).value)) else None
    case I64Accessor => if GetI64(v).Some? then Some(I64Val(GetI64(v).value)) else None
    case U64Accessor => if GetU64(v).Some? then Some(U64Val(GetU64(v).value)) else None
    case F64Accessor => if GetF64(v).Some? then Some(F64Val(GetF64(v).value)) else None
    case StringAccessor => if GetString(v).Some? then Some(StringVal(GetString(v).value)) else None
  }

  /** The accessor whose return type is the given value's type, if Value has one. */
  function AccessorOf(x: AnyValue): Option<Accessor>
  {
    match x
    case BoolVal(_) => Some(BoolAccessor)
    case I64Val(_) => Some(I64Accessor)
    case U64Val(_) => Some(U64Accessor)
    case F64Val(_) => Some(F64Accessor)
    case StringVal(_) => Some(StringAccessor)
    case _ => None
  }

  /** Round trip: the accessor matching a value's type, applied to `Value::new` of it,
      gives the value back; a `&'static str` comes back as the equal `String`. */
  lemma NewRoundTrip(x: AnyValue)
    ensures AccessorOf(x).Some? ==> Call(AccessorOf(x).value, New(x)) == Some(x)
    ensures x.BoolVal? ==> GetBool(New(x)) == Some(x.b)
    ensures x.I64Val? ==> GetI64(New(x)) == Some(x.i)
    ensures x.U64Val? ==> GetU64(New(x)) == Some(x.u)
    ensures x.F64Val? ==> GetF64(New(x)) == Some(x.f)
    ensures x.StrRefVal? || x.StringVal? ==> GetString(New(x)) == Some(x.s)
    ensures x.ValueVecVal? ==> New(x) == Array(x.elems)
  {
  }

  /** At most one accessor returns Some for a value, and it is the one for the value's variant. */
  lemma AccessorsExclusive(v: Value, a: Accessor, b: Accessor)
    requires Call(a, v).Some? && Call(b, v).Some?
    ensures a == b
  {
  }

  /** Null and Array make every accessor return None. */
  lemma NoAccessorForNullOrArray(v: Value, a: Accessor)
    requires v.Null? || v.Array?
    ensures Call(a, v) == None
  {
  }
}
