/** The parsed derive input the macros receive: the parts of syn's `DeriveInput`
    that the derivations look at, as plain values. */
module Syn {
  import opened Wrappers

  /** A literal token: a string literal, or a literal of any other kind. */
  datatype Lit = Str(value: string) | OtherLit(token: string)

  datatype PathSegment = PathSegment(ident: string, hasArguments: bool)

  /** A path such as `name`, `a::b` or `::x<T>`. */
  datatype Path = Path(leadingColon: bool, segments: seq<PathSegment>)
  {
    /** syn's `Path::get_ident`: the identifier of a path made of one bare segment. */
    function GetIdent(): Option<string>
    {
      if !leadingColon && |segments| == 1 && !segments[0].hasArguments
      then Some(segments[0].ident) else None
    }
  }

  /** The structured meaning of an attribute: `#[p]`, `#[p(nested, ...)]` or `#[p = lit]`. */
  datatype Meta =
    | MetaPath(path: Path)
    | MetaList(path: Path, nested: seq<NestedMeta>)
    | MetaNameValue(path: Path, lit: Lit)

  /** One item inside the parentheses of a list attribute. */
  datatype NestedMeta = NestedMeta(meta: Meta) | NestedLit(lit: Lit)

  /** An attribute on a field, as `Attribute::parse_meta` reads it: None when that parse fails. */
  datatype Attribute = Attribute(parsed: Option<Meta>)

  /** A field type: a path type with its printed token text (`u64`, `Vec < u8 >`), or any other type. */
  datatype Type = TypePath(text: string) | TypeOther

  datatype Field = Field(ident: Option<string>, ty: Type, attrs: seq<Attribute>)

  datatype Fields = Named(named: seq<Field>) | Unnamed(unnamed: seq<Field>) | Unit
  {
    /** `Fields::iter`: the fields in declaration order. */
    function Iter(): seq<Field>
    {
      match this
      case Named(fs) => fs
      case Unnamed(fs) => fs
      case Unit => []
    }
  }

  datatype Data = Struct(fields: Fields) | Enum | Union

  /** The item a derive is attached to: its name and body (generics are left out). */
  datatype DeriveInput = DeriveInput(ident: string, data: Data)

  /** What the parser guarantees: named fields carry an identifier, tuple fields do not. */
  predicate WellFormed(fields: Fields)
  {
    match fields
    case Named(fs) => forall i :: 0 <= i < |fs| ==> fs[i].ident.Some?
    case Unnamed(fs) => forall i :: 0 <= i < |fs| ==> fs[i].ident.None?
    case Unit => true
  }

  /** No two fields share a name (the compiler rejects such a struct). */
  predicate DistinctIdents(fs: seq<Field>)
  {
    forall i, j :: 0 <= i < j < |fs| && fs[i].ident.Some? ==> fs[i].ident != fs[j].ident
  }
}
