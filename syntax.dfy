/** The derive input both generators start from, as the parser hands it
    over: the item's shape, its named fields in declaration order, each
    field's type and its outer attributes. Token streams, spans and the
    parsing itself are not modelled. */
module Syntax {
  import opened Wrappers

  /** A path such as `std::string::String` or `serde`: the leading
      segments and the last one (a parsed path always has at least one). */
  datatype Path = Path(qualifier: seq<string>, ident: string)

  /** `path.is_ident(x)`: the path is the single identifier `x`. */
  predicate IsIdent(p: Path, x: string)
  {
    p.qualifier == [] && p.ident == x
  }

  /** A field type: a path type (generic arguments dropped, only the
      segment identifiers matter) or any other form (reference, tuple,
      array, ...). */
  datatype TypeExpr = PathType(path: Path) | OtherType

  /** The value on the right of `key = value` in a directive. */
  datatype Expr = StrLit(text: string) | OtherExpr

  /** One nested directive: `skip`, `rename = "x"`, `name(...)`. */
  datatype Meta =
    | MetaPath(path: Path)
    | MetaList(path: Path)
    | MetaNameValue(path: Path, value: Expr)

  /** The argument part of an attribute. `NotList` is a bare `#[p]` or a
      `#[p = v]`, on which `parse_args` fails. `ListArgs(None)` is a list
      whose tokens are not a comma-separated sequence of directives. */
  datatype AttrArgs = NotList | ListArgs(metas: Option<seq<Meta>>)

  datatype Attribute = Attribute(path: Path, args: AttrArgs)

  datatype FieldDecl = FieldDecl(name: string, ty: TypeExpr, attrs: seq<Attribute>)

  datatype Fields = Named(named: seq<FieldDecl>) | Unnamed(arity: nat) | Unit

  /** The item a derive is attached to. */
  datatype Item = Struct(fields: Fields) | Enum | Union
}
