/** What the two binary derives (`Serialize`, `DeserializeStruct`) accept:
    a struct with named fields whose types are `u32` or `String`, judged by
    the last segment of the type path. Attributes play no part. */
module BinarySchema {
  import opened Wrappers
  import opened Syntax

  datatype Tag = U32Tag | StrTag

  datatype Field = Field(name: string, tag: Tag)

  /** The ordered field list the generated code is driven by. */
  type Schema = seq<Field>

  /** The reasons a derive refuses an item (the generator panics). */
  datatype SchemaError =
    | NotAStruct
    | NotNamedFields
    | UnsupportedFieldType(field: string)
    | UnsupportedTypeForm(field: string)

  /** The classification both generators apply to one field. */
  function FieldTag(f: FieldDecl): Result<Tag, SchemaError>
  {
    match f.ty
    case PathType(p) =>
      if p.ident == "u32" then Success(U32Tag)
      else if p.ident == "String" then Success(StrTag)
      else Failure(UnsupportedFieldType(f.name))
    case OtherType => Failure(UnsupportedTypeForm(f.name))
  }

  /** The per-field map of the serialize generator: the first field that
      cannot be classified aborts generation. */
  function FieldsSchema(fields: seq<FieldDecl>): Result<Schema, SchemaError>
  {
    if fields == [] then Success([])
    else
      match FieldTag(fields[0])
      case Failure(e) => Failure(e)
      case Success(t) =>
        match FieldsSchema(fields[1..])
        case Failure(e) => Failure(e)
        case Success(rest) => Success([Field(fields[0].name, t)] + rest)
  }

  /** The schema a binary derive extracts from an item. */
  function ExtractSchema(item: Item): Result<Schema, SchemaError>
  {
    match item
    case Struct(Named(fields)) => FieldsSchema(fields)
    case Struct(_) => Failure(NotNamedFields)
    case _ => Failure(NotAStruct)
  }

  /** A schema is produced exactly when every field classifies; it then
      lists every field, in declaration order, with its name and tag.
      Otherwise the error is that of the first field that does not. */
  lemma {:induction false} FieldsSchemaMeaning(fields: seq<FieldDecl>)
    ensures FieldsSchema(fields).Success? <==>
            forall i :: 0 <= i < |fields| ==> FieldTag(fields[i]).Success?
    ensures FieldsSchema(fields).Success? ==>
              var s := FieldsSchema(fields).value;
              |s| == |fields| &&
              forall i :: 0 <= i < |fields| ==>
                            s[i] == Field(fields[i].name, FieldTag(fields[i]).value)
    ensures FieldsSchema(fields).Failure? ==>
              exists i :: 0 <= i < |fields| &&
                          FieldTag(fields[i]) == Failure(FieldsSchema(fields).error) &&
                          forall j :: 0 <= j < i ==> FieldTag(fields[j]).Success?
  {
    if fields != [] {
      FieldsSchemaMeaning(fields[1..]);
      assert forall i :: 1 <= i < |fields| ==> fields[i] == fields[1..][i - 1];
      if FieldTag(fields[0]).Success? && FieldsSchema(fields[1..]).Failure? {
        var i :| 0 <= i < |fields[1..]| &&
                 FieldTag(fields[1..][i]) == Failure(FieldsSchema(fields[1..]).error) &&
                 forall j :: 0 <= j < i ==> FieldTag(fields[1..][j]).Success?;
        assert FieldTag(fields[i + 1]) == Failure(FieldsSchema(fields).error);
        forall j | 0 <= j < i + 1 ensures FieldTag(fields[j]).Success? {
          if j > 0 { assert fields[j] == fields[1..][j - 1]; }
        }
      }
    }
  }

  /** Two items that differ only in their fields' attributes. */
  predicate SameButAttributes(a: Item, b: Item)
  {
    match (a, b)
    case (Struct(Named(fa)), Struct(Named(fb))) =>
      |fa| == |fb| &&
      forall i :: 0 <= i < |fa| ==> fa[i].name == fb[i].name && fa[i].ty == fb[i].ty
    case _ => a == b
  }

  lemma {:induction false} FieldsSchemaIgnoresAttributes(fa: seq<FieldDecl>, fb: seq<FieldDecl>)
    requires |fa| == |fb|
    requires forall i :: 0 <= i < |fa| ==> fa[i].name == fb[i].name && fa[i].ty == fb[i].ty
    ensures FieldsSchema(fa) == FieldsSchema(fb)
  {
    if fa != [] {
      assert FieldTag(fa[0]) == FieldTag(fb[0]);
      FieldsSchemaIgnoresAttributes(fa[1..], fb[1..]);
    }
  }

  /** The binary layout never depends on `serde` (or any other) attributes:
      rename, skip and conditional skip are text-only. */
  lemma SchemaIgnoresAttributes(a: Item, b: Item)
    requires SameButAttributes(a, b)
    ensures ExtractSchema(a) == ExtractSchema(b)
  {
    if a.Struct? && a.fields.Named? && b.Struct? && b.fields.Named? {
      FieldsSchemaIgnoresAttributes(a.fields.named, b.fields.named);
    }
  }

  /** The deserialize generator: a loop over the named fields that
      classifies each one and collects the field list, stopping at the
      first field it cannot handle. */
  method DeriveDeserialize(item: Item) returns (r: Result<Schema, SchemaError>)
    ensures r == ExtractSchema(item)
  {
    if !item.Struct? {
      return Failure(NotAStruct);
    }
    if !item.fields.Named? {
      return Failure(NotNamedFields);
    }
    var fields := item.fields.named;
    var schema: Schema := [];
    var i := 0;
    assert fields[i..] == fields;
    assert FieldsSchema(fields).Success? ==> [] + FieldsSchema(fields).value == FieldsSchema(fields).value;
    while i < |fields|
      invariant 0 <= i <= |fields|
      invariant FieldsSchema(fields) == SchemaThen(schema, FieldsSchema(fields[i..]))
    {
      assert fields[i..][0] == fields[i] && fields[i..][1..] == fields[i + 1..];
      match FieldTag(fields[i]) {
        case Failure(e) =>
          return Failure(e);
        case Success(t) =>
          var rest := FieldsSchema(fields[i + 1..]);
          if rest.Success? {
            assert schema + ([Field(fields[i].name, t)] + rest.value)
                == (schema + [Field(fields[i].name, t)]) + rest.value;
          }
          schema := schema + [Field(fields[i].name, t)];
      }
      i := i + 1;
    }
    assert fields[i..] == [];
    assert schema + [] == schema;
    r := Success(schema);
  }

  /** The fields collected so far in front of the rest of a run. */
  function SchemaThen(done: Schema, rest: Result<Schema, SchemaError>): Result<Schema, SchemaError>
  {
    match rest
    case Success(s) => Success(done + s)
    case Failure(e) => Failure(e)
  }
}
