/** The `Swap` struct of the example application through the binary
    `Serialize` / `DeserializeStruct` pair. */
module SwapExample {
  import opened Wrappers
  import opened Primitives
  import opened Utf8
  import opened Syntax
  import opened BinarySchema
  import BinaryCodec
  import BinaryLaws

  function Ty(name: string): TypeExpr
  {
    PathType(Path([], name))
  }

  /** `struct Swap { base_asset: String, base_qty: u32, quote_asset: String, quote_qty: u32 }` */
  function SwapItem(): Item
  {
    Struct(Named([
      FieldDecl("base_asset", Ty("String"), []),
      FieldDecl("base_qty", Ty("u32"), []),
      FieldDecl("quote_asset", Ty("String"), []),
      FieldDecl("quote_qty", Ty("u32"), [])
    ]))
  }

  function SwapSchema(): Schema
  {
    [Field("base_asset", StrTag), Field("base_qty", U32Tag), Field("quote_asset", StrTag), Field("quote_qty", U32Tag)]
  }

  /** `Swap { base_asset: "USDC", quote_asset: "BTC", base_qty: 200, quote_qty: 300 }` */
  function SwapValue(): BinaryCodec.Record
  {
    [BinaryCodec.Str([85, 83, 68, 67]), BinaryCodec.U32(200), BinaryCodec.Str([66, 84, 67]), BinaryCodec.U32(300)]
  }

  function SwapBytes(): seq<byte>
  {
    [0, 0, 0, 4, 85, 83, 68, 67, 0, 0, 0, 200, 0, 0, 0, 3, 66, 84, 67, 0, 0, 1, 44]
  }

  /** Both binary derives accept `Swap` and read its fields in declaration order. */
  lemma SwapSchemaIsDerived()
    ensures ExtractSchema(SwapItem()) == Success(SwapSchema())
  {
    var fields := SwapItem().fields.named;
    var schema := SwapSchema();
    assert FieldTag(fields[3]) == Success(U32Tag);
    assert FieldTag(fields[2]) == Success(StrTag);
    assert FieldTag(fields[1]) == Success(U32Tag);
    assert FieldTag(fields[0]) == Success(StrTag);
    assert fields[3..][1..] == [];
    assert [schema[3]] + [] == schema[3..];
    assert FieldsSchema(fields[3..]) == Success(schema[3..]);
    assert fields[2..][1..] == fields[3..];
    assert [schema[2]] + schema[3..] == schema[2..];
    assert FieldsSchema(fields[2..]) == Success(schema[2..]);
    assert fields[1..][1..] == fields[2..];
    assert [schema[1]] + schema[2..] == schema[1..];
    assert FieldsSchema(fields[1..]) == Success(schema[1..]);
    assert [schema[0]] + schema[1..] == schema;
    assert FieldsSchema(fields) == Success(schema);
  }

  /** `swap.serialize()` is "USDC" behind its length 4, then 200, then
      "BTC" behind its length 3, then 300 (= 0x012C). */
  lemma SwapSerializes()
    ensures BinaryCodec.Encode(SwapValue()) == Success(SwapBytes())
  {
    var rec := SwapValue();
    SwapFieldBytes();
    EncodeFour(rec[0], rec[1], rec[2], rec[3]);
    assert [rec[0], rec[1], rec[2], rec[3]] == rec;
    SwapBytesSplit();
  }

  /** The four field encodings of the example. */
  lemma SwapFieldBytes()
    ensures BinaryCodec.EncodeValue(SwapValue()[0]) == Success([0, 0, 0, 4, 85, 83, 68, 67])
    ensures BinaryCodec.EncodeValue(SwapValue()[1]) == Success([0, 0, 0, 200])
    ensures BinaryCodec.EncodeValue(SwapValue()[2]) == Success([0, 0, 0, 3, 66, 84, 67])
    ensures BinaryCodec.EncodeValue(SwapValue()[3]) == Success([0, 0, 1, 44])
  {
    assert ToBe(4) == [0, 0, 0, 4];
    assert ToBe(3) == [0, 0, 0, 3];
    assert [0, 0, 0, 4] + [85, 83, 68, 67] == [0, 0, 0, 4, 85, 83, 68, 67];
    assert [0, 0, 0, 3] + [66, 84, 67] == [0, 0, 0, 3, 66, 84, 67];
  }

  lemma SwapBytesSplit()
    ensures [0, 0, 0, 4, 85, 83, 68, 67] + ([0, 0, 0, 200] + ([0, 0, 0, 3, 66, 84, 67] + [0, 0, 1, 44])) == SwapBytes()
  {
  }

  /** A four-field record encodes as its four field encodings in a row. */
  lemma EncodeFour(a: BinaryCodec.Value, b: BinaryCodec.Value, c: BinaryCodec.Value, d: BinaryCodec.Value)
    requires BinaryCodec.EncodeValue(a).Success? && BinaryCodec.EncodeValue(b).Success?
    requires BinaryCodec.EncodeValue(c).Success? && BinaryCodec.EncodeValue(d).Success?
    ensures BinaryCodec.Encode([a, b, c, d]) == Success(BinaryCodec.EncodeValue(a).value +
      (BinaryCodec.EncodeValue(b).value + (BinaryCodec.EncodeValue(c).value + BinaryCodec.EncodeValue(d).value)))
  {
    var rec := [a, b, c, d];
    assert rec[1..] == [b, c, d];
    assert rec[1..][1..] == [c, d];
    assert rec[1..][1..][1..] == [d];
    assert rec[1..][1..][1..][1..] == [];
    var ea, eb, ec, ed := BinaryCodec.EncodeValue(a).value, BinaryCodec.EncodeValue(b).value,
      BinaryCodec.EncodeValue(c).value, BinaryCodec.EncodeValue(d).value;
    assert ed + [] == ed;
    assert BinaryCodec.Encode([d]) == Success(ed);
    assert BinaryCodec.Encode([c, d]) == Success(ec + ed);
    assert BinaryCodec.Encode([b, c, d]) == Success(eb + (ec + ed));
  }

  /** `Swap::deserialize(&swap_bytes)` gives the value back. */
  lemma SwapDeserializes()
    ensures BinaryCodec.Decode(SwapSchema(), SwapBytes()) == Success(SwapValue())
  {
    var rec := SwapValue();
    AsciiIsValid(rec[0].bytes);
    AsciiIsValid(rec[2].bytes);
    assert BinaryCodec.Conforms(SwapSchema()[3..], rec[3..]);
    assert BinaryCodec.Conforms(SwapSchema()[2..], rec[2..]);
    assert BinaryCodec.Conforms(SwapSchema()[1..], rec[1..]);
    SwapSerializes();
    BinaryLaws.RoundTrip(SwapSchema(), rec, []);
    assert SwapBytes() + [] == SwapBytes();
  }
}

/** The `Person` struct of the example application through `MySerde`, with
    a renamed, conditionally skipped field. */
module PersonExample {
  import opened Wrappers
  import opened Syntax
  import opened TextPlan
  import TextRender
  import TextRenderLaws

  function Ty(name: string): TypeExpr
  {
    PathType(Path([], name))
  }

  function Serde(metas: seq<Meta>): Attribute
  {
    Attribute(Path([], "serde"), ListArgs(Some(metas)))
  }

  /** `struct Person` with `#[serde(skip_serializing_if = "Option::is_none", rename = "username")]`
      on `name: Option<String>`, then plain `email` and `password`. */
  function PersonItem(): Item
  {
    Struct(Named([
      FieldDecl("name", Ty("Option"), [Serde([
        MetaNameValue(Path([], "skip_serializing_if"), StrLit("Option::is_none")),
        MetaNameValue(Path([], "rename"), StrLit("username"))
      ])]),
      FieldDecl("email", Ty("String"), []),
      FieldDecl("password", Ty("String"), [])
    ]))
  }

  function PersonPlan(): Plan
  {
    [Entry(0, "username", Some("Option::is_none")), Entry(1, "email", None), Entry(2, "password", None)]
  }

  /** `name` is rendered as `username` unless it is `None`; the other two
      always, under their own names. */
  lemma PersonPlanIsDerived()
    ensures PlanOf(PersonItem()) == Success(PersonPlan())
  {
    var fields := PersonItem().fields.named;
    var ms := fields[0].attrs[0].args.metas.value;
    assert fields[0].attrs[1..] == [];
    assert ConsideredMetas(fields[0].attrs) == ms + [];
    assert ms + [] == ms;
    var d1 := NoDirectives.(skipIf := Some("Option::is_none"));
    var d2 := d1.(rename := Some("username"));
    assert Apply(NoDirectives, ms[0]) == Some(d1);
    assert Apply(d1, ms[1..][0]) == Some(d2);
    assert ms[1..][1..] == [];
    assert Fold(d1, ms[1..]) == Some(d2);
    assert Fold(NoDirectives, ms) == Some(d2);
    var rs := Resolutions(fields);
    assert rs[0] == Success(Emit("username", Some("Option::is_none")));
    assert rs[1] == Success(Emit("email", None));
    assert rs[2] == Success(Emit("password", None));
    assert rs[1..][1..][1..] == [];
    assert [Entry(2, "password", None)] + [] == [Entry(2, "password", None)];
    assert Assemble(rs[1..][1..], 2) == Success([Entry(2, "password", None)]);
    assert [Entry(1, "email", None)] + [Entry(2, "password", None)] == PersonPlan()[1..];
    assert Assemble(rs[1..], 1) == Success(PersonPlan()[1..]);
    assert [PersonPlan()[0]] + PersonPlan()[1..] == PersonPlan();
  }

  /** The one predicate the example names. */
  function IsNone(path: string, v: TextRender.FieldValue): bool
  {
    path == "Option::is_none" && v.Opt? && v.inner.None?
  }

  function PersonValue(name: Option<string>): seq<TextRender.FieldValue>
  {
    [TextRender.Opt(if name.Some? then Some(TextRender.Text(name.value)) else None),
     TextRender.Text("value"), TextRender.Text("value")]
  }

  /** A three-part join: two commas and nothing else. */
  lemma JoinThree(a: string, b: string, c: string)
    ensures TextRender.Join(",", [a, b, c]) == a + "," + b + "," + c
  {
    assert [a, b, c][1..] == [b, c];
    JoinTwo(b, c);
    assert a + "," + (b + "," + c) == a + "," + b + "," + c;
  }

  lemma JoinTwo(b: string, c: string)
    ensures TextRender.Join(",", [b, c]) == b + "," + c
  {
    assert [b, c][1..] == [c];
  }

  /** Every field's text, whatever the name: a present name is rendered
      under `username`. */
  lemma PersonEntriesSome(n: string)
    ensures TextRender.Entries(PersonPlan(), PersonValue(Some(n)), IsNone) == Success([
      TextRender.EntryText("username", TextRender.Debug(TextRender.Text(n))),
      TextRender.EntryText("email", TextRender.Debug(TextRender.Text("value"))),
      TextRender.EntryText("password", TextRender.Debug(TextRender.Text("value")))])
  {
    var plan, rec := PersonPlan(), PersonValue(Some(n));
    var user := TextRender.EntryText("username", TextRender.Debug(TextRender.Text(n)));
    var email := TextRender.EntryText("email", TextRender.Debug(TextRender.Text("value")));
    var pass := TextRender.EntryText("password", TextRender.Debug(TextRender.Text("value")));
    assert TextRender.Step(plan[2], rec, IsNone) == Success(Some(pass));
    assert [pass] + [] == [pass];
    assert TextRender.EntriesFrom(plan, rec, IsNone, 2) == Success([pass]);
    assert TextRender.Step(plan[1], rec, IsNone) == Success(Some(email));
    assert [email] + [pass] == [email, pass];
    assert TextRender.EntriesFrom(plan, rec, IsNone, 1) == Success([email, pass]);
    assert TextRender.Step(plan[0], rec, IsNone) == Success(Some(user));
    assert [user] + [email, pass] == [user, email, pass];
  }

  /** An absent name leaves the `username` entry out. */
  lemma PersonEntriesNone()
    ensures TextRender.Entries(PersonPlan(), PersonValue(None), IsNone) == Success([
      TextRender.EntryText("email", TextRender.Debug(TextRender.Text("value"))),
      TextRender.EntryText("password", TextRender.Debug(TextRender.Text("value")))])
  {
    var plan, rec := PersonPlan(), PersonValue(None);
    var email := TextRender.EntryText("email", TextRender.Debug(TextRender.Text("value")));
    var pass := TextRender.EntryText("password", TextRender.Debug(TextRender.Text("value")));
    assert TextRender.Step(plan[2], rec, IsNone) == Success(Some(pass));
    assert [pass] + [] == [pass];
    assert TextRender.EntriesFrom(plan, rec, IsNone, 2) == Success([pass]);
    assert TextRender.Step(plan[1], rec, IsNone) == Success(Some(email));
    assert [email] + [pass] == [email, pass];
    assert TextRender.EntriesFrom(plan, rec, IsNone, 1) == Success([email, pass]);
    assert TextRender.Step(plan[0], rec, IsNone) == Success(None);
  }

  /** The three entry texts of the example. */
  const UserEntry := "\"username\": \"mayank\""
  const EmailEntry := "\"email\": \"value\""
  const PasswordEntry := "\"password\": \"value\""

  lemma QuotedMayank()
    ensures "\"" + "mayank" + "\"" == "\"mayank\""
  {
  }

  lemma QuotedValue()
    ensures "\"" + "value" + "\"" == "\"value\""
  {
  }

  lemma UserEntryText()
    ensures TextRender.EntryText("username", "\"mayank\"") == UserEntry
  {
  }

  lemma EmailEntryText()
    ensures TextRender.EntryText("email", "\"value\"") == EmailEntry
  {
  }

  lemma PasswordEntryText()
    ensures TextRender.EntryText("password", "\"value\"") == PasswordEntry
  {
  }

  lemma EscapedMayank()
    ensures TextRender.Escape("mayank") == "mayank"
  {
    TextRenderLaws.EscapeIdentity("mayank");
  }

  lemma EscapedValue()
    ensures TextRender.Escape("value") == "value"
  {
    TextRenderLaws.EscapeIdentity("value");
  }

  lemma MayankDebug()
    ensures TextRender.Debug(TextRender.Text("mayank")) == "\"mayank\""
  {
    EscapedMayank();
    QuotedMayank();
  }

  lemma ValueDebug()
    ensures TextRender.Debug(TextRender.Text("value")) == "\"value\""
  {
    EscapedValue();
    QuotedValue();
  }

  /** `name: Some("mayank")` renders as `"username": "mayank"`. */
  lemma UserText()
    ensures TextRender.EntryText("username", TextRender.Debug(TextRender.Text("mayank"))) == UserEntry
  {
    MayankDebug();
    UserEntryText();
  }

  lemma EmailText()
    ensures TextRender.EntryText("email", TextRender.Debug(TextRender.Text("value"))) == EmailEntry
  {
    ValueDebug();
    EmailEntryText();
  }

  lemma PasswordText()
    ensures TextRender.EntryText("password", TextRender.Debug(TextRender.Text("value"))) == PasswordEntry
  {
    ValueDebug();
    PasswordEntryText();
  }

  /** `person.json()` with `name: Some("mayank")`: the three entries joined
      by bare commas. */
  lemma PersonRendersName()
    ensures TextRender.Render(PersonPlan(), PersonValue(Some("mayank")), IsNone)
      == Success("{ " + (UserEntry + "," + EmailEntry + "," + PasswordEntry) + " }")
  {
    PersonEntriesSome("mayank");
    UserText();
    EmailText();
    PasswordText();
    JoinThree(UserEntry, EmailEntry, PasswordEntry);
  }

  /** With `name: None` the `username` entry is left out. */
  lemma PersonSkipsNone()
    ensures TextRender.Render(PersonPlan(), PersonValue(None), IsNone)
      == Success("{ " + (EmailEntry + "," + PasswordEntry) + " }")
  {
    PersonEntriesNone();
    EmailText();
    PasswordText();
    JoinTwo(EmailEntry, PasswordEntry);
  }
}
