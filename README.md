# attribute-macro, modelled in Dafny

The repository provides three derive macros for Rust structs. This model
covers what they generate and the checks they make first.

- `Serialize` (`serialize_struct`) accepts a struct with named fields of
  type `u32` or `String`. It generates `serialize`, which appends the fields
  to a byte vector in declaration order. A `u32` is written as 4 big-endian
  bytes. A `String` is written as its byte length, as a big-endian `u32`,
  followed by its UTF-8 bytes.
- `DeserializeStruct` (`deserialize_struct`) accepts the same structs. It
  generates `deserialize`, which reads the fields back with a cursor that
  starts at 0 and is never checked at the end.
- `MySerde` (`serde_json`) reads the `#[serde(...)]` directives of each
  field: `rename = "..."`, `skip_serializing_if = "..."` and `skip`. It
  generates `json`. That method pushes one `"key": value` entry per
  surviving field, joins the list with `,` and wraps the result in `{ `
  and ` }`.

Each derive becomes a pair of definitions:

- a function that says what the derive produces (`ExtractSchema`,
  `Encode`, `Decode`, `PlanOf`, `Render`);
- a method that does it the way the generated code does, with loops
  and early returns (`DeriveDeserialize`, `Serialize`, `Deserialize`,
  `DeriveMySerde`, `Json`).

Each method's postcondition says it computes its function. Separate law
modules then prove what the functions promise:

- the binary encoding round-trips;
- a truncated encoding is refused;
- whatever the decoder accepts is the encoding of what it returns;
- each directive has its documented effect;
- the text output lists exactly the kept fields, in declaration order;
- the pieces of the text output that `json` escapes can be read back:
  the decimal digits of a `u32`, the escaped body of a string, and the
  entry list when no entry contains a comma. Keys are written raw with
  `{}` (attribute_macro/src/lib.rs:75, :80), so no read-back law covers
  them.

Panics become error values:

- `LengthOverflow` when `try_into().unwrap()` rejects a string length
  past `u32`;
- `OutOfBounds` and `InvalidUtf8` from slicing and `String::from_utf8`;
- `UnwrapNone` when a conditional entry's predicate lets a `None`
  through;
- the generators' own panics on an unsupported directive, and their one
  compile error. The exception is the `.expect("invalid func path")`
  panic when a predicate path does not tokenize
  (attribute_macro/src/lib.rs:72), which is left out below.

Modules, one per file:

| module | what it holds |
|---|---|
| `Wrappers` | `Option` and `Result` |
| `Primitives` | `byte`, `u32`, `to_be_bytes` and `from_be_bytes` |
| `Utf8` | what valid UTF-8 is, after section 4 of RFC 3629 |
| `Syntax` | the parsed derive input: items, fields, type paths, attributes and directives |
| `BinarySchema` | which fields the binary derives accept |
| `BinaryCodec` | the generated `serialize` and `deserialize` |
| `BinaryLaws` | the laws of the binary layout |
| `TextPlan` | how `MySerde` resolves directives |
| `TextPlanLaws` | the laws of that resolution |
| `TextRender` | the generated `json` |
| `TextRenderLaws` | the laws of the text output |
| `SwapExample`, `PersonExample` (in `demo.dfy`) | the structs of the example application |

Entries are joined with `,` and no space (attribute_macro/src/lib.rs:100),
not with `, `.

## Model

| member | source | states |
|---|---|---|
| BinarySchema.DeriveDeserialize | macros/src/lib.rs:70-136 | The generator's field loop gives exactly the schema of `ExtractSchema`. It stops at the first field that is not a `u32` or `String` path type. It refuses non-structs and structs without named fields. |
| BinarySchema.FieldsSchemaMeaning | macros/src/lib.rs:17-41 | A schema is produced if and only if every field classifies. It then lists every field in order, with its name and tag. Otherwise the error is the one of the first field that fails. |
| BinarySchema.SchemaIgnoresAttributes | macros/src/lib.rs:17-41 | Two items that differ only in field attributes get the same schema. The binary derives do not read `serde` directives. |
| BinaryCodec.Serialize | macros/src/lib.rs:52-58 | The generated `serialize`, appending field by field, returns `Encode(rec)`. This includes the `LengthOverflow` case. |
| BinaryCodec.WriteField | macros/src/lib.rs:23-33 | One field block: a `u32` is its 4 big-endian bytes. A string is its length, converted to `u32`, then its bytes. A length of 2^32 or more fails. |
| BinaryCodec.ReadString | macros/src/lib.rs:89-101 | The `String` block: it reads the 4-byte length at the cursor, then the payload. Either slice out of range is `OutOfBounds`. A payload that is not UTF-8 is `InvalidUtf8`. The cursor advances by 4 plus the length. |
| BinaryCodec.ReadU32 | macros/src/lib.rs:108-113 | The `u32` block: it reads 4 bytes at the cursor, or fails with `OutOfBounds`, and advances the cursor by 4. |
| BinaryCodec.Deserialize | macros/src/lib.rs:138-147 | The generated `deserialize` runs the field blocks in order from offset 0 and returns `Decode(schema, base)`. The first failure wins. Trailing bytes are ignored. |
| Primitives.FromBeToBe | macros/src/lib.rs:25 | `from_be_bytes` inverts `to_be_bytes`. The result has 4 bytes. |
| Primitives.ToBeFromBe | macros/src/lib.rs:94-95 | Every 4-byte array is the big-endian form of the number read from it. |
| BinaryLaws.EncodeAppend | macros/src/lib.rs:42-44 | Encoding a concatenation of fields is the concatenation of the encodings. It succeeds exactly when both parts do. |
| BinaryLaws.EncodedLength | macros/src/lib.rs:23-33 | The encoding is 4 bytes per `u32` and 4 plus the byte length per string. |
| BinaryLaws.EncodeFailsIffOverlong | macros/src/lib.rs:30 | Encoding fails if and only if some string is 2^32 bytes or longer. The error is then `LengthOverflow`. The length is never truncated. |
| BinaryLaws.FieldRoundTrip | macros/src/lib.rs:89-113 | One field's encoding, wherever it sits in a buffer, reads back as the same value, and the cursor ends right after it. |
| BinaryLaws.DecodeEncoded | macros/src/lib.rs:138-147 | An encoded record placed anywhere in a buffer reads back as the same record, and the cursor ends right after its last byte. |
| BinaryLaws.RoundTrip | macros/src/lib.rs:138-147 | `deserialize(serialize(x) ++ extra) == x` for every well-typed record, whatever bytes follow. |
| BinaryLaws.FieldTruncated | macros/src/lib.rs:89-113 | A field encoding cut short fails with `OutOfBounds`. The cut may fall in the word, the length prefix or the payload. |
| BinaryLaws.DecodeTruncated | macros/src/lib.rs:138-147 | A buffer that ends inside an encoded record fails with `OutOfBounds`. |
| BinaryLaws.TruncatedFails | macros/src/lib.rs:138-147 | Every strict prefix of an encoding is refused with `OutOfBounds`. |
| BinaryLaws.FieldDecodedIsEncoding | macros/src/lib.rs:89-113 | A successful field read moves the cursor forward, within the buffer. The value has the field's type, and a string is valid UTF-8. The bytes consumed are exactly that value's encoding. |
| BinaryLaws.DecodedIsEncoding | macros/src/lib.rs:138-147 | Whatever the decoder accepts: the cursor stays within the buffer and advances by the encoded size. The values conform to the schema. The bytes consumed are the encoding of the values returned. |
| BinaryLaws.DecodeThenEncode | macros/src/lib.rs:138-147 | If `deserialize` succeeds, the record it returns is well-typed, it encodes, and its encoding is a prefix of the input. |
| Utf8.AsciiIsValid | macros/src/lib.rs:99 | Every 7-bit byte sequence passes the UTF-8 check. |
| TextPlan.DeriveMySerde | attribute_macro/src/lib.rs:12-93 | The generator's field loop gives exactly `PlanOf(item)`. It refuses non-structs and structs without named fields. |
| TextPlan.FieldPolicy | attribute_macro/src/lib.rs:19-69 | One field's loop body: an unsupported directive panics. `skip` drops the field. `skip_serializing_if` without `rename` is the compile error. Otherwise the key is the rename, or the field name, together with the predicate. |
| TextPlan.ResolveDirectives | attribute_macro/src/lib.rs:25-58 | The attribute loop looks only at `serde` attributes whose arguments parse. It folds their directives in order. An unsupported directive aborts. |
| TextPlan.ApplyAll | attribute_macro/src/lib.rs:29-54 | The directive loop: the last string-valued `rename` or `skip_serializing_if` wins, and `skip` sets the flag. Anything else aborts. |
| TextPlan.FoldAppend | attribute_macro/src/lib.rs:25-29 | Folding the directives of several attributes is folding each attribute's directives in turn, from where the previous fold stopped. |
| TextPlanLaws.ConsideredMetasMeaning | attribute_macro/src/lib.rs:25-28 | A directive is considered if and only if it sits in the parsed argument list of some attribute whose path is `serde`. |
| TextPlanLaws.FoldSucceedsIff | attribute_macro/src/lib.rs:30-52 | The fold succeeds if and only if every directive is `rename = ..`, `skip_serializing_if = ..` or `skip`. |
| TextPlanLaws.FoldSkip | attribute_macro/src/lib.rs:48-50 | After the fold, `skip` is set if and only if it was set before or some directive is `skip`. |
| TextPlanLaws.FoldSlot | attribute_macro/src/lib.rs:31-47 | `rename` and `skip_serializing_if` keep their old value unless a directive sets them. Otherwise they hold the value of the last string-valued directive for that key. |
| TextPlanLaws.ResolveFieldMeaning | attribute_macro/src/lib.rs:52-69 | Each outcome happens exactly under its condition: the panic, the skip, the missing-rename error, and the key and predicate of an emitted field. |
| TextPlanLaws.AssembleSucceedsIff | attribute_macro/src/lib.rs:17-84 | The plan is produced if and only if every field resolves. Otherwise the error is the first field's error. |
| TextPlanLaws.AssembleSound | attribute_macro/src/lib.rs:69-82 | Every plan entry comes from an emitted field, with that field's key and predicate. Entries are in strictly increasing field order. |
| TextPlanLaws.AssembleComplete | attribute_macro/src/lib.rs:71-82 | Every emitted field has an entry in the plan. |
| TextPlanLaws.PlanEntriesMeaning | attribute_macro/src/lib.rs:17-84 | For a struct with named fields whose plan is produced: every entry stands for a field that resolves to an entry, with that field's key and predicate. Every such field has an entry. Entries follow declaration order. |
| TextPlanLaws.SkippedFieldAbsent | attribute_macro/src/lib.rs:60-62 | A skipped field has no entry in the plan. |
| TextRender.Json | attribute_macro/src/lib.rs:95-101 | The generated `json`, pushing entry by entry, returns `Render(plan, rec, eval)`, including the `unwrap` panic. |
| TextRender.PushEntry | attribute_macro/src/lib.rs:71-82 | One generated entry: a plain field is always pushed. A conditional one is pushed with its unwrapped content when the predicate says no, and `unwrap` on a `None` panics. |
| TextRenderLaws.KeptFromSound | attribute_macro/src/lib.rs:73-77 | Every pushed entry comes from the plan, and its predicate said no (or it has none). |
| TextRenderLaws.KeptFromComplete | attribute_macro/src/lib.rs:73-81 | Every plan entry whose predicate says no (or that has none) is pushed. |
| TextRenderLaws.KeptFromOrdered | attribute_macro/src/lib.rs:86 | Pushed entries keep the fields' declaration order. |
| TextRenderLaws.EntriesSucceedsIff | attribute_macro/src/lib.rs:74-75 | Rendering panics if and only if some conditional entry's predicate says no on a `None`. |
| TextRenderLaws.EntriesSound | attribute_macro/src/lib.rs:75-80 | The pushed list is exactly `"key": debug(value)` for the kept entries, in order. A conditional entry shows the content of its `Option`. |
| TextRenderLaws.DecimalMeaning | attribute_macro/src/lib.rs:80 | A `u32` renders as at least one decimal digit, with no leading zero, and the digits read back as the number. |
| TextRenderLaws.EscapeRoundTrip | attribute_macro/src/lib.rs:80 | The escaped form of a string unescapes back to the string. |
| TextRenderLaws.EscapeIdentity | attribute_macro/src/lib.rs:80 | A string with no quote, backslash, NUL, tab, CR or LF is rendered unchanged. |
| TextRenderLaws.DebugTextMeaning | attribute_macro/src/lib.rs:80 | A string renders between double quotes, and the part inside unescapes to the string. |
| TextRenderLaws.JoinSplit | attribute_macro/src/lib.rs:100 | Splitting a `,`-join of comma-free parts at `,` gives the parts back. |
| TextRenderLaws.RenderMeaning | attribute_macro/src/lib.rs:95-101 | `json` succeeds if and only if no entry panics. Its output is `{ `, then the kept entries' texts joined by `,`, then ` }`. When the kept texts contain no comma, splitting the inside at `,` gives exactly those texts. |
| SwapExample.SwapSchemaIsDerived | app/src/main.rs:7-13 | Both binary derives accept `Swap` and take its four fields as String, u32, String, u32. |
| SwapExample.SwapSerializes | app/src/main.rs:26-31 | `swap.serialize()` returns `0,0,0,4,"USDC",0,0,0,200,0,0,0,3,"BTC",0,0,1,44`. |
| SwapExample.SwapDeserializes | app/src/main.rs:40-41 | `Swap::deserialize(&swap_bytes)` returns the original `Swap`. |
| PersonExample.PersonPlanIsDerived | app/src/main.rs:15-22 | `MySerde` on `Person` gives a plan of three entries: `username`, conditional on `Option::is_none`, then `email` and `password`. |
| PersonExample.PersonRendersName | app/src/main.rs:33-39 | For `name: Some("mayank")`, `person.json()` is `{ "username": "mayank","email": "value","password": "value" }`. |
| PersonExample.PersonSkipsNone | app/src/main.rs:15-22 | For `name: None`, the `username` entry is left out: `{ "email": "value","password": "value" }`. |

## Left out

- Token streams and the proc-macro plumbing are not modelled:
  `syn::parse`, `quote!`, `format_ident!` and the generated identifiers.
  The model starts from the already parsed item (`Syntax`) and stops at
  what the generated code computes.
- Tokenizing the predicate path (`func_path_str.parse().expect(...)`,
  attribute_macro/src/lib.rs:72) is not modelled. The path string is kept
  as it is, and calling it on the field is a parameter `eval`.
- The span carried by `skip_if_attr` is not modelled. It only affects
  where the compiler reports the missing-rename error.
- TextRender.Debug: escapes only `"`, `\`, NUL, tab, CR and LF. Rust's
  `{:?}` also writes other control characters and grapheme extenders
  as `\u{..}`, which the model does not do.
- TextRender.FieldValue: covers `u32`, `String` and `Option` of either, the
  types the example uses. Other `Debug` types are not modelled.
- Overflow of `usize` in the cursor arithmetic of `deserialize` is not
  modelled, because integers are unbounded. On 64-bit targets it cannot
  happen for a buffer that fits in memory.
- `String::from_utf8` is modelled by a UTF-8 validity predicate following
  section 4 of RFC 3629. The model does not construct a Rust `String`.
- The I/O of `main` (`println!`) is not modelled. The example values are
  stated as lemmas instead.
- The type checker's guarantees are preconditions rather than modelled
  errors. A conditional entry names an `Option` field
  (`TextRender.WellTyped`). The round-trip laws take records that match
  their schema (`BinaryCodec.Conforms`), as every value of the struct
  type does.
