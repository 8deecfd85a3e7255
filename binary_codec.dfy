/** The code the binary derives generate for a given schema: `serialize`
    appends each field to a byte buffer in declaration order, and
    `deserialize` walks a read cursor over the input. Where the generated
    Rust panics, the model returns an error value. */
module BinaryCodec {
  import opened Wrappers
  import opened Primitives
  import opened Utf8
  import opened BinarySchema

  /** A field value: a `u32`, or a `String` given by its UTF-8 bytes. */
  datatype Value = U32(n: u32) | Str(bytes: seq<byte>)

  /** A struct instance: one value per schema field, in declaration order. */
  type Record = seq<Value>

  datatype EncodeError = LengthOverflow

  datatype DecodeError = OutOfBounds | InvalidUtf8

  function TagOf(v: Value): Tag
  {
    match v
    case U32(_) => U32Tag
    case Str(_) => StrTag
  }

  /** What Rust's type system guarantees of a struct instance: one value
      of the declared type per field, strings well-formed UTF-8. */
  predicate Conforms(schema: Schema, rec: Record)
  {
    |rec| == |schema| &&
    (rec == [] || (FieldConforms(schema[0], rec[0]) && Conforms(schema[1..], rec[1..])))
  }

  /** One value has the field's declared type (and is valid UTF-8 if a string). */
  predicate FieldConforms(f: Field, v: Value)
  {
    TagOf(v) == f.tag && (v.Str? ==> ValidUtf8(v.bytes))
  }

  // ---------------------------------------------------------------- encode

  /** One field's encoding: 4 big-endian bytes for a `u32`; for a string,
      its byte length as 4 big-endian bytes, then the bytes themselves. A
      length that does not fit in `u32` is refused. */
  function EncodeValue(v: Value): Result<seq<byte>, EncodeError>
  {
    match v
    case U32(n) => Success(ToBe(n))
    case Str(b) =>
      if |b| >= U32_LIMIT then Failure(LengthOverflow)
      else Success(ToBe(|b|) + b)
  }

  /** The schema-order concatenation of the field encodings, with no
      header, separator or terminator. */
  function Encode(rec: Record): Result<seq<byte>, EncodeError>
  {
    if rec == [] then Success([])
    else
      match EncodeValue(rec[0])
      case Failure(e) => Failure(e)
      case Success(h) => EncodedAfter(h, Encode(rec[1..]))
  }

  /** `done` bytes in front of the result of encoding the rest. */
  function EncodedAfter(done: seq<byte>, rest: Result<seq<byte>, EncodeError>): Result<seq<byte>, EncodeError>
  {
    match rest
    case Success(b) => Success(done + b)
    case Failure(e) => Failure(e)
  }

  /** The size the layout calls for: 4 per `u32`, 4 plus the byte length
      per string. */
  function Size(rec: Record): nat
  {
    if rec == [] then 0
    else (match rec[0] case U32(_) => 4 case Str(b) => 4 + |b|) + Size(rec[1..])
  }

  /** Some string field is too long for its 4-byte length prefix. */
  predicate HasOverlongString(rec: Record)
  {
    exists i :: 0 <= i < |rec| && rec[i].Str? && |rec[i].bytes| >= U32_LIMIT
  }

  /** The generated `serialize`: extends `result` field by field. */
  method Serialize(rec: Record) returns (r: Result<seq<byte>, EncodeError>)
    ensures r == Encode(rec)
  {
    var result: seq<byte> := [];
    var i := 0;
    EncodedAfterEmpty(rec);
    while i < |rec|
      invariant 0 <= i <= |rec|
      invariant Encode(rec) == EncodedAfter(result, Encode(rec[i..]))
    {
      EncodeStep(rec, i);
      var chunk := WriteField(rec[i]);
      match chunk {
        case Failure(e) =>
          return Failure(e);
        case Success(h) =>
          EncodedAfterAfter(result, h, Encode(rec[i + 1..]));
          result := result + h;
      }
      i := i + 1;
    }
    assert rec[i..] == [];
    assert result + [] == result;
    r := Success(result);
  }

  /** The generated block for one field: the `u32`'s 4 bytes, or the
      string's length converted with `try_into().unwrap()` (which panics
      past `u32`) followed by its bytes. */
  method WriteField(v: Value) returns (r: Result<seq<byte>, EncodeError>)
    ensures r == EncodeValue(v)
  {
    match v {
      case U32(n) =>
        r := Success(ToBe(n));
      case Str(s) =>
        if |s| >= U32_LIMIT {
          return Failure(LengthOverflow);
        }
        var len: u32 := |s|;
        var out := ToBe(len);
        out := out + s;
        r := Success(out);
    }
  }

  lemma EncodedAfterEmpty(rec: Record)
    ensures rec[0..] == rec
    ensures Encode(rec) == EncodedAfter([], Encode(rec[0..]))
  {
    assert rec[0..] == rec;
    if Encode(rec).Success? {
      assert [] + Encode(rec).value == Encode(rec).value;
    }
  }

  /** Encoding from position `i`: the field there, then the rest. */
  lemma EncodeStep(rec: Record, i: nat)
    requires i < |rec|
    ensures Encode(rec[i..]) ==
      match EncodeValue(rec[i])
      case Failure(e) => Failure(e)
      case Success(h) => EncodedAfter(h, Encode(rec[i + 1..]))
  {
    assert rec[i..][0] == rec[i] && rec[i..][1..] == rec[i + 1..];
  }

  lemma EncodedAfterAfter(done: seq<byte>, h: seq<byte>, rest: Result<seq<byte>, EncodeError>)
    ensures EncodedAfter(done, EncodedAfter(h, rest)) == EncodedAfter(done + h, rest)
  {
    if rest.Success? {
      assert done + (h + rest.value) == (done + h) + rest.value;
    }
  }

  // ---------------------------------------------------------------- decode

  /** One field read at `offset`; on success the value and the cursor
      after it. Every slice is bounds-checked: the 4 bytes of a `u32` or
      of a length prefix, then the string payload; the payload must be
      well-formed UTF-8. */
  function DecodeField(tag: Tag, base: seq<byte>, offset: nat): Result<(Value, nat), DecodeError>
  {
    if offset + 4 > |base| then Failure(OutOfBounds)
    else
      var word := FromBe(base[offset..offset + 4]);
      match tag
      case U32Tag => Success((U32(word), offset + 4))
      case StrTag =>
        var stop := offset + 4 + word;
        if stop > |base| then Failure(OutOfBounds)
        else if !ValidUtf8(base[offset + 4..stop]) then Failure(InvalidUtf8)
        else Success((Str(base[offset + 4..stop]), stop))
  }

  /** The fields of `schema` read in order starting at `offset`; on success
      the values and the final cursor. */
  function DecodeFrom(schema: Schema, base: seq<byte>, offset: nat): Result<(Record, nat), DecodeError>
    decreases |schema|
  {
    if schema == [] then Success(([], offset))
    else
      match DecodeField(schema[0].tag, base, offset)
      case Failure(e) => Failure(e)
      case Success((v, next)) => DecodedThen([v], DecodeFrom(schema[1..], base, next))
  }

  /** Values already read in front of the result of reading the rest. */
  function DecodedThen(done: Record, rest: Result<(Record, nat), DecodeError>): Result<(Record, nat), DecodeError>
  {
    match rest
    case Success((vs, end)) => Success((done + vs, end))
    case Failure(e) => Failure(e)
  }

  /** `deserialize`: the cursor starts at 0; where it stops is not
      checked, so bytes after the last field are ignored. */
  function Decode(schema: Schema, base: seq<byte>): Result<Record, DecodeError>
  {
    match DecodeFrom(schema, base, 0)
    case Success((vs, _)) => Success(vs)
    case Failure(e) => Failure(e)
  }

  /** The generated block for a `String` field: read the length prefix at
      the cursor, then the payload, advance the cursor past both, and check
      the payload is UTF-8. */
  method ReadString(base: seq<byte>, offset: nat) returns (r: Result<(Value, nat), DecodeError>)
    ensures r == DecodeField(StrTag, base, offset)
  {
    var startOffset := offset;
    var endOffset := startOffset + 4;
    if endOffset > |base| {
      return Failure(OutOfBounds);
    }
    var lenBytes := base[startOffset..endOffset];
    var len := FromBe(lenBytes);
    var stringEndOffset := endOffset + len;
    if stringEndOffset > |base| {
      return Failure(OutOfBounds);
    }
    var stringBytes := base[endOffset..stringEndOffset];
    var next := offset + 4 + len;
    if !ValidUtf8(stringBytes) {
      return Failure(InvalidUtf8);
    }
    r := Success((Str(stringBytes), next));
  }

  /** The generated block for a `u32` field: read 4 bytes at the cursor and
      advance it by 4. */
  method ReadU32(base: seq<byte>, offset: nat) returns (r: Result<(Value, nat), DecodeError>)
    ensures r == DecodeField(U32Tag, base, offset)
  {
    if offset + 4 > |base| {
      return Failure(OutOfBounds);
    }
    var bytes := base[offset..offset + 4];
    r := Success((U32(FromBe(bytes)), offset + 4));
  }

  /** The generated `deserialize`: the field blocks in declaration order,
      threading the cursor `offset` through them. */
  method Deserialize(schema: Schema, base: seq<byte>) returns (r: Result<Record, DecodeError>)
    ensures r == Decode(schema, base)
  {
    var offset: nat := 0;
    var fields: Record := [];
    var i := 0;
    assert schema[i..] == schema;
    ghost var whole := DecodeFrom(schema, base, 0);
    assert whole.Success? ==> [] + whole.value.0 == whole.value.0;
    while i < |schema|
      invariant 0 <= i <= |schema|
      invariant DecodeFrom(schema, base, 0) == DecodedThen(fields, DecodeFrom(schema[i..], base, offset))
    {
      assert schema[i..][0] == schema[i] && schema[i..][1..] == schema[i + 1..];
      var step;
      match schema[i].tag {
        case StrTag => step := ReadString(base, offset);
        case U32Tag => step := ReadU32(base, offset);
      }
      if step.Failure? {
        return Failure(step.error);
      }
      var (v, next) := step.value;
      ghost var rest := DecodeFrom(schema[i + 1..], base, next);
      if rest.Success? {
        assert fields + ([v] + rest.value.0) == (fields + [v]) + rest.value.0;
      }
      fields := fields + [v];
      offset := next;
      i := i + 1;
    }
    assert schema[i..] == [];
    assert fields + [] == fields;
    r := Success(fields);
  }
}
