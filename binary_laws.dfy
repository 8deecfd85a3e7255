/** What the binary layout promises: concatenation, length, overflow,
    round trip (with trailing bytes ignored), truncation, and that whatever
    the decoder accepts is exactly the encoding of what it returns. */
module BinaryLaws {
  import opened Wrappers
  import opened Primitives
  import opened Utf8
  import opened BinarySchema
  import opened BinaryCodec

  /** Encoding distributes over concatenation of field lists: the layout
      is the plain concatenation of the field encodings. */
  lemma {:induction false} EncodeAppend(a: Record, b: Record)
    ensures Encode(a + b).Success? <==> Encode(a).Success? && Encode(b).Success?
    ensures Encode(a + b).Success? ==> Encode(a + b).value == Encode(a).value + Encode(b).value
  {
    if a == [] {
      assert a + b == b;
    } else {
      assert (a + b)[0] == a[0] && (a + b)[1..] == a[1..] + b;
      EncodeAppend(a[1..], b);
      var h := EncodeValue(a[0]);
      if h.Success? && Encode(a[1..] + b).Success? {
        assert h.value + (Encode(a[1..]).value + Encode(b).value)
            == (h.value + Encode(a[1..]).value) + Encode(b).value;
      }
    }
  }

  /** The encoded length is 4 per `u32` field and 4 plus the byte length
      per string field. */
  lemma {:induction false} EncodedLength(rec: Record)
    ensures Encode(rec).Success? ==> |Encode(rec).value| == Size(rec)
  {
    if rec != [] {
      EncodedLength(rec[1..]);
      match rec[0]
      case U32(n) => FromBeToBe(n);
      case Str(s) => if |s| < U32_LIMIT { FromBeToBe(|s|); }
    }
  }

  /** Encoding fails exactly when some string is too long for a `u32`
      length prefix, and it is never truncated instead. */
  lemma {:induction false} EncodeFailsIffOverlong(rec: Record)
    ensures Encode(rec).Failure? <==> HasOverlongString(rec)
    ensures Encode(rec).Failure? ==> Encode(rec).error == LengthOverflow
  {
    if rec != [] {
      EncodeFailsIffOverlong(rec[1..]);
      if HasOverlongString(rec[1..]) {
        var i :| 0 <= i < |rec[1..]| && rec[1..][i].Str? && |rec[1..][i].bytes| >= U32_LIMIT;
        assert rec[i + 1] == rec[1..][i];
      }
      if HasOverlongString(rec) && !(rec[0].Str? && |rec[0].bytes| >= U32_LIMIT) {
        var i :| 0 <= i < |rec| && rec[i].Str? && |rec[i].bytes| >= U32_LIMIT;
        assert i > 0 && rec[1..][i - 1] == rec[i];
      }
    }
  }

  /** A non-empty record's encoding is its first field's encoding
      followed by the encoding of the rest. */
  lemma EncodeCons(rec: Record)
    requires rec != [] && Encode(rec).Success?
    ensures EncodeValue(rec[0]).Success? && Encode(rec[1..]).Success?
    ensures Encode(rec).value == EncodeValue(rec[0]).value + Encode(rec[1..]).value
  {
  }

  /** Two adjacent byte runs in a buffer. */
  lemma SliceSplit(base: seq<byte>, offset: nat, e: seq<byte>, b': seq<byte>)
    requires offset + |e + b'| <= |base|
    requires base[offset..offset + |e + b'|] == e + b'
    ensures base[offset..offset + |e|] == e
    ensures base[offset + |e|..offset + |e| + |b'|] == b'
  {
    assert base[offset..offset + |e|] == (e + b')[..|e|];
    assert base[offset + |e|..offset + |e| + |b'|] == (e + b')[|e|..];
  }

  /** Reading a non-empty schema: the first field, then the rest from where
      it stopped. */
  lemma DecodeCons(schema: Schema, v: Value, next: nat, base: seq<byte>, offset: nat)
    requires schema != []
    requires DecodeField(schema[0].tag, base, offset) == Success((v, next))
    requires DecodeFrom(schema[1..], base, next).Success?
    ensures DecodeFrom(schema, base, offset) ==
      Success(([v] + DecodeFrom(schema[1..], base, next).value.0, DecodeFrom(schema[1..], base, next).value.1))
  {
  }

  /** A single field decodes to the value it encodes, wherever it sits
      in the buffer and whatever follows it. */
  lemma FieldRoundTrip(v: Value, base: seq<byte>, offset: nat)
    requires v.Str? ==> ValidUtf8(v.bytes)
    requires EncodeValue(v).Success?
    requires offset + |EncodeValue(v).value| <= |base|
    requires base[offset..offset + |EncodeValue(v).value|] == EncodeValue(v).value
    ensures DecodeField(TagOf(v), base, offset) == Success((v, offset + |EncodeValue(v).value|))
  {
    var e := EncodeValue(v).value;
    match v
    case U32(n) =>
      FromBeToBe(n);
    case Str(s) =>
      FromBeToBe(|s|);
      assert base[offset..offset + 4] == e[..4];
      assert base[offset + 4..offset + 4 + |s|] == e[4..] == s;
  }

  /** The general round trip: reading the fields of an encoded record from
      the position it sits at gives the record back, and the cursor stops
      right after its last byte. */
  lemma {:induction false} DecodeEncoded(schema: Schema, rec: Record, b: seq<byte>, base: seq<byte>, offset: nat)
    requires Conforms(schema, rec)
    requires Encode(rec) == Success(b)
    requires offset + |b| <= |base|
    requires base[offset..offset + |b|] == b
    ensures DecodeFrom(schema, base, offset) == Success((rec, offset + |b|))
    decreases |rec|
  {
    if rec != [] {
      var e, b' := PlacedCons(schema, rec, b, base, offset);
      DecodeEncoded(schema[1..], rec[1..], b', base, offset + |e|);
      FieldThenRest(schema, rec, e, base, offset, offset + |b|);
    }
  }

  /** A placed encoding of a non-empty record splits into its first
      field's encoding, placed at the same position, and the rest's,
      placed right after it. */
  lemma PlacedCons(schema: Schema, rec: Record, b: seq<byte>, base: seq<byte>, offset: nat) returns (e: seq<byte>, b': seq<byte>)
    requires rec != []
    requires Conforms(schema, rec)
    requires Encode(rec) == Success(b)
    requires offset + |b| <= |base|
    requires base[offset..offset + |b|] == b
    ensures schema != [] && FieldConforms(schema[0], rec[0]) && Conforms(schema[1..], rec[1..])
    ensures EncodeValue(rec[0]) == Success(e) && Encode(rec[1..]) == Success(b')
    ensures offset + |e| + |b'| == offset + |b| <= |base|
    ensures base[offset..offset + |e|] == e
    ensures base[offset + |e|..offset + |e| + |b'|] == b'
  {
    EncodeCons(rec);
    e := EncodeValue(rec[0]).value;
    b' := Encode(rec[1..]).value;
    SliceSplit(base, offset, e, b');
  }

  /** The first field read back, then the rest read back, is the record. */
  lemma FieldThenRest(schema: Schema, rec: Record, e: seq<byte>, base: seq<byte>, offset: nat, end: nat)
    requires schema != [] && rec != []
    requires FieldConforms(schema[0], rec[0])
    requires EncodeValue(rec[0]) == Success(e)
    requires offset + |e| <= |base|
    requires base[offset..offset + |e|] == e
    requires DecodeFrom(schema[1..], base, offset + |e|) == Success((rec[1..], end))
    ensures DecodeFrom(schema, base, offset) == Success((rec, end))
  {
    FieldRoundTrip(rec[0], base, offset);
    DecodeCons(schema, rec[0], offset + |EncodeValue(rec[0]).value|, base, offset);
    assert [rec[0]] + rec[1..] == rec;
  }

  /** decode(encode(r) ++ extra) == r for every record of the schema:
      every field comes back, and bytes after the last field are ignored. */
  lemma RoundTrip(schema: Schema, rec: Record, extra: seq<byte>)
    requires Conforms(schema, rec)
    requires Encode(rec).Success?
    ensures Decode(schema, Encode(rec).value + extra) == Success(rec)
  {
    var b := Encode(rec).value;
    assert (b + extra)[0..|b|] == b;
    DecodeEncoded(schema, rec, b, b + extra, 0);
  }

  /** A field encoding cut short fails out of bounds, whether the cut
      falls in the 4-byte word, the length prefix or the payload. */
  lemma FieldTruncated(v: Value, e: seq<byte>, base: seq<byte>, offset: nat)
    requires EncodeValue(v) == Success(e)
    requires offset <= |base| < offset + |e|
    requires base[offset..] == e[..|base| - offset]
    ensures DecodeField(TagOf(v), base, offset) == Failure(OutOfBounds)
  {
    match v
    case U32(n) =>
      FromBeToBe(n);
    case Str(s) =>
      FromBeToBe(|s|);
      if offset + 4 <= |base| {
        assert base[offset..offset + 4] == base[offset..][..4] == ToBe(|s|);
      }
  }

  /** Reading an encoded record that the buffer cuts short, anywhere,
      fails out of bounds: the fields before the cut decode, and the one
      it falls in does not fit. */
  lemma {:induction false} DecodeTruncated(schema: Schema, rec: Record, b: seq<byte>, base: seq<byte>, offset: nat)
    requires Conforms(schema, rec)
    requires Encode(rec) == Success(b)
    requires offset <= |base| < offset + |b|
    requires base[offset..] == b[..|base| - offset]
    ensures DecodeFrom(schema, base, offset) == Failure(OutOfBounds)
    decreases |rec|
  {
    var e, b' := CutCons(schema, rec, b, base, offset);
    if |base| < offset + |e| {
      FieldTruncated(rec[0], e, base, offset);
    } else {
      DecodeTruncated(schema[1..], rec[1..], b', base, offset + |e|);
      FieldThenFails(schema, rec[0], e, base, offset);
    }
  }

  /** A cut encoding of a non-empty record: either the cut falls inside
      the first field's encoding `e`, or `e` is whole and the cut falls in
      the encoding `b'` of the rest. */
  lemma CutCons(schema: Schema, rec: Record, b: seq<byte>, base: seq<byte>, offset: nat) returns (e: seq<byte>, b': seq<byte>)
    requires Conforms(schema, rec)
    requires Encode(rec) == Success(b)
    requires offset <= |base| < offset + |b|
    requires base[offset..] == b[..|base| - offset]
    ensures rec != [] && schema != []
    ensures FieldConforms(schema[0], rec[0]) && Conforms(schema[1..], rec[1..])
    ensures EncodeValue(rec[0]) == Success(e) && Encode(rec[1..]) == Success(b')
    ensures |base| < offset + |e| ==> base[offset..] == e[..|base| - offset]
    ensures offset + |e| <= |base| ==>
      |base| < offset + |e| + |b'| && base[offset..offset + |e|] == e &&
      base[offset + |e|..] == b'[..|base| - (offset + |e|)]
  {
    EncodeCons(rec);
    e := EncodeValue(rec[0]).value;
    b' := Encode(rec[1..]).value;
    if |base| < offset + |e| {
      assert b[..|base| - offset] == e[..|base| - offset];
    } else {
      assert base[offset..offset + |e|] == base[offset..][..|e|] == b[..|e|];
      assert base[offset + |e|..] == base[offset..][|e|..] == b[|e|..|base| - offset];
    }
  }

  /** A read whose first field's encoding is in place fails as reading the
      rest, from right after that encoding, fails. */
  lemma FieldThenFails(schema: Schema, v: Value, e: seq<byte>, base: seq<byte>, offset: nat)
    requires schema != [] && FieldConforms(schema[0], v)
    requires EncodeValue(v) == Success(e)
    requires offset + |e| <= |base|
    requires base[offset..offset + |e|] == e
    requires DecodeFrom(schema[1..], base, offset + |e|) == Failure(OutOfBounds)
    ensures DecodeFrom(schema, base, offset) == Failure(OutOfBounds)
  {
    FieldRoundTrip(v, base, offset);
    FailsLater(schema, v, offset + |e|, base, offset);
  }

  /** A read whose first field decodes fails as the rest of it fails. */
  lemma FailsLater(schema: Schema, v: Value, next: nat, base: seq<byte>, offset: nat)
    requires schema != []
    requires DecodeField(schema[0].tag, base, offset) == Success((v, next))
    requires DecodeFrom(schema[1..], base, next).Failure?
    ensures DecodeFrom(schema, base, offset) == DecodeFrom(schema[1..], base, next)
  {
  }

  /** Every strict prefix of an encoding is refused as out of bounds. */
  lemma TruncatedFails(schema: Schema, rec: Record, k: nat)
    requires Conforms(schema, rec)
    requires Encode(rec).Success?
    requires k < |Encode(rec).value|
    ensures Decode(schema, Encode(rec).value[..k]) == Failure(OutOfBounds)
  {
    var b := Encode(rec).value;
    assert b[..k][0..] == b[..k];
    DecodeTruncated(schema, rec, b, b[..k], 0);
  }

  /** What one successful field read consumed is the encoding of the value
      it returns, and that value has the field's type. */
  lemma FieldDecodedIsEncoding(tag: Tag, base: seq<byte>, offset: nat)
    requires DecodeField(tag, base, offset).Success?
    ensures var (v, next) := DecodeField(tag, base, offset).value;
            offset < next <= |base| && TagOf(v) == tag &&
            (v.Str? ==> ValidUtf8(v.bytes)) &&
            EncodeValue(v) == Success(base[offset..next])
  {
    var word := base[offset..offset + 4];
    ToBeFromBe(word);
    if tag == StrTag {
      var stop := offset + 4 + FromBe(word);
      assert base[offset..stop] == word + base[offset + 4..stop];
    }
  }

  /** Whatever the decoder accepts: the cursor only moves forward and stays
      within the buffer, advancing by exactly the encoded size; each value
      has its field's type; strings are well-formed UTF-8; and the bytes
      consumed are exactly the encoding of the values returned. */
  lemma DecodedIsEncoding(schema: Schema, base: seq<byte>, offset: nat)
    requires offset <= |base|
    requires DecodeFrom(schema, base, offset).Success?
    ensures var (vals, end) := DecodeFrom(schema, base, offset).value;
            offset <= end <= |base| && end - offset == Size(vals) &&
            Conforms(schema, vals) &&
            Encode(vals) == Success(base[offset..end])
  {
    DecodedEncodes(schema, base, offset);
    EncodedLength(DecodeFrom(schema, base, offset).value.0);
  }

  lemma {:induction false} DecodedEncodes(schema: Schema, base: seq<byte>, offset: nat)
    requires offset <= |base|
    requires DecodeFrom(schema, base, offset).Success?
    ensures var (vals, end) := DecodeFrom(schema, base, offset).value;
            offset <= end <= |base| && Conforms(schema, vals) &&
            Encode(vals) == Success(base[offset..end])
    decreases |schema|
  {
    if schema != [] {
      var v, next := DecodedCons(schema, base, offset);
      DecodedEncodes(schema[1..], base, next);
      var (vs, end) := DecodeFrom(schema[1..], base, next).value;
      SliceJoin(base, offset, next, end);
      EncodedThenRest(schema, v, vs, base[offset..next], base[next..end]);
    } else {
      assert base[offset..offset] == [];
    }
  }

  /** A successful read of a non-empty schema: a first value of the first
      field's type whose encoding is what it consumed, then a successful
      read of the rest. */
  lemma DecodedCons(schema: Schema, base: seq<byte>, offset: nat) returns (v: Value, next: nat)
    requires schema != []
    requires DecodeFrom(schema, base, offset).Success?
    ensures offset < next <= |base|
    ensures FieldConforms(schema[0], v)
    ensures EncodeValue(v) == Success(base[offset..next])
    ensures DecodeFrom(schema[1..], base, next).Success?
    ensures DecodeFrom(schema, base, offset).value ==
      ([v] + DecodeFrom(schema[1..], base, next).value.0, DecodeFrom(schema[1..], base, next).value.1)
  {
    FieldDecodedIsEncoding(schema[0].tag, base, offset);
    v := DecodeField(schema[0].tag, base, offset).value.0;
    next := DecodeField(schema[0].tag, base, offset).value.1;
  }

  /** A first value and the rest, encoded by `e` and `b'`, make a record
      of the schema encoded by `e + b'`. */
  lemma EncodedThenRest(schema: Schema, v: Value, vs: Record, e: seq<byte>, b': seq<byte>)
    requires schema != []
    requires FieldConforms(schema[0], v)
    requires EncodeValue(v) == Success(e)
    requires Conforms(schema[1..], vs)
    requires Encode(vs) == Success(b')
    ensures Conforms(schema, [v] + vs)
    ensures Encode([v] + vs) == Success(e + b')
  {
    var vals := [v] + vs;
    assert vals[1..] == vs;
  }

  /** Two adjacent slices of a buffer make one. */
  lemma SliceJoin(base: seq<byte>, offset: nat, next: nat, end: nat)
    requires offset <= next <= end <= |base|
    ensures base[offset..end] == base[offset..next] + base[next..end]
  {
  }

  /** The converse of the round trip: a successful decode of `base` returns
      a record whose encoding is a prefix of `base`. */
  lemma DecodeThenEncode(schema: Schema, base: seq<byte>)
    requires Decode(schema, base).Success?
    ensures Conforms(schema, Decode(schema, base).value)
    ensures Encode(Decode(schema, base).value).Success?
    ensures var b := Encode(Decode(schema, base).value).value;
            |b| <= |base| && base[..|b|] == b
  {
    DecodedIsEncoding(schema, base, 0);
  }
}
