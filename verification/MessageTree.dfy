/**
 * Messages as the generated codecs write and read them: `writer.uint32(tag).string(v)`, nested messages
 * between `fork` and `ldelim`, and a decoding loop that skips the fields it does not know.
 */
module MessageTree {
  import opened Wrappers
  import opened JsBits
  import opened Varint
  import opened Utf8
  import opened Writer
  import opened Reader

  /** A field with its number; groups and fixed-width fields are only ever skipped. */
  datatype Field =
    | Scalar(no: nat, v: nat)
    | Word(no: nat, v: nat)
    | Wide(no: nat, v: nat)
    | Blob(no: nat, bytes: seq<byte>)
    | Text(no: nat, str: seq<unit16>)
    | Message(no: nat, fields: seq<Field>)
    | Group(no: nat, fields: seq<Field>)

  function WireType(f: Field): nat {
    match f
    case Scalar(_, _) => 0
    case Wide(_, _) => 1
    case Group(_, _) => 3
    case Word(_, _) => 5
    case _ => 2
  }

  function TagBytes(no: nat, wireType: nat): seq<byte> { Base128(8 * no + wireType) }

  function Delimited(bytes: seq<byte>): seq<byte> { Base128(|bytes|) + bytes }

  /** The bytes after the tag. */
  function Body(f: Field): seq<byte>
    decreases f, 0
  {
    match f
    case Scalar(_, v) => Base128(v)
    case Word(_, v) => if v < TWO_32 then FixedBytes(v) else []
    case Wide(_, v) => if v < TWO_64 then FixedBytes64(v) else []
    case Blob(_, bytes) => Delimited(bytes)
    case Text(_, str) => Delimited(Encode(str))
    case Message(_, fields) => Delimited(EncodeAll(fields))
    case Group(no, fields) => EncodeAll(fields) + TagBytes(no, 4)
  }

  function EncodeField(f: Field): seq<byte>
    decreases f, 1
  {
    TagBytes(f.no, WireType(f)) + Body(f)
  }

  function EncodeAll(fields: seq<Field>): seq<byte>
    decreases fields
  {
    if fields == [] then [] else EncodeField(fields[0]) + EncodeAll(fields[1..])
  }

  /** Field numbers have 29 bits, values fit their width, and lengths fit the 32 bits the writer keeps of them. */
  predicate WellFormed(f: Field)
    decreases f, 1
  {
    f.no < 0x2000_0000 &&
    match f
    case Scalar(_, v) => v < TWO_64
    case Word(_, v) => v < TWO_32
    case Wide(_, v) => v < TWO_64
    case Blob(_, bytes) => |bytes| < TWO_32
    case Text(_, str) => |Encode(str)| < TWO_32
    case Message(_, fields) => |EncodeAll(fields)| < TWO_32 && AllWellFormed(fields)
    case Group(_, fields) => AllWellFormed(fields)
  }

  predicate AllWellFormed(fields: seq<Field>)
    decreases fields
  {
    fields == [] || (WellFormed(fields[0]) && AllWellFormed(fields[1..]))
  }

  // ----- writing -----

  lemma TagFits(no: nat, wireType: nat)
    requires no < 0x2000_0000 && wireType < 8
    ensures ToUint32(8 * no + wireType) == 8 * no + wireType
  {
  }

  /** One field, as a generated `encode` writes it. */
  method WriteField(writer: BinaryWriter, f: Field)
    requires writer.Valid() && WellFormed(f)
    modifies writer, writer.Repr()
    ensures writer.Valid() && writer.OwnsOnlyNew()
    ensures writer.Content() == old(writer.Content()) + EncodeField(f) && writer.Saved() == old(writer.Saved())
    decreases f, 1
  {
    hide BinaryWriter.Valid, BinaryWriter.Repr, BinaryWriter.Content, BinaryWriter.Saved, Base128, Body;
    TagFits(f.no, WireType(f));
    TailOwned(writer);
    writer.Tag(f.no, WireType(f));
    WriteBody(writer, f);
  }

  /** What follows the tag. */
  method WriteBody(writer: BinaryWriter, f: Field)
    requires writer.Valid() && WellFormed(f)
    modifies writer, writer.Repr()
    ensures writer.Valid() && writer.OwnsOnlyNew()
    ensures writer.Content() == old(writer.Content()) + Body(f) && writer.Saved() == old(writer.Saved())
    decreases f, 0
  {
    hide BinaryWriter.Valid, BinaryWriter.Repr, BinaryWriter.Content, BinaryWriter.Saved, Base128, Encode, FixedBytes,
         EncodeAll;
    TailOwned(writer);
    match f
    case Scalar(_, v) =>
      writer.Int64(v);
    case Word(_, v) =>
      ToUint32Same(v);
      writer.Fixed32(v);
    case Wide(_, v) =>
      writer.Fixed64(v);
    case Blob(_, bytes) =>
      writer.Bytes(bytes);
    case Text(_, str) =>
      ToUint32Same(|Encode(str)|);
      writer.String(str);
    case Message(_, fields) =>
      writer.Fork();
      WriteFields(writer, fields);
      ToUint32Same(|EncodeAll(fields)|);
      writer.Ldelim();
    case Group(no, fields) =>
      WriteFields(writer, fields);
      TagFits(no, 4);
      TailOwned(writer);
      writer.Tag(no, 4);
  }

  method WriteFields(writer: BinaryWriter, fields: seq<Field>)
    requires writer.Valid() && AllWellFormed(fields)
    modifies writer, writer.Repr()
    ensures writer.Valid() && writer.OwnsOnlyNew()
    ensures writer.Content() == old(writer.Content()) + EncodeAll(fields) && writer.Saved() == old(writer.Saved())
    decreases fields, 0
  {
    hide BinaryWriter.Valid, BinaryWriter.Repr, BinaryWriter.Content, BinaryWriter.Saved, Base128, Encode, FixedBytes,
         EncodeField;
    if fields != [] {
      WriteField(writer, fields[0]);
      WriteFields(writer, fields[1..]);
    }
  }

  // ----- skipping -----

  /** The bytes `w` stand at `pos`. */
  predicate Placed(buf: seq<byte>, pos: nat, w: seq<byte>) {
    pos + |w| <= |buf| && buf[pos..pos + |w|] == w
  }

  lemma PlacedSplit(buf: seq<byte>, pos: nat, a: seq<byte>, b: seq<byte>)
    requires Placed(buf, pos, a + b)
    ensures Placed(buf, pos, a) && Placed(buf, pos + |a|, b)
  {
    var w := a + b;
    assert buf[pos..pos + |a|] == buf[pos..pos + |w|][..|a|] == w[..|a|];
    assert buf[pos + |a|..pos + |w|] == buf[pos..pos + |w|][|a|..] == w[|a|..];
  }

  /** Reading a length-delimited value gives its contents back. */
  lemma DelimitedBack(buf: seq<byte>, pos: nat, bytes: seq<byte>)
    requires |bytes| < TWO_32 && Placed(buf, pos, Delimited(bytes))
    ensures ReadBytes(buf, pos) == (Ok(bytes), pos + |Delimited(bytes)|)
    ensures ReadVarint(buf, pos) == (Ok(|bytes|), pos + |Base128(|bytes|)|)
    ensures Placed(buf, pos + |Base128(|bytes|)|, bytes)
  {
    hide Base128, ReadVarint;
    PlacedSplit(buf, pos, Base128(|bytes|), bytes);
    ReadBack(|bytes|, buf, pos);
  }

  /** The tag of a field is read back with its number and wire type. */
  lemma TagBack(buf: seq<byte>, pos: nat, no: nat, wireType: nat)
    requires no < 0x2000_0000 && wireType < 8 && Placed(buf, pos, TagBytes(no, wireType))
    ensures ReadVarint(buf, pos) == (Ok(8 * no + wireType), pos + |TagBytes(no, wireType)|)
    ensures (8 * no + wireType) % TWO_32 == 8 * no + wireType
    ensures (8 * no + wireType) % 8 == wireType && (8 * no + wireType) / 8 == no
  {
    hide Base128, ReadVarint;
    ReadBack(8 * no + wireType, buf, pos);
  }

  /** An encoded field in front of `rest`: its tag is read, and what follows the tag and the field stands where it should. */
  lemma FieldPlaced(f: Field, rest: seq<byte>, buf: seq<byte>, pos: nat)
    requires WellFormed(f) && Placed(buf, pos, EncodeField(f) + rest)
    ensures var tag := TagBytes(f.no, WireType(f));
            && ReadVarint(buf, pos) == (Ok(8 * f.no + WireType(f)), pos + |tag|)
            && (8 * f.no + WireType(f)) % TWO_32 == 8 * f.no + WireType(f)
            && (8 * f.no + WireType(f)) % 8 == WireType(f) && (8 * f.no + WireType(f)) / 8 == f.no
            && Placed(buf, pos + |tag|, Body(f)) && |EncodeField(f)| == |tag| + |Body(f)|
    ensures Placed(buf, pos + |EncodeField(f)|, rest)
  {
    hide ReadVarint, TagBytes, Body;
    PlacedSplit(buf, pos, EncodeField(f), rest);
    PlacedSplit(buf, pos, TagBytes(f.no, WireType(f)), Body(f));
    TagBack(buf, pos, f.no, WireType(f));
  }

  /** `skipType` moves from behind the tag of a well-formed field to the end of that field, whatever is nested in it. */
  lemma {:induction false} SkipLandsAtEnd(f: Field, buf: seq<byte>, pos: nat)
    requires WellFormed(f) && Placed(buf, pos, Body(f))
    ensures SkipType(buf, pos, WireType(f)) == (Ok(()), pos + |Body(f)|)
    decreases f, 1
  {
    hide Base128, ReadVarint, Encode, SkipBytes, SkipGroup, EncodeAll, Delimited, ReadBytes, FixedBytes;
    match f
    case Scalar(_, v) =>
      ReadBack(v, buf, pos);
      SkipMeetsVarint(buf, pos);
      assert SkipBytes(buf, pos).0.value == ();
    case Word(_, v) =>
    case Wide(_, v) =>
    case Blob(_, bytes) =>
      SkipDelimited(buf, pos, bytes);
    case Text(_, str) =>
      SkipDelimited(buf, pos, Encode(str));
    case Message(_, fields) =>
      SkipDelimited(buf, pos, EncodeAll(fields));
    case Group(no, fields) =>
      PlacedSplit(buf, pos, EncodeAll(fields), TagBytes(no, 4));
      SkipGroupLandsAtEnd(fields, no, buf, pos);
  }

  lemma SkipDelimited(buf: seq<byte>, pos: nat, bytes: seq<byte>)
    requires |bytes| < TWO_32 && Placed(buf, pos, Delimited(bytes))
    ensures SkipType(buf, pos, 2) == (Ok(()), pos + |Delimited(bytes)|)
  {
    hide Base128, ReadVarint, SkipBytes, SkipGroup;
    DelimitedBack(buf, pos, bytes);
  }

  lemma {:induction false} SkipGroupLandsAtEnd(fields: seq<Field>, no: nat, buf: seq<byte>, pos: nat)
    requires AllWellFormed(fields) && no < 0x2000_0000
    requires Placed(buf, pos, EncodeAll(fields)) && Placed(buf, pos + |EncodeAll(fields)|, TagBytes(no, 4))
    ensures SkipGroup(buf, pos) == (Ok(()), pos + |EncodeAll(fields)| + |TagBytes(no, 4)|)
    decreases fields, 0
  {
    hide ReadVarint, SkipType, TagBytes, Body, WireType;
    if fields == [] {
      TagBack(buf, pos, no, 4);
    } else {
      var f := fields[0];
      var rest := EncodeAll(fields[1..]);
      DataWireType(f);
      FieldPlaced(f, rest, buf, pos);
      SkipLandsAtEnd(f, buf, pos + |TagBytes(f.no, WireType(f))|);
      SkipGroupLandsAtEnd(fields[1..], no, buf, pos + |EncodeField(f)|);
    }
  }

  lemma DataWireType(f: Field)
    ensures WireType(f) <= 5 && WireType(f) != 4
  {
  }

  // ----- reading -----

  /** What a decoder knows about a field number of a message type. */
  datatype Kind = Unknown | Uint64 | Bytes | Str | Nested(messageType: nat)

  type Schema = (nat, nat) -> Kind

  /** Puts a field, if the decoder kept one, in front of the result of the rest of the loop. */
  function Prepend(f: Option<Field>, r: (Result<seq<Field>>, nat)): (Result<seq<Field>>, nat) {
    match r.0
    case Err(_) => r
    case Ok(fields) => (Ok(if f.Some? then [f.value] + fields else fields), r.1)
  }

  /** The body of the loop, behind the tag: a known field is read as its kind, any other is skipped by its wire type. */
  function DecodeBody(schema: Schema, messageType: nat, tag: nat, buf: seq<byte>, pos: nat): (r: (Result<Option<Field>>, nat))
    ensures r.1 >= pos
    decreases Remaining(buf, pos), 1
  {
    var no := tag / 8;
    match schema(messageType, no)
    case Unknown =>
      (match SkipType(buf, pos, tag % 8) case (Err(e), p) => (Err(e), p) case (Ok(_), p) => (Ok(None), p))
    case Uint64 =>
      (match ReadVarint(buf, pos) case (Err(e), p) => (Err(e), p) case (Ok(v), p) => (Ok(Some(Scalar(no, v % TWO_64))), p))
    case Bytes =>
      (match ReadBytes(buf, pos) case (Err(e), p) => (Err(e), p) case (Ok(b), p) => (Ok(Some(Blob(no, b))), p))
    case Str =>
      (match ReadBytes(buf, pos) case (Err(e), p) => (Err(e), p) case (Ok(b), p) => (Ok(Some(Field.Text(no, TextOf(b)))), p))
    case Nested(inner) =>
      match ReadVarint(buf, pos)
      case (Err(e), p) => (Err(e), p)
      case (Ok(v), p) =>
        match Decode(schema, inner, buf, p, p + v % TWO_32)
        case (Err(e), q) => (Err(e), q)
        case (Ok(fields), q) => (Ok(Some(Message(no, fields))), q)
  }

  function TextOf(b: seq<byte>): seq<unit16> { FromCharCode(Emitted(Pieces(b, 0, |b|), [], 0)) }

  /** `while (reader.pos < end)`. */
  function Decode(schema: Schema, messageType: nat, buf: seq<byte>, pos: nat, end: nat): (r: (Result<seq<Field>>, nat))
    ensures r.1 >= pos
    decreases Remaining(buf, pos), 0
  {
    if pos >= end then (Ok([]), pos)
    else
      match ReadVarint(buf, pos)
      case (Err(e), p) => (Err(e), p)
      case (Ok(v), p) =>
        match DecodeBody(schema, messageType, v % TWO_32, buf, p)
        case (Err(e), q) => (Err(e), q)
        case (Ok(f), q) => Prepend(f, Decode(schema, messageType, buf, q, end))
  }

  /** The fields a decoder keeps, at every level. */
  function Known(schema: Schema, messageType: nat, fields: seq<Field>): seq<Field>
    decreases fields
  {
    if fields == [] then [] else KnownField(schema, messageType, fields[0]) + Known(schema, messageType, fields[1..])
  }

  function KnownField(schema: Schema, messageType: nat, f: Field): seq<Field>
    decreases f, 1
  {
    var kind := schema(messageType, f.no);
    if kind.Unknown? then []
    else if kind.Nested? && f.Message? then [Message(f.no, Known(schema, kind.messageType, f.fields))]
    else [f]
  }

  /** The fields the decoder knows have the kind it expects, and their text survives `utf8Read`. */
  predicate Conforms(schema: Schema, messageType: nat, fields: seq<Field>)
    decreases fields
  {
    fields == [] || (FieldConforms(schema, messageType, fields[0]) && Conforms(schema, messageType, fields[1..]))
  }

  predicate FieldConforms(schema: Schema, messageType: nat, f: Field)
    decreases f, 1
  {
    match schema(messageType, f.no)
    case Unknown => true
    case Uint64 => f.Scalar?
    case Bytes => f.Blob?
    case Str => f.Text? && CleanText(f.str)
    case Nested(inner) => f.Message? && Conforms(schema, inner, f.fields)
  }

  /** Decoding what was encoded gives back exactly the fields the decoder knows, and stops at the end of the message. */
  lemma {:induction false} DecodeOfEncode(schema: Schema, messageType: nat, fields: seq<Field>, buf: seq<byte>, pos: nat)
    requires AllWellFormed(fields) && Conforms(schema, messageType, fields)
    requires Placed(buf, pos, EncodeAll(fields))
    ensures Decode(schema, messageType, buf, pos, pos + |EncodeAll(fields)|)
            == (Ok(Known(schema, messageType, fields)), pos + |EncodeAll(fields)|)
    decreases fields, 0
  {
    hide ReadVarint, DecodeBody, EncodeField, TagBytes, Body, WireType, KnownField, FieldConforms, WellFormed;
    if fields != [] {
      hide Decode, Placed;
      var f := fields[0];
      var rest := EncodeAll(fields[1..]);
      assert EncodeAll(fields) == EncodeField(f) + rest;
      FieldPlaced(f, rest, buf, pos);
      BodyOfEncode(schema, messageType, f, buf, pos + |TagBytes(f.no, WireType(f))|);
      DecodeStep(schema, messageType, buf, pos, pos + |EncodeAll(fields)|);
      DecodeOfEncode(schema, messageType, fields[1..], buf, pos + |EncodeField(f)|);
      assert [] + Known(schema, messageType, fields[1..]) == Known(schema, messageType, fields[1..]);
    }
  }

  /** One turn of the loop that gets through. */
  lemma DecodeStep(schema: Schema, messageType: nat, buf: seq<byte>, pos: nat, end: nat)
    requires pos < end && ReadVarint(buf, pos).0.Ok?
    ensures var v, p := ReadVarint(buf, pos).0.value, ReadVarint(buf, pos).1;
            var body := DecodeBody(schema, messageType, v % TWO_32, buf, p);
            body.0.Ok? ==>
              Decode(schema, messageType, buf, pos, end) ==
              Prepend(body.0.value, Decode(schema, messageType, buf, body.1, end))
  {
    hide ReadVarint, DecodeBody;
  }

  lemma {:induction false} BodyOfEncode(schema: Schema, messageType: nat, f: Field, buf: seq<byte>, pos: nat)
    requires WellFormed(f) && FieldConforms(schema, messageType, f) && Placed(buf, pos, Body(f))
    ensures DecodeBody(schema, messageType, 8 * f.no + WireType(f), buf, pos).1 == pos + |Body(f)|
    ensures var r, known := DecodeBody(schema, messageType, 8 * f.no + WireType(f), buf, pos).0, KnownField(schema, messageType, f);
            r.Ok? && known == if r.value.Some? then [r.value.value] else []
    decreases f, 1
  {
    hide Base128, ReadVarint, ReadBytes, Encode, SkipType, EncodeAll, Delimited, TextOf, CleanText, Decode, Known;
    TagParity(f);
    match schema(messageType, f.no)
    case Unknown =>
      SkipLandsAtEnd(f, buf, pos);
    case Uint64 =>
      ReadBack(f.v, buf, pos);
    case Bytes =>
      DelimitedBack(buf, pos, f.bytes);
    case Str =>
      DelimitedBack(buf, pos, Encode(f.str));
      TextBack(f.str);
    case Nested(inner) =>
      DelimitedBack(buf, pos, EncodeAll(f.fields));
      DecodeOfEncode(schema, inner, f.fields, buf, pos + |Base128(|EncodeAll(f.fields)|)|);
      DelimitedLength(EncodeAll(f.fields));
  }

  lemma DelimitedLength(bytes: seq<byte>)
    ensures |Delimited(bytes)| == |Base128(|bytes|)| + |bytes|
  {
  }

  lemma TextBack(str: seq<unit16>)
    requires CleanText(str)
    ensures TextOf(Encode(str)) == str
  {
    hide Encode, Emitted, Pieces, FromCharCode, CleanText;
    ReadOfWrite(str, Encode(str), 0, |Encode(str)|);
  }

  lemma TagParity(f: Field)
    ensures (8 * f.no + WireType(f)) / 8 == f.no && (8 * f.no + WireType(f)) % 8 == WireType(f)
  {
  }

  /** A decoder that knows every field loses nothing. */
  predicate AllKnown(schema: Schema, messageType: nat, fields: seq<Field>)
    decreases fields
  {
    fields == [] || (FieldKnown(schema, messageType, fields[0]) && AllKnown(schema, messageType, fields[1..]))
  }

  predicate FieldKnown(schema: Schema, messageType: nat, f: Field)
    decreases f, 1
  {
    var kind := schema(messageType, f.no);
    !kind.Unknown? && (kind.Nested? && f.Message? ==> AllKnown(schema, kind.messageType, f.fields))
  }

  lemma {:induction false} KnownIsEverything(schema: Schema, messageType: nat, fields: seq<Field>)
    requires AllKnown(schema, messageType, fields)
    ensures Known(schema, messageType, fields) == fields
    decreases fields, 0
  {
    if fields != [] {
      KnownFieldIsItself(schema, messageType, fields[0]);
      KnownIsEverything(schema, messageType, fields[1..]);
    }
  }

  lemma {:induction false} KnownFieldIsItself(schema: Schema, messageType: nat, f: Field)
    requires FieldKnown(schema, messageType, f)
    ensures KnownField(schema, messageType, f) == [f]
    decreases f, 1
  {
    var kind := schema(messageType, f.no);
    if kind.Nested? && f.Message? {
      KnownIsEverything(schema, kind.messageType, f.fields);
    }
  }

  /** The whole tree, empty messages included, comes back from its bytes. */
  lemma TreeRoundTrip(schema: Schema, messageType: nat, fields: seq<Field>)
    requires AllWellFormed(fields) && Conforms(schema, messageType, fields) && AllKnown(schema, messageType, fields)
    ensures var buf := EncodeAll(fields); Decode(schema, messageType, buf, 0, |buf|) == (Ok(fields), |buf|)
  {
    hide *;
    PlacedWhole(EncodeAll(fields));
    DecodeOfEncode(schema, messageType, fields, EncodeAll(fields), 0);
    KnownIsEverything(schema, messageType, fields);
  }

  lemma PlacedWhole(buf: seq<byte>)
    ensures Placed(buf, 0, buf)
  {
    assert buf[0..|buf|] == buf;
  }

  /** A generated `decode`: the loop over the fields of one message. */
  method DecodeMessage(reader: BinaryReader, schema: Schema, messageType: nat, end: nat) returns (r: Result<seq<Field>>)
    requires reader.Valid()
    modifies reader`pos
    ensures (r, reader.pos) == Decode(schema, messageType, reader.buf, old(reader.pos), end)
    decreases Remaining(reader.buf, reader.pos), 0
  {
    hide ReadVarint, DecodeBody;
    var fields: seq<Field> := [];
    AfterNothing(Decode(schema, messageType, reader.buf, reader.pos, end));
    while reader.pos < end
      invariant reader.pos >= old(reader.pos)
      invariant Decode(schema, messageType, reader.buf, old(reader.pos), end)
                == After(fields, Decode(schema, messageType, reader.buf, reader.pos, end))
      decreases Remaining(reader.buf, reader.pos)
    {
      var tag := reader.Uint32();
      if tag.Err? {
        return Err(tag.error);
      }
      var field := DecodeField(reader, schema, messageType, tag.value);
      if field.Err? {
        return Err(field.error);
      }
      AfterStep(fields, field.value, Decode(schema, messageType, reader.buf, reader.pos, end));
      if field.value.Some? {
        fields := fields + [field.value.value];
      }
    }
    assert fields + [] == fields;
    return Ok(fields);
  }

  /** A result behind fields decoded earlier. */
  ghost function After(fields: seq<Field>, r: (Result<seq<Field>>, nat)): (Result<seq<Field>>, nat) {
    match r.0
    case Err(_) => r
    case Ok(rest) => (Ok(fields + rest), r.1)
  }

  lemma AfterNothing(r: (Result<seq<Field>>, nat))
    ensures After([], r) == r
  {
    assert r.0.Ok? ==> [] + r.0.value == r.0.value;
  }

  lemma AfterStep(fields: seq<Field>, f: Option<Field>, r: (Result<seq<Field>>, nat))
    ensures After(fields, Prepend(f, r)) == After(if f.Some? then fields + [f.value] else fields, r)
  {
    if f.Some? && r.0.Ok? {
      assert fields + ([f.value] + r.0.value) == fields + [f.value] + r.0.value;
    }
  }

  method DecodeField(reader: BinaryReader, schema: Schema, messageType: nat, tag: nat)
    returns (r: Result<Option<Field>>)
    requires reader.Valid() && tag < TWO_32
    modifies reader`pos
    ensures (r, reader.pos) == DecodeBody(schema, messageType, tag, reader.buf, old(reader.pos))
    decreases Remaining(reader.buf, reader.pos), 1
  {
    hide ReadVarint, SkipType, ReadBytes, Decode, Shr, BitAnd;
    TagParts(tag);
    var no := Shr(tag, 3);
    match schema(messageType, no)
    case Unknown =>
      var skipped := reader.SkipField(BitAnd(tag, 7));
      return if skipped.Err? then Err(skipped.error) else Ok(None);
    case Uint64 =>
      var v := reader.Uint64();
      return if v.Err? then Err(v.error) else Ok(Some(Scalar(no, v.value)));
    case Bytes =>
      var b := reader.Bytes();
      return if b.Err? then Err(b.error) else Ok(Some(Blob(no, b.value)));
    case Str =>
      var str := reader.String();
      return if str.Err? then Err(str.error) else Ok(Some(Field.Text(no, str.value)));
    case Nested(inner) =>
      var n := reader.Uint32();
      if n.Err? {
        return Err(n.error);
      }
      var fields := DecodeMessage(reader, schema, inner, reader.pos + n.value);
      return if fields.Err? then Err(fields.error) else Ok(Some(Message(no, fields.value)));
  }

  /** `encode(message).finish()`. */
  method EncodeMessage(fields: seq<Field>) returns (buf: array<byte>)
    requires AllWellFormed(fields)
    ensures fresh(buf) && buf[..] == EncodeAll(fields)
  {
    hide AllWellFormed, EncodeAll, BinaryWriter.Valid, BinaryWriter.Repr, BinaryWriter.Content;
    var writer := new BinaryWriter();
    WriteFields(writer, fields);
    assert [] + EncodeAll(fields) == EncodeAll(fields);
    OwnedBits(writer);
    buf := writer.Finish();
  }

  /** `decode(encode(message).finish())`, on the mutable writer and reader. */
  method EncodeThenDecode(schema: Schema, messageType: nat, fields: seq<Field>) returns (r: Result<seq<Field>>)
    requires AllWellFormed(fields) && Conforms(schema, messageType, fields)
    ensures r == Ok(Known(schema, messageType, fields))
  {
    hide AllWellFormed, Conforms, EncodeAll, Decode, Known, Placed;
    var buf := EncodeMessage(fields);
    PlacedWhole(EncodeAll(fields));
    DecodeOfEncode(schema, messageType, fields, EncodeAll(fields), 0);
    var reader := new BinaryReader(buf[..]);
    r := DecodeMessage(reader, schema, messageType, reader.len);
  }
}
