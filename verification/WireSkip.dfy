/** `skipType` against the readers, on every buffer. */
module WireSkip {
  import opened Wrappers
  import opened JsBits
  import opened Varint
  import opened Utf8
  import opened Writer
  import opened Reader
  import opened Integers
  import opened MessageTree

  /** Ten continuation bytes and a last one: the shortest varint that is skipped but not read. */
  lemma LongVarintIsSkippedOnly()
    ensures var buf: seq<byte> := seq(10, _ => 0x80) + [0];
            SkipBytes(buf, 0) == (Ok(()), 11) && ReadVarint(buf, 0) == (Err(InvalidVarint), 10)
  {
    hide SkipBytes;
    var buf: seq<byte> := seq(10, _ => 0x80) + [0];
    SkipRun(buf, 0);
    SkipMeetsVarint(buf, 0);
    SkipMeetsScan(buf, 0, 10);
  }

  lemma {:induction false} SkipRun(buf: seq<byte>, pos: nat)
    requires pos < |buf| && (forall i :: pos <= i < |buf| - 1 ==> buf[i] >= 128) && buf[|buf| - 1] < 128
    ensures SkipBytes(buf, pos) == (Ok(()), |buf|)
    decreases |buf| - pos
  {
    if pos < |buf| - 1 {
      SkipRun(buf, pos + 1);
    }
  }

  // ----- whole fields -----

  /**
   * The field behind a tag, read with the reader of its wire type: None when that reader throws, the field does
   * not lie inside the buffer, or there is no such wire type.
   */
  function ReadField(buf: seq<byte>, pos: nat, tag: nat): (r: (Option<Field>, nat))
    ensures r.1 >= pos
    decreases Remaining(buf, pos), 1
  {
    var no, wireType := tag / 8, tag % 8;
    if wireType == 0 then
      match ReadVarint(buf, pos)
      case (Err(_), p) => (None, p)
      case (Ok(v), p) => (Some(Scalar(no, v % TWO_64)), p)
    else if wireType == 1 then
      if pos + 8 > |buf| then (None, pos)
      else (Some(Wide(no, FixedAt(buf, pos) + TWO_32 * FixedAt(buf, pos + 4))), pos + 8)
    else if wireType == 2 then
      match ReadBytes(buf, pos)
      case (Err(_), p) => (None, p)
      case (Ok(b), p) => (Some(Blob(no, b)), p)
    else if wireType == 3 then
      match ReadGroup(buf, pos)
      case (None, p) => (None, p)
      case (Some(fields), p) => (Some(Group(no, fields)), p)
    else if wireType == 5 then
      if pos + 4 > |buf| then (None, pos) else (Some(Word(no, FixedAt(buf, pos))), pos + 4)
    else (None, pos)
  }

  /** The fields up to an end-group tag. */
  function ReadGroup(buf: seq<byte>, pos: nat): (r: (Option<seq<Field>>, nat))
    ensures r.1 >= pos
    decreases Remaining(buf, pos), 0
  {
    match ReadVarint(buf, pos)
    case (Err(_), p) => (None, p)
    case (Ok(v), p) =>
      if v % 8 == 4 then (Some([]), p)
      else
        match ReadField(buf, p, v % TWO_32)
        case (None, q) => (None, q)
        case (Some(f), q) =>
          match ReadGroup(buf, q)
          case (None, e) => (None, e)
          case (Some(rest), e) => (Some([f] + rest), e)
  }

  /** Somewhere in the field that is skipped stands a varint of more than ten bytes. */
  predicate Overlong(buf: seq<byte>, pos: nat, wireType: nat)
    decreases Remaining(buf, pos), 1
  {
    if wireType == 0 then SkipBytes(buf, pos).1 > pos + 10
    else wireType == 3 && OverlongInGroup(buf, pos)
  }

  predicate OverlongInGroup(buf: seq<byte>, pos: nat)
    decreases Remaining(buf, pos), 0
  {
    match ReadVarint(buf, pos)
    case (Err(_), p) => false
    case (Ok(v), p) =>
      v % 8 != 4 &&
      (Overlong(buf, p, v % 8)
       || (SkipType(buf, p, v % 8).0.Ok? && OverlongInGroup(buf, SkipType(buf, p, v % 8).1)))
  }

  /**
   * On every buffer, `skipType` accepts a field and lands where reading it ends, for exactly the fields that can
   * be read; beyond those it accepts only fields with an overlong varint inside.
   */
  lemma {:induction false} SkipMeetsReading(buf: seq<byte>, pos: nat, tag: nat)
    ensures ReadField(buf, pos, tag).0.Some? <==> SkipType(buf, pos, tag % 8).0.Ok? && !Overlong(buf, pos, tag % 8)
    ensures ReadField(buf, pos, tag).0.Some? ==> ReadField(buf, pos, tag).1 == SkipType(buf, pos, tag % 8).1
    decreases Remaining(buf, pos), 1
  {
    hide ReadVarint, SkipBytes, SkipGroup, ReadGroup, OverlongInGroup, ReadBytes, FixedAt;
    if tag % 8 == 0 {
      SkipMeetsVarint(buf, pos);
    } else if tag % 8 == 2 {
      SkipMeetsBytes(buf, pos);
    } else if tag % 8 == 3 {
      SkipMeetsGroup(buf, pos);
    }
  }

  lemma {:induction false} SkipMeetsGroup(buf: seq<byte>, pos: nat)
    ensures ReadGroup(buf, pos).0.Some? <==> SkipGroup(buf, pos).0.Ok? && !OverlongInGroup(buf, pos)
    ensures ReadGroup(buf, pos).0.Some? ==> ReadGroup(buf, pos).1 == SkipGroup(buf, pos).1
    decreases Remaining(buf, pos), 0
  {
    hide ReadVarint, SkipType, ReadField, Overlong;
    match ReadVarint(buf, pos)
    case (Err(_), p) =>
    case (Ok(v), p) =>
      if v % 8 != 4 {
        WireTypeOf(v);
        SkipMeetsReading(buf, p, v % TWO_32);
        if SkipType(buf, p, v % 8).0.Ok? {
          SkipMeetsGroup(buf, SkipType(buf, p, v % 8).1);
        }
      }
  }

  // ----- reading by wire type what was written -----

  /** What the wire type tells of a field: text and messages are bytes. */
  function OnWire(f: Field): Field
    decreases f, 1
  {
    match f
    case Text(no, str) => Blob(no, Encode(str))
    case Message(no, fields) => Blob(no, EncodeAll(fields))
    case Group(no, fields) => Group(no, AllOnWire(fields))
    case _ => f
  }

  function AllOnWire(fields: seq<Field>): seq<Field>
    decreases fields
  {
    if fields == [] then [] else [OnWire(fields[0])] + AllOnWire(fields[1..])
  }

  /** An encoded field is read back by its wire type alone, groups at any depth included. */
  lemma {:induction false} ReadFieldBack(f: Field, buf: seq<byte>, pos: nat)
    requires WellFormed(f) && Placed(buf, pos, Body(f))
    ensures ReadField(buf, pos, 8 * f.no + WireType(f)) == (Some(OnWire(f)), pos + |Body(f)|)
    decreases f, 1
  {
    hide Base128, ReadVarint, Encode, ReadGroup, EncodeAll, ReadBytes, FixedBytes, FixedAt, AllOnWire, Delimited;
    TagParity(f);
    match f
    case Scalar(_, v) =>
      ReadBack(v, buf, pos);
    case Word(_, v) =>
      ToUint32Same(v);
      Fixed32Back(v, buf, pos);
    case Wide(_, v) =>
      Fixed64Back(v, buf, pos);
    case Blob(_, bytes) =>
      DelimitedBack(buf, pos, bytes);
    case Text(_, str) =>
      DelimitedBack(buf, pos, Encode(str));
    case Message(_, fields) =>
      DelimitedBack(buf, pos, EncodeAll(fields));
    case Group(no, fields) =>
      PlacedSplit(buf, pos, EncodeAll(fields), TagBytes(no, 4));
      ReadGroupBack(fields, no, buf, pos);
  }

  lemma {:induction false} ReadGroupBack(fields: seq<Field>, no: nat, buf: seq<byte>, pos: nat)
    requires AllWellFormed(fields) && no < 0x2000_0000
    requires Placed(buf, pos, EncodeAll(fields)) && Placed(buf, pos + |EncodeAll(fields)|, TagBytes(no, 4))
    ensures ReadGroup(buf, pos) == (Some(AllOnWire(fields)), pos + |EncodeAll(fields)| + |TagBytes(no, 4)|)
    decreases fields, 0
  {
    hide ReadVarint, ReadField, TagBytes, Body, WireType, OnWire;
    if fields == [] {
      TagBack(buf, pos, no, 4);
    } else {
      var f := fields[0];
      var rest := EncodeAll(fields[1..]);
      DataWireType(f);
      FieldPlaced(f, rest, buf, pos);
      ReadFieldBack(f, buf, pos + |TagBytes(f.no, WireType(f))|);
      ReadGroupBack(fields[1..], no, buf, pos + |EncodeField(f)|);
    }
  }
}
