/** The bytes of the messages of protocol/protobuf/schema/kite_remoting.proto, field by field: a key made of the
    number of the field and the wire type, and what the Protocol Buffers encoding puts behind it. */
module WireLayout {
  import opened CText
  import opened Varint
  import opened Wire
  import opened Messages

  /** The varint of 8 times the field number plus the wire type: one byte here. */
  function Key(field: nat, wireType: nat): bytes { Encode(8 * field + wireType) }

  /** Length-delimited, wire type 2. */
  function TextAs(field: nat, o: Option<bytes>): bytes {
    if o.None? then [] else Key(field, 2) + (Encode(|o.value|) + o.value)
  }

  /** A varint, wire type 0: the number modulo 2^64. */
  function NumberAs(field: nat, o: Option<int>): bytes {
    if o.None? then [] else Key(field, 0) + Encode(o.value % TWO_64)
  }

  function BoolAs(field: nat, o: Option<bool>): bytes {
    if o.None? then [] else Key(field, 0) + [if o.value then 1 else 0]
  }

  function Concat(parts: seq<bytes>): bytes { if parts == [] then [] else parts[0] + Concat(parts[1..]) }

  function EntryAs(m: Entry): bytes { Concat([TextAs(1, m.key), TextAs(2, m.value), WriteAll(m.unknown)]) }

  function PropertiesAs(es: seq<Entry>): bytes {
    Concat(seq(|es|, k requires 0 <= k < |es| => TextAs(9, Some(EntryAs(es[k])))))
  }

  function HeaderParts(m: Header): seq<bytes> {
    [ TextAs(1, m.messageId), TextAs(2, m.topic), TextAs(3, m.messageType), NumberAs(4, m.expiredTime),
      NumberAs(5, m.deliverLimit), TextAs(6, m.groupId), BoolAs(7, m.commit), BoolAs(8, m.fly),
      PropertiesAs(m.properties), NumberAs(10, m.createTime), WriteAll(m.unknown) ]
  }

  function HeaderAs(m: Header): bytes { Concat(HeaderParts(m)) }

  function EmbeddedAs(o: Option<Header>): Option<bytes> { if o.None? then None else Some(HeaderAs(o.value)) }

  // ---- one field ----

  lemma OneRecordAs(tag: nat, p: Payload)
    ensures WriteAll([Record(tag, p)]) == Encode(tag) + WritePayload(Record(tag, p))
  {
    assert [Record(tag, p)][1..] == [];
  }

  lemma TextIs(field: nat, o: Option<bytes>)
    ensures WriteAll(StrField(8 * field + 2, o)) == TextAs(field, o)
  {
    if o.Some? { OneRecordAs(8 * field + 2, Text(o.value)); }
  }

  lemma NumberIs(field: nat, o: Option<int64>)
    ensures WriteAll(IntField(8 * field, o)) == NumberAs(field, o)
  {
    if o.Some? { OneRecordAs(8 * field, Number(Unsigned(o.value))); }
  }

  lemma Number32Is(field: nat, o: Option<int32>)
    ensures WriteAll(Int32Field(8 * field, o)) == NumberAs(field, o)
  {
    if o.Some? { OneRecordAs(8 * field, Number(Unsigned(o.value))); }
  }

  lemma BoolIs(field: nat, o: Option<bool>)
    ensures WriteAll(BoolField(8 * field, o)) == BoolAs(field, o)
  {
    if o.Some? { OneRecordAs(8 * field, Number(if o.value then 1 else 0)); }
  }

  // ---- messages ----

  lemma Three(a: bytes, b: bytes, c: bytes)
    ensures Concat([a, b, c]) == a + (b + c)
  {
    assert [a, b, c][1..] == [b, c] && [b, c][1..] == [c] && [c][1..] == [];
    assert Concat([c]) == c + Concat([]);
  }

  lemma EntryBytes(m: Entry)
    ensures SerializeEntry(m) == EntryAs(m)
  {
    hide WriteAll, StrField, TextAs;
    TextIs(1, m.key);
    TextIs(2, m.value);
    WriteConcat(StrField(10, m.key), StrField(18, m.value) + m.unknown);
    WriteConcat(StrField(18, m.value), m.unknown);
    Three(TextAs(1, m.key), TextAs(2, m.value), WriteAll(m.unknown));
  }

  lemma {:induction false} PropertiesBytes(es: seq<Entry>)
    ensures WriteAll(PropertyRecords(es)) == PropertiesAs(es)
  {
    hide SerializeEntry, EntryAs, TextAs;
    if es != [] {
      EntryBytes(es[0]);
      PropertiesBytes(es[1..]);
      TextIs(9, Some(EntryAs(es[0])));
      WriteConcat([Record(74, Text(SerializeEntry(es[0])))], PropertyRecords(es[1..]));
      var parts := seq(|es|, k requires 0 <= k < |es| => TextAs(9, Some(EntryAs(es[k]))));
      var rest := seq(|es| - 1, k requires 0 <= k < |es| - 1 => TextAs(9, Some(EntryAs(es[1..][k]))));
      assert parts[1..] == rest;
    }
  }

  lemma PartIs(m: Header, k: nat)
    requires k < 11
    ensures HeaderParts(m)[k] == WriteAll(HeaderField(m, k + 1))
  {
    hide WriteAll, StrField, IntField, Int32Field, BoolField, PropertyRecords, TextAs, NumberAs, BoolAs, PropertiesAs;
    TextIs(1, m.messageId);
    TextIs(2, m.topic);
    TextIs(3, m.messageType);
    NumberIs(4, m.expiredTime);
    Number32Is(5, m.deliverLimit);
    TextIs(6, m.groupId);
    BoolIs(7, m.commit);
    BoolIs(8, m.fly);
    PropertiesBytes(m.properties);
    NumberIs(10, m.createTime);
  }

  lemma {:induction false} PartsFrom(m: Header, k: nat)
    requires k <= 11
    ensures |HeaderParts(m)| == 11 && WriteAll(HeaderFrom(m, k + 1)) == Concat(HeaderParts(m)[k..])
    decreases 11 - k
  {
    hide HeaderField, TextAs, NumberAs, BoolAs, PropertiesAs;
    if k < 11 {
      PartsFrom(m, k + 1);
      PartIs(m, k);
      WriteConcat(HeaderField(m, k + 1), HeaderFrom(m, k + 2));
      assert HeaderParts(m)[k..][1..] == HeaderParts(m)[k + 1..];
    }
  }

  /** The bytes of a header: its fields in the order of their numbers, and unknown ones behind them. */
  lemma HeaderBytes(m: Header)
    ensures SerializeHeader(m) == HeaderAs(m)
  {
    hide HeaderParts;
    PartsFrom(m, 0);
    assert HeaderParts(m)[0..] == HeaderParts(m);
  }

  lemma EmbeddedBytes(o: Option<Header>)
    ensures WriteAll(HeaderRecord(o)) == TextAs(1, EmbeddedAs(o))
  {
    hide HeaderAs, SerializeHeader;
    if o.Some? {
      HeaderBytes(o.value);
      OneRecordAs(10, Text(SerializeHeader(o.value)));
    }
  }

  lemma StringMessageBytes(m: StringMessage)
    ensures SerializeString(m) == Concat([TextAs(1, EmbeddedAs(m.header)), TextAs(2, m.body), WriteAll(m.unknown)])
  {
    hide WriteAll, StrField, TextAs, EmbeddedAs, HeaderRecord;
    EmbeddedBytes(m.header);
    TextIs(2, m.body);
    WriteConcat(HeaderRecord(m.header), StrField(18, m.body) + m.unknown);
    WriteConcat(StrField(18, m.body), m.unknown);
    Three(TextAs(1, EmbeddedAs(m.header)), TextAs(2, m.body), WriteAll(m.unknown));
  }

  lemma TxBytes(m: TxAck)
    ensures SerializeTx(m) ==
      Concat([TextAs(1, EmbeddedAs(m.header)), NumberAs(2, m.status), TextAs(3, m.feedback) + WriteAll(m.unknown)])
  {
    hide WriteAll, StrField, Int32Field, TextAs, NumberAs, EmbeddedAs, HeaderRecord;
    EmbeddedBytes(m.header);
    Number32Is(2, m.status);
    TextIs(3, m.feedback);
    WriteConcat(HeaderRecord(m.header), Int32Field(16, m.status) + (StrField(26, m.feedback) + m.unknown));
    WriteConcat(Int32Field(16, m.status), StrField(26, m.feedback) + m.unknown);
    WriteConcat(StrField(26, m.feedback), m.unknown);
    Three(TextAs(1, EmbeddedAs(m.header)), NumberAs(2, m.status), TextAs(3, m.feedback) + WriteAll(m.unknown));
  }

  // ---- what a field does when it is read ----

  lemma RecordRead<M>(r: Record, rest: bytes, m: M, apply: (M, Record) -> Option<M>)
    requires Canonical(r)
    ensures Parse(Encode(r.tag) + WritePayload(r) + rest, m, apply) ==
      match apply(m, r) case None => Failed case Some(next) => Parse(rest, next, apply)
  {
    hide ReadRecord, WritePayload, Encode;
    ReadWrite(r, rest);
    assert (Write(r) + rest)[|Write(r)|..] == rest;
  }

  /** A string field of a header, whatever precedes and follows it: it is set, and nothing else changes. */
  lemma HeaderTextRead(m: Header, field: nat, t: bytes, rest: bytes)
    requires field in {1, 2, 3, 6} && |t| < TWO_31
    ensures ParseHeader(TextAs(field, Some(t)) + rest, m) ==
      ParseHeader(rest, if field == 1 then m.(messageId := Some(t)) else if field == 2 then m.(topic := Some(t))
                        else if field == 3 then m.(messageType := Some(t)) else m.(groupId := Some(t)))
  {
    hide Parse, Encode;
    RecordRead(Record(8 * field + 2, Text(t)), rest, m, ApplyHeader);
  }

  /** A numeric field: an `int64` takes the varint modulo 2^64 and an `int32` modulo 2^32, a `bool` whether it is
      not zero. */
  lemma HeaderNumberRead(m: Header, field: nat, v: uint64, rest: bytes)
    requires field in {4, 5, 7, 8, 10}
    ensures ParseHeader(NumberAs(field, Some(v)) + rest, m) ==
      ParseHeader(rest, if field == 4 then m.(expiredTime := Some(Signed(v)))
                        else if field == 5 then m.(deliverLimit := Some(Signed32(v)))
                        else if field == 7 then m.(commit := Some(v != 0))
                        else if field == 8 then m.(fly := Some(v != 0))
                        else m.(createTime := Some(Signed(v))))
  {
    hide Parse, Encode;
    RecordRead(Record(8 * field, Number(v)), rest, m, ApplyHeader);
  }

  /** A property is appended, if it is an entry by itself; otherwise parsing fails. */
  lemma HeaderPropertyRead(m: Header, t: bytes, rest: bytes)
    requires |t| < TWO_31
    ensures ParseHeader(TextAs(9, Some(t)) + rest, m) ==
      match ParseEntry(t, EMPTY_ENTRY)
      case Done(e) => ParseHeader(rest, m.(properties := m.properties + [e]))
      case _ => Failed
  {
    hide Parse, Encode;
    RecordRead(Record(74, Text(t)), rest, m, ApplyHeader);
  }

  /** A record with another number, or another wire type than the field has, is kept as it is. */
  lemma HeaderUnknownRead(m: Header, r: Record, rest: bytes)
    requires Canonical(r)
    requires !(r.tag / 8 in {1, 2, 3, 6, 9} && r.tag % 8 == 2) && !(r.tag / 8 in {4, 5, 7, 8, 10} && r.tag % 8 == 0)
    ensures ParseHeader(Encode(r.tag) + WritePayload(r) + rest, m) ==
      ParseHeader(rest, m.(unknown := m.unknown + [r]))
  {
    hide Parse, Encode, WritePayload;
    RecordRead(r, rest, m, ApplyHeader);
  }
}
