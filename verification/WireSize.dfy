/** How many bytes messages take: the sizes that `ByteSize` adds up. */
module WireSize {
  import opened CText
  import opened Varint
  import opened Wire
  import opened Messages

  function StringSize(t: bytes): nat
    requires |t| < TWO_31
  {
    Size(|t|) + |t|
  }

  function Int64Size(x: int64): nat { Size(Unsigned(x)) }

  function Int32Size(x: int32): nat { if x < 0 then 10 else Size(x) }

  /** The size of a field with a tag of one byte. */
  function StrFieldSize(o: Option<bytes>): nat
    requires Short(o)
  {
    if o.None? then 0 else 1 + StringSize(o.value)
  }

  function Int64FieldSize(o: Option<int64>): nat { if o.None? then 0 else 1 + Int64Size(o.value) }

  function Int32FieldSize(o: Option<int32>): nat { if o.None? then 0 else 1 + Int32Size(o.value) }

  function BoolFieldSize(o: Option<bool>): nat { if o.None? then 0 else 1 + 1 }

  /** `properties_size()` tags of one byte, and `MessageSizeNoVirtual` of each. */
  function PropertiesSize(es: seq<Entry>): nat
    requires forall e | e in es :: |SerializeEntry(e)| < TWO_31
  {
    if es == [] then 0
    else PropertiesSize(es[..|es| - 1]) + 1 + StringSize(SerializeEntry(es[|es| - 1]))
  }

  lemma OneField(tag: nat, p: Payload)
    requires 0 < tag < 128
    ensures |WriteAll([Record(tag, p)])| == 1 + |WritePayload(Record(tag, p))|
  {
    assert [Record(tag, p)][1..] == [];
  }

  lemma StrFieldSizeIs(tag: nat, o: Option<bytes>)
    requires 0 < tag < 128 && Short(o)
    ensures |WriteAll(StrField(tag, o))| == StrFieldSize(o)
  {
    if o.Some? {
      OneField(tag, Text(o.value));
      SizeIs(|o.value|);
    }
  }

  lemma Int64FieldSizeIs(tag: nat, o: Option<int64>)
    requires 0 < tag < 128
    ensures |WriteAll(IntField(tag, o))| == Int64FieldSize(o)
  {
    if o.Some? {
      OneField(tag, Number(Unsigned(o.value)));
      SizeIs(Unsigned(o.value));
    }
  }

  lemma Int32FieldSizeIs(tag: nat, o: Option<int32>)
    requires 0 < tag < 128
    ensures |WriteAll(Int32Field(tag, o))| == Int32FieldSize(o)
  {
    if o.Some? {
      OneField(tag, Number(Unsigned(o.value)));
      SizeIs(Unsigned(o.value));
      SignedUnsigned(o.value);
    }
  }

  lemma BoolFieldSizeIs(tag: nat, o: Option<bool>)
    requires 0 < tag < 128
    ensures |WriteAll(BoolField(tag, o))| == BoolFieldSize(o)
  {
    if o.Some? { OneField(tag, Number(if o.value then 1 else 0)); }
  }

  lemma {:induction false} PropertiesSizeIs(es: seq<Entry>)
    requires forall e | e in es :: |SerializeEntry(e)| < TWO_31
    ensures |WriteAll(PropertyRecords(es))| == PropertiesSize(es)
  {
    hide SerializeEntry, WriteAll;
    if es == [] {
      assert WriteAll([]) == [] by { NoRecords(); }
    } else {
      var init, last := es[..|es| - 1], es[|es| - 1];
      PropertiesSizeIs(init);
      PropertiesConcat(init, last);
      WriteConcat(PropertyRecords(init), [Record(74, Text(SerializeEntry(last)))]);
      assert init + [last] == es;
      OneField(74, Text(SerializeEntry(last)));
      SizeIs(|SerializeEntry(last)|);
    }
  }

  lemma NoRecords()
    ensures WriteAll([]) == []
  {
  }

  lemma {:induction false} PropertiesConcat(es: seq<Entry>, e: Entry)
    ensures PropertyRecords(es + [e]) == PropertyRecords(es) + [Record(74, Text(SerializeEntry(e)))]
  {
    hide SerializeEntry;
    if es == [] {
      assert es + [e] == [e] && [e][1..] == [];
    } else {
      assert (es + [e])[1..] == es[1..] + [e];
      PropertiesConcat(es[1..], e);
    }
  }

  /** The size of an entry, field by field. */
  lemma EntrySizeIs(m: Entry)
    requires ValidEntry(m)
    ensures |SerializeEntry(m)| == StrFieldSize(m.key) + StrFieldSize(m.value) + |WriteAll(m.unknown)|
  {
    hide StrField, StrFieldSize, WriteAll;
    WriteConcat(StrField(10, m.key), StrField(18, m.value) + m.unknown);
    WriteConcat(StrField(18, m.value), m.unknown);
    StrFieldSizeIs(10, m.key);
    StrFieldSizeIs(18, m.value);
  }

  /** The size of field k of a header. */
  function FieldSize(m: Header, k: nat): nat
    requires ValidHeader(m)
  {
    match k
    case 1 => StrFieldSize(m.messageId)
    case 2 => StrFieldSize(m.topic)
    case 3 => StrFieldSize(m.messageType)
    case 4 => Int64FieldSize(m.expiredTime)
    case 5 => Int32FieldSize(m.deliverLimit)
    case 6 => StrFieldSize(m.groupId)
    case 7 => BoolFieldSize(m.commit)
    case 8 => BoolFieldSize(m.fly)
    case 9 => PropertiesSize(m.properties)
    case 10 => Int64FieldSize(m.createTime)
    case _ => |WriteAll(m.unknown)|
  }

  lemma FieldSizeIs(m: Header, k: nat)
    requires ValidHeader(m) && 1 <= k <= 11
    ensures |WriteAll(HeaderField(m, k))| == FieldSize(m, k)
  {
    hide StrField, IntField, Int32Field, BoolField, PropertyRecords, StrFieldSize, Int64FieldSize, Int32FieldSize;
    hide BoolFieldSize, PropertiesSize, WriteAll;
    StrFieldSizeIs(10, m.messageId);
    StrFieldSizeIs(18, m.topic);
    StrFieldSizeIs(26, m.messageType);
    Int64FieldSizeIs(32, m.expiredTime);
    Int32FieldSizeIs(40, m.deliverLimit);
    StrFieldSizeIs(50, m.groupId);
    BoolFieldSizeIs(56, m.commit);
    BoolFieldSizeIs(64, m.fly);
    PropertiesSizeIs(m.properties);
    Int64FieldSizeIs(80, m.createTime);
  }

  /** The sizes of the fields from k on. */
  function SizeFrom(m: Header, k: nat): nat
    requires ValidHeader(m) && 1 <= k <= 12
    decreases 12 - k
  {
    if k == 12 then 0 else FieldSize(m, k) + SizeFrom(m, k + 1)
  }

  lemma {:induction false} SizeFromIs(m: Header, k: nat)
    requires ValidHeader(m) && 1 <= k <= 12
    ensures |WriteAll(HeaderFrom(m, k))| == SizeFrom(m, k)
    decreases 12 - k
  {
    hide ValidHeader, HeaderField, FieldSize;
    if k < 12 {
      SizeFromIs(m, k + 1);
      FieldSizeIs(m, k);
      WriteConcat(HeaderField(m, k), HeaderFrom(m, k + 1));
    }
  }

  /** The size of a header, field by field. */
  lemma HeaderSizeIs(m: Header)
    requires ValidHeader(m)
    ensures |SerializeHeader(m)| ==
      FieldSize(m, 1) + FieldSize(m, 2) + FieldSize(m, 3) + FieldSize(m, 4) + FieldSize(m, 5) + FieldSize(m, 6)
      + FieldSize(m, 7) + FieldSize(m, 8) + FieldSize(m, 9) + FieldSize(m, 10) + FieldSize(m, 11)
  {
    hide ValidHeader, FieldSize, HeaderFrom, SizeFrom;
    SizeFromIs(m, 1);
    Unroll(m, 1);
    Unroll(m, 4);
    Unroll(m, 7);
    Unroll(m, 10);
  }

  lemma Unroll(m: Header, k: nat)
    requires ValidHeader(m) && 1 <= k <= 10
    ensures SizeFrom(m, k) ==
      FieldSize(m, k) + FieldSize(m, k + 1) + if k == 10 then 0 else FieldSize(m, k + 2) + SizeFrom(m, k + 3)
  {
    hide ValidHeader, FieldSize;
    assert k < 10 ==> SizeFrom(m, k + 2) == FieldSize(m, k + 2) + SizeFrom(m, k + 3);
  }

  /** The sizes of the messages around a header. */
  lemma StringMessageSizeIs(m: StringMessage)
    requires ValidString(m)
    ensures |SerializeString(m)| ==
      (if m.header.None? then 0 else 1 + StringSize(SerializeHeader(m.header.value)))
      + StrFieldSize(m.body) + |WriteAll(m.unknown)|
  {
    hide SerializeHeader, StrField, WriteAll, ValidHeader, StrFieldSize;
    WriteConcat(HeaderRecord(m.header), StrField(18, m.body) + m.unknown);
    WriteConcat(StrField(18, m.body), m.unknown);
    StrFieldSizeIs(18, m.body);
    HeaderRecordSize(m.header);
  }

  lemma HeaderRecordSize(o: Option<Header>)
    requires ValidOptHeader(o)
    ensures |WriteAll(HeaderRecord(o))| == if o.None? then 0 else 1 + StringSize(SerializeHeader(o.value))
  {
    hide SerializeHeader, ValidHeader;
    if o.Some? {
      OneField(10, Text(SerializeHeader(o.value)));
      SizeIs(|SerializeHeader(o.value)|);
    }
  }

  lemma TxSizeIs(m: TxAck)
    requires ValidTx(m)
    ensures |SerializeTx(m)| ==
      (if m.header.None? then 0 else 1 + StringSize(SerializeHeader(m.header.value))) + Int32FieldSize(m.status)
      + StrFieldSize(m.feedback) + |WriteAll(m.unknown)|
  {
    hide SerializeHeader, StrField, Int32Field, WriteAll, ValidHeader, StrFieldSize, Int32FieldSize;
    WriteConcat(HeaderRecord(m.header), Int32Field(16, m.status) + (StrField(26, m.feedback) + m.unknown));
    WriteConcat(Int32Field(16, m.status), StrField(26, m.feedback) + m.unknown);
    WriteConcat(StrField(26, m.feedback), m.unknown);
    Int32FieldSizeIs(16, m.status);
    StrFieldSizeIs(26, m.feedback);
    HeaderRecordSize(m.header);
  }
}
