/** Four messages of protocol/protobuf/schema/kite_remoting.proto as values: which records they are
    written as, what one record does to them, and what `MergeFrom` does. */
module Messages {
  import opened CText
  import opened Varint
  import opened Wire

  // ---- fields ----

  function StrField(tag: nat, o: Option<bytes>): seq<Record> {
    if o.None? then [] else [Record(tag, Text(o.value))]
  }

  function IntField(tag: nat, o: Option<int64>): seq<Record> {
    if o.None? then [] else [Record(tag, Number(Unsigned(o.value)))]
  }

  function Int32Field(tag: nat, o: Option<int32>): seq<Record> {
    if o.None? then [] else [Record(tag, Number(Unsigned(o.value)))]
  }

  function BoolField(tag: nat, o: Option<bool>): seq<Record> {
    if o.None? then [] else [Record(tag, Number(if o.value then 1 else 0))]
  }

  /** The second one where it is set. */
  function Or<T>(a: Option<T>, b: Option<T>): Option<T> { if b.Some? then b else a }

  predicate Short(o: Option<bytes>) { o.Some? ==> |o.value| < TWO_31 }

  // ---- Entry ----

  datatype Entry = Entry(key: Option<bytes>, value: Option<bytes>, unknown: seq<Record>)

  const EMPTY_ENTRY := Entry(None, None, [])

  /** The number of the field that a record belongs to; 0 for an unknown field or another wire type. */
  function EntrySlot(r: Record): nat {
    if r.payload.Text? && r.tag in {10, 18} then Field(r.tag) else 0
  }

  function ApplyEntry(m: Entry, r: Record): Option<Entry> {
    match EntrySlot(r)
    case 1 => Some(m.(key := Some(r.payload.t)))
    case 2 => Some(m.(value := Some(r.payload.t)))
    case _ => Some(m.(unknown := m.unknown + [r]))
  }

  function EntryRecords(m: Entry): seq<Record> {
    StrField(10, m.key) + (StrField(18, m.value) + m.unknown)
  }

  function SerializeEntry(m: Entry): bytes { WriteAll(EntryRecords(m)) }

  function ParseEntry(s: bytes, m: Entry): Outcome<Entry> { Parse(s, m, ApplyEntry) }

  /** `Entry::MergeFrom`. */
  function MergeEntry(a: Entry, b: Entry): Entry {
    Entry(Or(a.key, b.key), Or(a.value, b.value), a.unknown + b.unknown)
  }

  predicate ValidEntry(m: Entry) {
    Short(m.key) && Short(m.value) && CanonicalAll(m.unknown) && forall r | r in m.unknown :: EntrySlot(r) == 0
  }

  // ---- Header ----

  datatype Header = Header(
    messageId: Option<bytes>, topic: Option<bytes>, messageType: Option<bytes>,
    expiredTime: Option<int64>, deliverLimit: Option<int32>, groupId: Option<bytes>,
    commit: Option<bool>, fly: Option<bool>, properties: seq<Entry>, createTime: Option<int64>,
    unknown: seq<Record>)

  const EMPTY_HEADER := Header(None, None, None, None, None, None, None, None, [], None, [])

  function HeaderSlot(r: Record): nat {
    if r.payload.Text? && r.tag in {10, 18, 26, 50, 74} then Field(r.tag)
    else if r.payload.Number? && r.tag in {32, 40, 56, 64, 80} then Field(r.tag)
    else 0
  }

  function ApplyHeader(m: Header, r: Record): Option<Header> {
    match HeaderSlot(r)
    case 1 => Some(m.(messageId := Some(r.payload.t)))
    case 2 => Some(m.(topic := Some(r.payload.t)))
    case 3 => Some(m.(messageType := Some(r.payload.t)))
    case 4 => Some(m.(expiredTime := Some(Signed(r.payload.v))))
    case 5 => Some(m.(deliverLimit := Some(Signed32(r.payload.v))))
    case 6 => Some(m.(groupId := Some(r.payload.t)))
    case 7 => Some(m.(commit := Some(r.payload.v != 0)))
    case 8 => Some(m.(fly := Some(r.payload.v != 0)))
    case 9 =>
      (match ParseEntry(r.payload.t, EMPTY_ENTRY)
       case Done(e) => Some(m.(properties := m.properties + [e]))
       case _ => None)
    case 10 => Some(m.(createTime := Some(Signed(r.payload.v))))
    case _ => Some(m.(unknown := m.unknown + [r]))
  }

  function PropertyRecords(es: seq<Entry>): seq<Record> {
    if es == [] then [] else [Record(74, Text(SerializeEntry(es[0])))] + PropertyRecords(es[1..])
  }

  /** The records of field k; 11 stands for the unknown fields. */
  function HeaderField(m: Header, k: nat): seq<Record> {
    match k
    case 1 => StrField(10, m.messageId)
    case 2 => StrField(18, m.topic)
    case 3 => StrField(26, m.messageType)
    case 4 => IntField(32, m.expiredTime)
    case 5 => Int32Field(40, m.deliverLimit)
    case 6 => StrField(50, m.groupId)
    case 7 => BoolField(56, m.commit)
    case 8 => BoolField(64, m.fly)
    case 9 => PropertyRecords(m.properties)
    case 10 => IntField(80, m.createTime)
    case _ => m.unknown
  }

  /** The records from field k on. */
  function HeaderFrom(m: Header, k: nat): seq<Record>
    requires k <= 12
    decreases 12 - k
  {
    if k == 12 then [] else HeaderField(m, k) + HeaderFrom(m, k + 1)
  }

  function SerializeHeader(m: Header): bytes { WriteAll(HeaderFrom(m, 1)) }

  function ParseHeader(s: bytes, m: Header): Outcome<Header> { Parse(s, m, ApplyHeader) }

  /** `Header::MergeFrom`, as far as the fields below k. */
  function MergeBelow(a: Header, b: Header, k: nat): Header {
    Header(
      if k > 1 then Or(a.messageId, b.messageId) else a.messageId,
      if k > 2 then Or(a.topic, b.topic) else a.topic,
      if k > 3 then Or(a.messageType, b.messageType) else a.messageType,
      if k > 4 then Or(a.expiredTime, b.expiredTime) else a.expiredTime,
      if k > 5 then Or(a.deliverLimit, b.deliverLimit) else a.deliverLimit,
      if k > 6 then Or(a.groupId, b.groupId) else a.groupId,
      if k > 7 then Or(a.commit, b.commit) else a.commit,
      if k > 8 then Or(a.fly, b.fly) else a.fly,
      if k > 9 then a.properties + b.properties else a.properties,
      if k > 10 then Or(a.createTime, b.createTime) else a.createTime,
      if k > 11 then a.unknown + b.unknown else a.unknown)
  }

  function MergeHeader(a: Header, b: Header): Header { MergeBelow(a, b, 12) }

  /** What can be written; every header that was parsed is of this kind. */
  predicate ValidHeader(m: Header) {
    && Short(m.messageId) && Short(m.topic) && Short(m.messageType) && Short(m.groupId)
    && (forall e | e in m.properties :: ValidEntry(e) && |SerializeEntry(e)| < TWO_31)
    && CanonicalAll(m.unknown) && forall r | r in m.unknown :: HeaderSlot(r) == 0
  }

  // ---- messages with a header ----

  datatype StringMessage = StringMessage(header: Option<Header>, body: Option<bytes>, unknown: seq<Record>)

  const EMPTY_STRING_MESSAGE := StringMessage(None, None, [])

  function StringSlot(r: Record): nat {
    if r.payload.Text? && r.tag in {10, 18} then Field(r.tag) else 0
  }

  /** `mutable_header()`. */
  function HeaderOf(o: Option<Header>): Header { if o.Some? then o.value else EMPTY_HEADER }

  function ApplyString(m: StringMessage, r: Record): Option<StringMessage> {
    match StringSlot(r)
    case 1 =>
      (match ParseHeader(r.payload.t, HeaderOf(m.header))
       case Done(h) => Some(m.(header := Some(h)))
       case _ => None)
    case 2 => Some(m.(body := Some(r.payload.t)))
    case _ => Some(m.(unknown := m.unknown + [r]))
  }

  function HeaderRecord(o: Option<Header>): seq<Record> {
    if o.None? then [] else [Record(10, Text(SerializeHeader(o.value)))]
  }

  function StringRecords(m: StringMessage): seq<Record> {
    HeaderRecord(m.header) + (StrField(18, m.body) + m.unknown)
  }

  function SerializeString(m: StringMessage): bytes { WriteAll(StringRecords(m)) }

  function ParseString(s: bytes, m: StringMessage): Outcome<StringMessage> { Parse(s, m, ApplyString) }

  function MergeOptHeader(a: Option<Header>, b: Option<Header>): Option<Header> {
    if b.Some? then Some(MergeHeader(HeaderOf(a), b.value)) else a
  }

  /** `StringMessage::MergeFrom`. */
  function MergeString(a: StringMessage, b: StringMessage): StringMessage {
    StringMessage(MergeOptHeader(a.header, b.header), Or(a.body, b.body), a.unknown + b.unknown)
  }

  predicate ValidOptHeader(o: Option<Header>) {
    o.Some? ==> ValidHeader(o.value) && |SerializeHeader(o.value)| < TWO_31
  }

  predicate ValidString(m: StringMessage) {
    ValidOptHeader(m.header) && Short(m.body) && CanonicalAll(m.unknown)
        && forall r | r in m.unknown :: StringSlot(r) == 0
  }

  datatype TxAck = TxAck(header: Option<Header>, status: Option<int32>, feedback: Option<bytes>, unknown: seq<Record>)

  const EMPTY_TX_ACK := TxAck(None, None, None, [])

  function TxSlot(r: Record): nat {
    if r.payload.Text? && r.tag in {10, 26} then Field(r.tag)
    else if r.payload.Number? && r.tag == 16 then 2
    else 0
  }

  function ApplyTx(m: TxAck, r: Record): Option<TxAck> {
    match TxSlot(r)
    case 1 =>
      (match ParseHeader(r.payload.t, HeaderOf(m.header))
       case Done(h) => Some(m.(header := Some(h)))
       case _ => None)
    case 2 => Some(m.(status := Some(Signed32(r.payload.v))))
    case 3 => Some(m.(feedback := Some(r.payload.t)))
    case _ => Some(m.(unknown := m.unknown + [r]))
  }

  function TxRecords(m: TxAck): seq<Record> {
    HeaderRecord(m.header) + (Int32Field(16, m.status) + (StrField(26, m.feedback) + m.unknown))
  }

  function SerializeTx(m: TxAck): bytes { WriteAll(TxRecords(m)) }

  function ParseTx(s: bytes, m: TxAck): Outcome<TxAck> { Parse(s, m, ApplyTx) }

  /** `TxACKPacket::MergeFrom`. */
  function MergeTx(a: TxAck, b: TxAck): TxAck {
    TxAck(MergeOptHeader(a.header, b.header), Or(a.status, b.status), Or(a.feedback, b.feedback), a.unknown + b.unknown)
  }

  predicate ValidTx(m: TxAck) {
    ValidOptHeader(m.header) && Short(m.feedback) && CanonicalAll(m.unknown)
        && forall r | r in m.unknown :: TxSlot(r) == 0
  }
}
