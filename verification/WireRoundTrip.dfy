/** Parsing what was serialized: round trips, and the merge law, of the messages. */
module WireRoundTrip {
  import opened CText
  import opened Varint
  import opened Wire
  import opened Messages

  // ---- Entry ----

  lemma {:induction false} UnknownEntry(u: seq<Record>, m: Entry)
    requires forall r | r in u :: EntrySlot(r) == 0
    ensures Fold(u, m, ApplyEntry) == Some(m.(unknown := m.unknown + u))
  {
    if u != [] {
      var next := m.(unknown := m.unknown + [u[0]]);
      UnknownEntry(u[1..], next);
      assert next.unknown + u[1..] == m.unknown + u;
    } else {
      assert m.unknown + u == m.unknown;
    }
  }

  lemma EntryFold(a: Entry, b: Entry)
    requires ValidEntry(b)
    ensures Fold(EntryRecords(b), a, ApplyEntry) == Some(MergeEntry(a, b))
  {
    var a1 := a.(key := Or(a.key, b.key));
    var a2 := a1.(value := Or(a.value, b.value));
    FoldConcat(StrField(10, b.key), StrField(18, b.value) + b.unknown, a, ApplyEntry);
    FoldConcat(StrField(18, b.value), b.unknown, a1, ApplyEntry);
    UnknownEntry(b.unknown, a2);
  }

  lemma EntryCanonical(m: Entry)
    requires ValidEntry(m)
    ensures CanonicalAll(EntryRecords(m))
  {
    WriteConcat(StrField(10, m.key), StrField(18, m.value) + m.unknown);
    WriteConcat(StrField(18, m.value), m.unknown);
  }

  /** A serialized entry in front of other bytes acts as `MergeFrom`. */
  lemma EntryInFront(a: Entry, b: Entry, rest: bytes)
    requires ValidEntry(b)
    ensures ParseEntry(SerializeEntry(b) + rest, a) == ParseEntry(rest, MergeEntry(a, b))
  {
    EntryFold(a, b);
    EntryCanonical(b);
    ParseWritten(EntryRecords(b), rest, a, ApplyEntry);
  }

  lemma EntryRoundTrip(m: Entry)
    requires ValidEntry(m)
    ensures ParseEntry(SerializeEntry(m), EMPTY_ENTRY) == Done(m)
  {
    hide ApplyEntry, ValidEntry, SerializeEntry, MergeEntry;
    EntryInFront(EMPTY_ENTRY, m, []);
    NoEntryMerged(m);
    assert SerializeEntry(m) + [] == SerializeEntry(m);
  }

  lemma NoEntryMerged(m: Entry)
    ensures MergeEntry(EMPTY_ENTRY, m) == m
  {
  }

  // ---- Header ----

  lemma {:induction false} UnknownHeader(u: seq<Record>, m: Header)
    requires forall r | r in u :: HeaderSlot(r) == 0
    ensures Fold(u, m, ApplyHeader) == Some(m.(unknown := m.unknown + u))
  {
    if u != [] {
      var next := m.(unknown := m.unknown + [u[0]]);
      UnknownHeader(u[1..], next);
      assert next.unknown + u[1..] == m.unknown + u;
    } else {
      assert m.unknown + u == m.unknown;
    }
  }

  lemma {:induction false} PropertiesFold(es: seq<Entry>, m: Header)
    requires forall e | e in es :: ValidEntry(e)
    ensures Fold(PropertyRecords(es), m, ApplyHeader) == Some(m.(properties := m.properties + es))
  {
    hide ValidEntry, SerializeEntry, ParseEntry;
    if es != [] {
      EntryRoundTrip(es[0]);
      var next := m.(properties := m.properties + [es[0]]);
      PropertiesFold(es[1..], next);
      assert next.properties + es[1..] == m.properties + es;
    } else {
      assert m.properties + es == m.properties;
    }
  }

  /** The records of one field set that field, and no other. */
  lemma FieldFold(a: Header, b: Header, k: nat)
    requires ValidHeader(b) && 1 <= k <= 11
    ensures Fold(HeaderField(b, k), MergeBelow(a, b, k), ApplyHeader) == Some(MergeBelow(a, b, k + 1))
  {
    hide ParseEntry, SerializeEntry, PropertyRecords;
    if k == 9 { PropertiesFold(b.properties, MergeBelow(a, b, k)); }
    if k == 11 { UnknownHeader(b.unknown, MergeBelow(a, b, k)); }
    if k in {4, 10} {
      var o := if k == 4 then b.expiredTime else b.createTime;
      if o.Some? { SignedUnsigned(o.value); }
    }
    if k == 5 && b.deliverLimit.Some? { SignedUnsigned(b.deliverLimit.value); }
  }

  lemma {:induction false} HeaderFold(a: Header, b: Header, k: nat)
    requires ValidHeader(b) && 1 <= k <= 12
    ensures Fold(HeaderFrom(b, k), MergeBelow(a, b, k), ApplyHeader) == Some(MergeHeader(a, b))
    decreases 12 - k
  {
    hide ApplyHeader, ValidHeader, HeaderField, MergeBelow;
    if k < 12 {
      FoldConcat(HeaderField(b, k), HeaderFrom(b, k + 1), MergeBelow(a, b, k), ApplyHeader);
      FieldFold(a, b, k);
      HeaderFold(a, b, k + 1);
    }
  }

  lemma {:induction false} PropertiesCanonical(es: seq<Entry>)
    requires forall e | e in es :: |SerializeEntry(e)| < TWO_31
    ensures CanonicalAll(PropertyRecords(es))
  {
    hide SerializeEntry;
    if es != [] { PropertiesCanonical(es[1..]); }
  }

  lemma {:induction false} HeaderCanonical(m: Header, k: nat)
    requires ValidHeader(m) && 1 <= k <= 12
    ensures CanonicalAll(HeaderFrom(m, k))
    decreases 12 - k
  {
    hide ValidHeader, HeaderField;
    if k < 12 {
      HeaderCanonical(m, k + 1);
      WriteConcat(HeaderField(m, k), HeaderFrom(m, k + 1));
      FieldCanonical(m, k);
    }
  }

  lemma FieldCanonical(m: Header, k: nat)
    requires ValidHeader(m) && 1 <= k <= 11
    ensures CanonicalAll(HeaderField(m, k))
  {
    if k == 9 {
      PropertiesCanonical(m.properties);
    } else if k < 11 {
      var f := HeaderField(m, k);
      assert f != [] ==> Canonical(f[0]);
      assert |f| <= 1 && (f != [] ==> f[1..] == []);
    }
  }

  /** A serialized header in front of other bytes acts as `MergeFrom`. */
  lemma HeaderInFront(a: Header, b: Header, rest: bytes)
    requires ValidHeader(b)
    ensures ParseHeader(SerializeHeader(b) + rest, a) == ParseHeader(rest, MergeHeader(a, b))
  {
    hide ApplyHeader, ValidHeader, MergeBelow, HeaderFrom;
    HeaderFold(a, b, 1);
    NothingMerged(a, b);
    HeaderCanonical(b, 1);
    ParseWritten(HeaderFrom(b, 1), rest, a, ApplyHeader);
  }

  lemma NothingMerged(a: Header, b: Header)
    ensures MergeBelow(a, b, 1) == a && MergeHeader(EMPTY_HEADER, b) == b && MergeHeader(a, EMPTY_HEADER) == a
  {
  }

  lemma HeaderRoundTrip(m: Header)
    requires ValidHeader(m)
    ensures ParseHeader(SerializeHeader(m), EMPTY_HEADER) == Done(m)
  {
    hide ApplyHeader, ValidHeader, MergeHeader, SerializeHeader;
    HeaderInFront(EMPTY_HEADER, m, []);
    NothingMerged(m, m);
    assert SerializeHeader(m) + [] == SerializeHeader(m);
  }

  /** Two serialized headers back to back are read as their merge. */
  lemma HeaderMergeLaw(a: Header, b: Header)
    requires ValidHeader(a) && ValidHeader(b)
    ensures ParseHeader(SerializeHeader(a) + SerializeHeader(b), EMPTY_HEADER) == Done(MergeHeader(a, b))
  {
    hide ApplyHeader, ValidHeader, MergeHeader, SerializeHeader;
    HeaderInFront(EMPTY_HEADER, a, SerializeHeader(b));
    NothingMerged(a, a);
    HeaderInFront(a, b, []);
    assert SerializeHeader(b) + [] == SerializeHeader(b);
  }

  // ---- StringMessage ----

  lemma {:induction false} UnknownString(u: seq<Record>, m: StringMessage)
    requires forall r | r in u :: StringSlot(r) == 0
    ensures Fold(u, m, ApplyString) == Some(m.(unknown := m.unknown + u))
  {
    if u != [] {
      var next := m.(unknown := m.unknown + [u[0]]);
      UnknownString(u[1..], next);
      assert next.unknown + u[1..] == m.unknown + u;
    } else {
      assert m.unknown + u == m.unknown;
    }
  }

  /** The embedded header is merged into the one that is there. */
  lemma EmbeddedHeader(a: Option<Header>, b: Header)
    requires ValidHeader(b)
    ensures ParseHeader(SerializeHeader(b), HeaderOf(a)) == Done(MergeHeader(HeaderOf(a), b))
  {
    hide ApplyHeader, ValidHeader, MergeHeader, SerializeHeader;
    HeaderInFront(HeaderOf(a), b, []);
    assert SerializeHeader(b) + [] == SerializeHeader(b);
  }

  lemma StringFold(a: StringMessage, b: StringMessage)
    requires ValidString(b)
    ensures Fold(StringRecords(b), a, ApplyString) == Some(MergeString(a, b))
  {
    hide ParseHeader, SerializeHeader, MergeHeader, ValidHeader;
    var a1 := a.(header := MergeOptHeader(a.header, b.header));
    var a2 := a1.(body := Or(a.body, b.body));
    if b.header.Some? { EmbeddedHeader(a.header, b.header.value); }
    FoldConcat(HeaderRecord(b.header), StrField(18, b.body) + b.unknown, a, ApplyString);
    FoldConcat(StrField(18, b.body), b.unknown, a1, ApplyString);
    UnknownString(b.unknown, a2);
  }

  lemma StringCanonical(m: StringMessage)
    requires ValidString(m)
    ensures CanonicalAll(StringRecords(m))
  {
    hide SerializeHeader, ValidHeader;
    WriteConcat(HeaderRecord(m.header), StrField(18, m.body) + m.unknown);
    WriteConcat(StrField(18, m.body), m.unknown);
  }

  lemma StringInFront(a: StringMessage, b: StringMessage, rest: bytes)
    requires ValidString(b)
    ensures ParseString(SerializeString(b) + rest, a) == ParseString(rest, MergeString(a, b))
  {
    hide ApplyString, ValidString, MergeString, StringRecords;
    StringFold(a, b);
    StringCanonical(b);
    ParseWritten(StringRecords(b), rest, a, ApplyString);
  }

  lemma NoStringMerged(m: StringMessage)
    ensures MergeString(EMPTY_STRING_MESSAGE, m) == m
  {
    hide MergeHeader;
    if m.header.Some? { NothingMerged(EMPTY_HEADER, m.header.value); }
  }

  lemma StringRoundTrip(m: StringMessage)
    requires ValidString(m)
    ensures ParseString(SerializeString(m), EMPTY_STRING_MESSAGE) == Done(m)
  {
    hide ApplyString, ValidString, MergeString, SerializeString;
    StringInFront(EMPTY_STRING_MESSAGE, m, []);
    NoStringMerged(m);
    assert SerializeString(m) + [] == SerializeString(m);
  }

  lemma StringMergeLaw(a: StringMessage, b: StringMessage)
    requires ValidString(a) && ValidString(b)
    ensures ParseString(SerializeString(a) + SerializeString(b), EMPTY_STRING_MESSAGE) == Done(MergeString(a, b))
  {
    hide ApplyString, ValidString, MergeString, SerializeString;
    StringInFront(EMPTY_STRING_MESSAGE, a, SerializeString(b));
    NoStringMerged(a);
    StringInFront(a, b, []);
    assert SerializeString(b) + [] == SerializeString(b);
  }

  // ---- TxACKPacket ----

  lemma {:induction false} UnknownTx(u: seq<Record>, m: TxAck)
    requires forall r | r in u :: TxSlot(r) == 0
    ensures Fold(u, m, ApplyTx) == Some(m.(unknown := m.unknown + u))
  {
    if u != [] {
      var next := m.(unknown := m.unknown + [u[0]]);
      UnknownTx(u[1..], next);
      assert next.unknown + u[1..] == m.unknown + u;
    } else {
      assert m.unknown + u == m.unknown;
    }
  }

  lemma TxFold(a: TxAck, b: TxAck)
    requires ValidTx(b)
    ensures Fold(TxRecords(b), a, ApplyTx) == Some(MergeTx(a, b))
  {
    hide ParseHeader, SerializeHeader, MergeHeader, ValidHeader;
    var a1 := a.(header := MergeOptHeader(a.header, b.header));
    var a2 := a1.(status := Or(a.status, b.status));
    var a3 := a2.(feedback := Or(a.feedback, b.feedback));
    if b.header.Some? { EmbeddedHeader(a.header, b.header.value); }
    if b.status.Some? { SignedUnsigned(b.status.value); }
    FoldConcat(HeaderRecord(b.header), Int32Field(16, b.status) + (StrField(26, b.feedback) + b.unknown), a, ApplyTx);
    FoldConcat(Int32Field(16, b.status), StrField(26, b.feedback) + b.unknown, a1, ApplyTx);
    FoldConcat(StrField(26, b.feedback), b.unknown, a2, ApplyTx);
    UnknownTx(b.unknown, a3);
  }

  lemma TxCanonical(m: TxAck)
    requires ValidTx(m)
    ensures CanonicalAll(TxRecords(m))
  {
    hide SerializeHeader, ValidHeader;
    WriteConcat(HeaderRecord(m.header), Int32Field(16, m.status) + (StrField(26, m.feedback) + m.unknown));
    WriteConcat(Int32Field(16, m.status), StrField(26, m.feedback) + m.unknown);
    WriteConcat(StrField(26, m.feedback), m.unknown);
  }

  lemma TxInFront(a: TxAck, b: TxAck, rest: bytes)
    requires ValidTx(b)
    ensures ParseTx(SerializeTx(b) + rest, a) == ParseTx(rest, MergeTx(a, b))
  {
    hide ApplyTx, ValidTx, MergeTx, TxRecords;
    TxFold(a, b);
    TxCanonical(b);
    ParseWritten(TxRecords(b), rest, a, ApplyTx);
  }

  lemma NoTxMerged(m: TxAck)
    ensures MergeTx(EMPTY_TX_ACK, m) == m
  {
    hide MergeHeader;
    if m.header.Some? { NothingMerged(EMPTY_HEADER, m.header.value); }
  }

  lemma TxRoundTrip(m: TxAck)
    requires ValidTx(m)
    ensures ParseTx(SerializeTx(m), EMPTY_TX_ACK) == Done(m)
  {
    hide ApplyTx, ValidTx, MergeTx, SerializeTx;
    TxInFront(EMPTY_TX_ACK, m, []);
    NoTxMerged(m);
    assert SerializeTx(m) + [] == SerializeTx(m);
  }

  lemma TxMergeLaw(a: TxAck, b: TxAck)
    requires ValidTx(a) && ValidTx(b)
    ensures ParseTx(SerializeTx(a) + SerializeTx(b), EMPTY_TX_ACK) == Done(MergeTx(a, b))
  {
    hide ApplyTx, ValidTx, MergeTx, SerializeTx;
    TxInFront(EMPTY_TX_ACK, a, SerializeTx(b));
    NoTxMerged(a);
    TxInFront(a, b, []);
    assert SerializeTx(b) + [] == SerializeTx(b);
  }
}
