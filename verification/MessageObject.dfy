/** The classes `StringMessage` and `TxACKPacket` of kite_remoting.pb.cc, which embed a header object. */
module MessageObject {
  import opened CText
  import opened Varint
  import opened Wire
  import opened Messages
  import opened HeaderChain
  import opened WireSize
  import opened WireOutput
  import opened HeaderObject

  // ---- the embedded header ----

  /** `ByteSize` was called on the header and its result is in its cache. */
  ghost predicate HeaderCached(has: bool, h: HeaderObject)
    reads h
  {
    has ==> h.SizesCached() && h.cachedSize == |SerializeHeader(h.Value())|
  }

  /** `1 + MessageSizeNoVirtual(*header_)`. */
  method HeaderSize(h: HeaderObject) returns (n: nat)
    requires ValidHeader(h.Value()) && |SerializeHeader(h.Value())| < TWO_31
    modifies h`cachedSize, h`entrySizes
    ensures HeaderCached(true, h) && h.Value() == old(h.Value()) && n == 1 + StringSize(SerializeHeader(h.Value()))
  {
    hide SerializeHeader, ValidHeader;
    var size := h.ByteSize();
    n := 1 + Size(size) + size;
  }

  /** `if (has_header()) target = WriteMessageNoVirtualToArray(1, *header_, target)`: the cached size of the
      header, and its bytes. */
  method PutHeader(has: bool, h: HeaderObject, target: array<byte>, at: nat) returns (end: nat)
    requires HeaderCached(has, h) && at + |WriteAll(HeaderRecord(Set(has, h.Value())))| <= target.Length
    modifies target
    ensures Added(target, at, end, WriteAll(HeaderRecord(Set(has, h.Value()))))
  {
    hide Encode, WriteAll, SerializeHeader;
    NoRecords();
    ghost var start := target[..at];
    end := at;
    if has {
      ghost var t := SerializeHeader(h.Value());
      OneRecord(Record(10, Text(t)));
      end := PutVarint(10, target, end);
      end := PutVarint(h.cachedSize, target, end);
      end := h.SerializeWithCachedSizesToArray(target, end);
      assert start + Encode(10) + Encode(|t|) + t == start + (Encode(10) + (Encode(|t|) + t));
    }
  }

  /** `if (has_...()) target = WriteStringToArray(...)`. */
  method PutOptString(has: bool, tag: nat, t: bytes, target: array<byte>, at: nat) returns (end: nat)
    requires at + |WriteAll(StrField(tag, Set(has, t)))| <= target.Length
    modifies target
    ensures Added(target, at, end, WriteAll(StrField(tag, Set(has, t))))
  {
    hide WriteAll;
    NoRecords();
    end := at;
    if has { end := PutString(tag, t, target, at); }
  }

  /** `if (has_...()) target = WriteInt32ToArray(...)`. */
  method PutOptInt32(has: bool, tag: nat, x: int32, target: array<byte>, at: nat) returns (end: nat)
    requires at + |WriteAll(Int32Field(tag, Set(has, x)))| <= target.Length
    modifies target
    ensures Added(target, at, end, WriteAll(Int32Field(tag, Set(has, x))))
  {
    hide WriteAll;
    NoRecords();
    end := at;
    if has { end := PutNumber(tag, Unsigned(x), target, at); }
  }

  lemma StringParts(m: StringMessage)
    ensures SerializeString(m) ==
      WriteAll(HeaderRecord(m.header)) + WriteAll(StrField(18, m.body)) + WriteAll(m.unknown)
  {
    hide WriteAll, StrField, HeaderRecord;
    WriteConcat(HeaderRecord(m.header), StrField(18, m.body) + m.unknown);
    WriteConcat(StrField(18, m.body), m.unknown);
  }

  lemma TxParts(m: TxAck)
    ensures SerializeTx(m) ==
      WriteAll(HeaderRecord(m.header)) + WriteAll(Int32Field(16, m.status)) + WriteAll(StrField(26, m.feedback))
          + WriteAll(m.unknown)
  {
    hide WriteAll, StrField, Int32Field, HeaderRecord;
    WriteConcat(HeaderRecord(m.header), Int32Field(16, m.status) + (StrField(26, m.feedback) + m.unknown));
    WriteConcat(Int32Field(16, m.status), StrField(26, m.feedback) + m.unknown);
    WriteConcat(StrField(26, m.feedback), m.unknown);
  }

  // ---- StringMessage ----

  /** The places that `goto` and `ExpectTag` jump to. */
  datatype StringLabel = TopOfString | ParseHeaderOfString | ParseBody | EndOfString(e: Ending)

  function StringRest(l: StringLabel, s: bytes, m: StringMessage): Outcome<StringMessage> {
    match l
    case TopOfString => ParseString(s, m)
    case ParseHeaderOfString => After(10, s, m, ApplyString)
    case ParseBody => After(18, s, m, ApplyString)
    case EndOfString(AtEnd) => Done(m)
    case EndOfString(Early) => Stopped(m)
    case EndOfString(Failure) => Failed
  }

  class StringMessageObject {
    var hasHeader: bool
    var hasBody: bool
    const header: HeaderObject
    var body: bytes
    var unknown: seq<Record>
    var cachedSize: nat

    function Value(): StringMessage
      reads this, header
    {
      StringMessage(Set(hasHeader, header.Value()), Set(hasBody, body), unknown)
    }

    /** Fields that are not set hold their defaults. */
    ghost predicate Valid()
      reads this, header
    {
      header.Valid() && (!hasHeader ==> header.Value() == EMPTY_HEADER) && (!hasBody ==> body == [])
    }

    constructor Of (m: StringMessage)
      ensures Valid() && fresh(header) && Value() == m
    {
      hasHeader, hasBody := m.header.Some?, m.body.Some?;
      header := new HeaderObject.Of(HeaderOf(m.header));
      body, unknown, cachedSize := Get(m.body, []), m.unknown, 0;
    }

    /** `StringMessage::ByteSize`, with the path for messages that have both fields. */
    method ByteSize() returns (total: nat)
      requires ValidString(Value())
      modifies this`cachedSize, header`cachedSize, header`entrySizes
      ensures total == cachedSize == |SerializeString(Value())| && HeaderCached(hasHeader, header)
        && Value() == old(Value())
    {
      hide SerializeHeader, SerializeString, ValidHeader, WriteAll, CanonicalAll;
      StringMessageSizeIs(Value());
      total := 0;
      if hasHeader && hasBody {
        var n := HeaderSize(header);
        total := total + n;
        total := total + 1 + StringSize(body);
      } else {
        if hasHeader { var n := HeaderSize(header); total := total + n; }
        if hasBody { total := total + 1 + StringSize(body); }
      }
      total := total + |WriteAll(unknown)|;
      cachedSize := total;
    }

    /** `StringMessage::SerializeWithCachedSizesToArray`, after `ByteSize`. */
    method SerializeWithCachedSizesToArray(target: array<byte>, at: nat) returns (end: nat)
      requires HeaderCached(hasHeader, header) && at + |SerializeString(Value())| <= target.Length
      modifies target
      ensures Added(target, at, end, SerializeString(Value()))
    {
      hide WriteAll, SerializeHeader, SerializeString, HeaderRecord, StrField;
      StringParts(Value());
      ghost var start, a, b, c :=
          target[..at], WriteAll(HeaderRecord(Value().header)), WriteAll(StrField(18, Value().body)), WriteAll(unknown);
      end := PutHeader(hasHeader, header, target, at);
      end := PutOptString(hasBody, 18, body, target, end);
      end := PutBytes(WriteAll(unknown), target, end);
      assert start + a + b + c == start + (a + b + c);
    }

    /** `ReadTagWithCutoff(127)`, the `switch`, and `handle_unusual`. */
    method TopTurn(s: bytes, pos: nat) returns (next: StringLabel, end: nat)
      requires Valid() && pos <= |s|
      modifies this`unknown
      ensures Valid() && pos <= end <= |s| && (end > pos || next.EndOfString?)
      ensures StringRest(next, s[end..], Value()) == ParseString(s[pos..], old(Value()))
    {
      hide Parse, ReadPayload, Decode, ParseHeader, After, header.Value, header.Valid;
      end := pos;
      ParseIs(s[pos..], Value(), ApplyString);
      var t := ReadTag(s[pos..]);
      end := pos + t.n;
      assert s[pos..][t.n..] == s[end..];
      if t.tag == 10 { next := ParseHeaderOfString; }
      else if t.tag == 18 { next := ParseBody; }
      else if t.tag == 0 || WireType(t.tag) == END_GROUP { next := EndOfString(if pos == |s| then AtEnd else Early); }
      else {
        AfterIs(t.tag, s, end, Value(), ApplyString);
        var b := ReadPayload(s[end..], t.tag);
        if b.NoBody? { return EndOfString(Failure), end; }
        unknown := unknown + [Record(t.tag, b.payload)];
        end := end + b.n;
        next := TopOfString;
      }
    }

    /** The code behind a label. */
    method FieldTurn(l: StringLabel, s: bytes, pos: nat) returns (next: StringLabel, end: nat)
      requires Valid() && pos <= |s| && l in {ParseHeaderOfString, ParseBody}
      modifies this`hasHeader, this`hasBody, this`body, header
      ensures Valid() && pos <= end <= |s| && (end > pos || next.EndOfString?)
      ensures StringRest(next, s[end..], Value()) == StringRest(l, s[pos..], old(Value()))
    {
      hide Parse, ReadPayload, Decode, ParseHeader, After, ReadText, header.Value, header.Valid;
      next := TopOfString;
      var tag := if l == ParseBody then 18 else 10;
      PayloadIs(tag, s[pos..]);
      TextTakesBytes(s[pos..]);
      AfterIs(tag, s, pos, Value(), ApplyString);
      var b := ReadText(s[pos..]);
      if b.NoBody? { return EndOfString(Failure), pos; }
      end := pos + b.n;
      if l == ParseBody {
        hasBody, body := true, b.payload.t;
        if end == |s| { EmptyIsDone(s[end..], Value(), ApplyString); next := EndOfString(AtEnd); }
      } else {
        hasHeader := true;
        var e := header.MergePartialFromCodedStream(b.payload.t);
        if e != AtEnd { return EndOfString(Failure), end; }
        if ExpectTag(s, end, 18) { Expected(s, end, 18, Value(), ApplyString); next, end := ParseBody, end + 1; }
      }
    }

    /** `StringMessage::MergePartialFromCodedStream`: on every byte string it does what the plain loop does. */
    method MergePartialFromCodedStream(s: bytes) returns (e: Ending)
      requires Valid()
      modifies this`hasHeader, this`hasBody, this`body, this`unknown, header
      ensures Valid() && Agrees(e, Value(), ParseString(s, old(Value())))
    {
      hide ParseString, Parse, After, ReadPayload, ReadText, Valid, Value;
      var place, pos := TopOfString, 0;
      assert s[0..] == s;
      while !place.EndOfString?
        invariant Valid() && pos <= |s| && StringRest(place, s[pos..], Value()) == ParseString(s, old(Value()))
        decreases |s| - pos, if place.EndOfString? then 0 else 1
      {
        if place == TopOfString { place, pos := TopTurn(s, pos); } else { place, pos := FieldTurn(place, s, pos); }
      }
      e := place.e;
    }
  }

  // ---- TxACKPacket ----

  datatype TxLabel = TopOfTx | ParseHeaderOfTx | ParseStatus | ParseFeedback | EndOfTx(e: Ending)

  function TxRest(l: TxLabel, s: bytes, m: TxAck): Outcome<TxAck> {
    match l
    case TopOfTx => ParseTx(s, m)
    case ParseHeaderOfTx => After(10, s, m, ApplyTx)
    case ParseStatus => After(16, s, m, ApplyTx)
    case ParseFeedback => After(26, s, m, ApplyTx)
    case EndOfTx(AtEnd) => Done(m)
    case EndOfTx(Early) => Stopped(m)
    case EndOfTx(Failure) => Failed
  }

  class TxAckObject {
    var hasHeader: bool
    var hasStatus: bool
    var hasFeedback: bool
    const header: HeaderObject
    var status: int32
    var feedback: bytes
    var unknown: seq<Record>
    var cachedSize: nat

    function Value(): TxAck
      reads this, header
    {
      TxAck(Set(hasHeader, header.Value()), Set(hasStatus, status), Set(hasFeedback, feedback), unknown)
    }

    /** Fields that are not set hold their defaults. */
    ghost predicate Valid()
      reads this, header
    {
      header.Valid() && (!hasHeader ==> header.Value() == EMPTY_HEADER) && (!hasStatus ==> status == 0)
          && (!hasFeedback ==> feedback == [])
    }

    constructor Of (m: TxAck)
      ensures Valid() && fresh(header) && Value() == m
    {
      hasHeader, hasStatus, hasFeedback := m.header.Some?, m.status.Some?, m.feedback.Some?;
      header := new HeaderObject.Of(HeaderOf(m.header));
      status, feedback, unknown, cachedSize := Get(m.status, 0), Get(m.feedback, []), m.unknown, 0;
    }

    /** `TxACKPacket::ByteSize`, with the path for messages that have all fields. */
    method ByteSize() returns (total: nat)
      requires ValidTx(Value())
      modifies this`cachedSize, header`cachedSize, header`entrySizes
      ensures total == cachedSize == |SerializeTx(Value())| && HeaderCached(hasHeader, header)
        && Value() == old(Value())
    {
      hide SerializeHeader, SerializeTx, ValidHeader, WriteAll, CanonicalAll, Int32Size;
      TxSizeIs(Value());
      total := 0;
      if hasHeader && hasStatus && hasFeedback {
        var n := HeaderSize(header);
        total := total + n;
        total := total + 1 + Int32Size(status);
        total := total + 1 + StringSize(feedback);
      } else {
        if hasHeader { var n := HeaderSize(header); total := total + n; }
        if hasStatus { total := total + 1 + Int32Size(status); }
        if hasFeedback { total := total + 1 + StringSize(feedback); }
      }
      total := total + |WriteAll(unknown)|;
      cachedSize := total;
    }

    /** `TxACKPacket::SerializeWithCachedSizesToArray`, after `ByteSize`. */
    method SerializeWithCachedSizesToArray(target: array<byte>, at: nat) returns (end: nat)
      requires HeaderCached(hasHeader, header) && at + |SerializeTx(Value())| <= target.Length
      modifies target
      ensures Added(target, at, end, SerializeTx(Value()))
    {
      hide WriteAll, SerializeHeader, SerializeTx, HeaderRecord, StrField, Int32Field;
      TxParts(Value());
      ghost var start, a, b :=
          target[..at], WriteAll(HeaderRecord(Value().header)), WriteAll(Int32Field(16, Value().status));
      ghost var c, d := WriteAll(StrField(26, Value().feedback)), WriteAll(unknown);
      end := PutHeader(hasHeader, header, target, at);
      end := PutOptInt32(hasStatus, 16, status, target, end);
      end := PutOptString(hasFeedback, 26, feedback, target, end);
      end := PutBytes(WriteAll(unknown), target, end);
      assert start + a + b + c + d == start + (a + b + c + d);
    }

    method TopTurn(s: bytes, pos: nat) returns (next: TxLabel, end: nat)
      requires Valid() && pos <= |s|
      modifies this`unknown
      ensures Valid() && pos <= end <= |s| && (end > pos || next.EndOfTx?)
      ensures TxRest(next, s[end..], Value()) == ParseTx(s[pos..], old(Value()))
    {
      hide Parse, ReadPayload, Decode, ParseHeader, After, ReadText, header.Value, header.Valid;
      end := pos;
      ParseIs(s[pos..], Value(), ApplyTx);
      var t := ReadTag(s[pos..]);
      end := pos + t.n;
      assert s[pos..][t.n..] == s[end..];
      if t.tag == 10 { next := ParseHeaderOfTx; }
      else if t.tag == 16 { next := ParseStatus; }
      else if t.tag == 26 { next := ParseFeedback; }
      else if t.tag == 0 || WireType(t.tag) == END_GROUP { next := EndOfTx(if pos == |s| then AtEnd else Early); }
      else {
        AfterIs(t.tag, s, end, Value(), ApplyTx);
        var b := ReadPayload(s[end..], t.tag);
        if b.NoBody? { return EndOfTx(Failure), end; }
        unknown := unknown + [Record(t.tag, b.payload)];
        end := end + b.n;
        next := TopOfTx;
      }
    }

    method FieldTurn(l: TxLabel, s: bytes, pos: nat) returns (next: TxLabel, end: nat)
      requires Valid() && pos <= |s| && l in {ParseHeaderOfTx, ParseStatus, ParseFeedback}
      modifies this`hasHeader, this`hasStatus, this`status, this`hasFeedback, this`feedback, header
      ensures Valid() && pos <= end <= |s| && (end > pos || next.EndOfTx?)
      ensures TxRest(next, s[end..], Value()) == TxRest(l, s[pos..], old(Value()))
    {
      hide Parse, ReadPayload, Decode, ParseHeader, After, ReadText, header.Value, header.Valid;
      next := TopOfTx;
      if l == ParseStatus {
        PayloadIs(16, s[pos..]);
        AfterIs(16, s, pos, Value(), ApplyTx);
        var v := Decode(s[pos..]);
        if v.NoVarint? { return EndOfTx(Failure), pos; }
        end := pos + v.n;
        hasStatus, status := true, Signed32(v.v);
        if ExpectTag(s, end, 26) { Expected(s, end, 26, Value(), ApplyTx); next, end := ParseFeedback, end + 1; }
      } else {
        var tag := if l == ParseFeedback then 26 else 10;
        PayloadIs(tag, s[pos..]);
        TextTakesBytes(s[pos..]);
        AfterIs(tag, s, pos, Value(), ApplyTx);
        var b := ReadText(s[pos..]);
        if b.NoBody? { return EndOfTx(Failure), pos; }
        end := pos + b.n;
        if l == ParseFeedback {
          hasFeedback, feedback := true, b.payload.t;
          if end == |s| { EmptyIsDone(s[end..], Value(), ApplyTx); next := EndOfTx(AtEnd); }
        } else {
          hasHeader := true;
          var e := header.MergePartialFromCodedStream(b.payload.t);
          if e != AtEnd { return EndOfTx(Failure), end; }
          if ExpectTag(s, end, 16) { Expected(s, end, 16, Value(), ApplyTx); next, end := ParseStatus, end + 1; }
        }
      }
    }

    /** `TxACKPacket::MergePartialFromCodedStream`. */
    method MergePartialFromCodedStream(s: bytes) returns (e: Ending)
      requires Valid()
      modifies this`hasHeader, this`hasStatus, this`status, this`hasFeedback, this`feedback, this`unknown, header
      ensures Valid() && Agrees(e, Value(), ParseTx(s, old(Value())))
    {
      hide ParseTx, Parse, After, ReadPayload, ReadText, Valid, Value;
      var place, pos := TopOfTx, 0;
      assert s[0..] == s;
      while !place.EndOfTx?
        invariant Valid() && pos <= |s| && TxRest(place, s[pos..], Value()) == ParseTx(s, old(Value()))
        decreases |s| - pos, if place.EndOfTx? then 0 else 1
      {
        if place == TopOfTx { place, pos := TopTurn(s, pos); } else { place, pos := FieldTurn(place, s, pos); }
      }
      e := place.e;
    }
  }
}
