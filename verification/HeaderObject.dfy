/** The class `Header` of kite_remoting.pb.cc: fields and has-bits that its methods update in place. */
module HeaderObject {
  import opened CText
  import opened Varint
  import opened Wire
  import opened Messages
  import opened HeaderChain
  import opened WireSize
  import opened WireOutput

  /** A word of 32 has-bits, the lowest first. */
  type word = s: seq<bool> | |s| == 32 witness seq(32, _ => false)

  const NO_BITS: word := seq(32, _ => false)

  /** `bits & mask` is not zero, for a mask of the bits from lo up to hi. */
  predicate Any(bits: word, lo: nat, hi: nat)
    requires hi <= 32
  {
    exists k | lo <= k < hi :: bits[k]
  }

  /** `((bits & 0x000000ff) ^ 0x000000ff) == 0`: all required fields are present. */
  predicate AllRequired(bits: word) {
    forall k | 0 <= k < 8 :: bits[k]
  }

  /** The places that `goto` and `ExpectTag` jump to in `Header::MergePartialFromCodedStream`. */
  datatype HeaderLabel =
    | Top | ParseMessageId | ParseTopic | ParseMessageType | ParseExpiredTime | ParseDeliverLimit | ParseGroupId
    | ParseCommit | ParseFly | ParseProperties | ParseLoopProperties | ParseCreateTime | Finish(e: Ending)

  /** The tag in front of a label. */
  function TagOf(l: HeaderLabel): (tag: nat)
    requires !l.Top? && !l.Finish?
    ensures HeaderSlot(Record(tag, Text([]))) != 0 || HeaderSlot(Record(tag, Number(0))) != 0
    ensures WireType(tag) in {0, 2}
  {
    match l
    case ParseMessageId => 10
    case ParseTopic => 18
    case ParseMessageType => 26
    case ParseExpiredTime => 32
    case ParseDeliverLimit => 40
    case ParseGroupId => 50
    case ParseCommit => 56
    case ParseFly => 64
    case ParseProperties => 74
    case ParseLoopProperties => 74
    case ParseCreateTime => 80
  }

  /** What is still to come at a label. */
  function Rest(l: HeaderLabel, s: bytes, m: Header): Outcome<Header> {
    match l
    case Top => ParseHeader(s, m)
    case Finish(AtEnd) => Done(m)
    case Finish(Early) => Stopped(m)
    case Finish(Failure) => Failed
    case _ => After(TagOf(l), s, m, ApplyHeader)
  }

  function Set<T>(has: bool, x: T): Option<T> { if has then Some(x) else None }

  function Get<T>(o: Option<T>, x: T): T { if o.Some? then o.value else x }

  /** The has-bits of a header; bit 8 belongs to the properties and is never set. */
  function HasBits(b0: bool, b1: bool, b2: bool, b3: bool, b4: bool, b5: bool, b6: bool, b7: bool, b9: bool)
    : (bits: word)
    ensures bits[..8] == [b0, b1, b2, b3, b4, b5, b6, b7] && bits[9] == b9
  {
    [b0, b1, b2, b3, b4, b5, b6, b7] + [false, b9] + seq(22, _ => false)
  }

  class HeaderObject {
    var hasBits: word
    var messageId: bytes
    var topic: bytes
    var messageType: bytes
    var expiredTime: int64
    var deliverLimit: int32
    var groupId: bytes
    var commit: bool
    var fly: bool
    var properties: seq<Entry>
    var createTime: int64
    var unknown: seq<Record>
    /** `_cached_size_`, and that of each property. */
    var cachedSize: nat
    var entrySizes: seq<nat>

    /** The header that the fields stand for. */
    function Value(): Header
      reads this
    {
      Header(Set(hasBits[0], messageId), Set(hasBits[1], topic), Set(hasBits[2], messageType),
             Set(hasBits[3], expiredTime), Set(hasBits[4], deliverLimit), Set(hasBits[5], groupId),
             Set(hasBits[6], commit), Set(hasBits[7], fly), properties, Set(hasBits[9], createTime), unknown)
    }

    /** Fields that are not set hold their defaults. */
    ghost predicate Valid()
      reads this
    {
      && (!hasBits[0] ==> messageId == []) && (!hasBits[1] ==> topic == []) && (!hasBits[2] ==> messageType == [])
      && (!hasBits[3] ==> expiredTime == -1) && (!hasBits[4] ==> deliverLimit == 100) && (!hasBits[5] ==> groupId == [])
      && (!hasBits[6] ==> !commit) && (!hasBits[7] ==> !fly) && (!hasBits[9] ==> createTime == 0)
    }

    constructor ()
      ensures Valid() && Value() == EMPTY_HEADER
    {
      hasBits, messageId, topic, messageType, groupId := NO_BITS, [], [], [], [];
      expiredTime, deliverLimit, commit, fly, createTime := -1, 100, false, false, 0;
      properties, unknown, cachedSize, entrySizes := [], [], 0, [];
    }

    /** A header with the given fields, as the setters make it. */
    constructor Of (m: Header)
      ensures Valid() && Value() == m
    {
      hide HasBits;
      var bits := HasBits(m.messageId.Some?, m.topic.Some?, m.messageType.Some?, m.expiredTime.Some?,
                          m.deliverLimit.Some?, m.groupId.Some?, m.commit.Some?, m.fly.Some?, m.createTime.Some?);
      hasBits := bits;
      messageId, topic, messageType := Get(m.messageId, []), Get(m.topic, []), Get(m.messageType, []);
      expiredTime, deliverLimit, groupId := Get(m.expiredTime, -1), Get(m.deliverLimit, 100), Get(m.groupId, []);
      commit, fly, createTime := Get(m.commit, false), Get(m.fly, false), Get(m.createTime, 0);
      properties, unknown, cachedSize, entrySizes := m.properties, m.unknown, 0, [];
    }

    // ---- setters ----

    method SetMessageId(x: bytes)
      requires Valid()
      modifies this`hasBits, this`messageId
      ensures Valid() && Value() == old(Value()).(messageId := Some(x))
    {
      hasBits, messageId := hasBits[0 := true], x;
    }

    method SetTopic(x: bytes)
      requires Valid()
      modifies this`hasBits, this`topic
      ensures Valid() && Value() == old(Value()).(topic := Some(x))
    {
      hasBits, topic := hasBits[1 := true], x;
    }

    method SetMessageType(x: bytes)
      requires Valid()
      modifies this`hasBits, this`messageType
      ensures Valid() && Value() == old(Value()).(messageType := Some(x))
    {
      hasBits, messageType := hasBits[2 := true], x;
    }

    method SetExpiredTime(x: int64)
      requires Valid()
      modifies this`hasBits, this`expiredTime
      ensures Valid() && Value() == old(Value()).(expiredTime := Some(x))
    {
      hasBits, expiredTime := hasBits[3 := true], x;
    }

    method SetDeliverLimit(x: int32)
      requires Valid()
      modifies this`hasBits, this`deliverLimit
      ensures Valid() && Value() == old(Value()).(deliverLimit := Some(x))
    {
      hasBits, deliverLimit := hasBits[4 := true], x;
    }

    method SetGroupId(x: bytes)
      requires Valid()
      modifies this`hasBits, this`groupId
      ensures Valid() && Value() == old(Value()).(groupId := Some(x))
    {
      hasBits, groupId := hasBits[5 := true], x;
    }

    method SetCommit(x: bool)
      requires Valid()
      modifies this`hasBits, this`commit
      ensures Valid() && Value() == old(Value()).(commit := Some(x))
    {
      hasBits, commit := hasBits[6 := true], x;
    }

    method SetFly(x: bool)
      requires Valid()
      modifies this`hasBits, this`fly
      ensures Valid() && Value() == old(Value()).(fly := Some(x))
    {
      hasBits, fly := hasBits[7 := true], x;
    }

    method SetCreateTime(x: int64)
      requires Valid()
      modifies this`hasBits, this`createTime
      ensures Valid() && Value() == old(Value()).(createTime := Some(x))
    {
      hasBits, createTime := hasBits[9 := true], x;
    }

    /** `Header::Clear`: most fields are touched only if some of the first eight bits are set. */
    method Clear()
      requires Valid()
      modifies this
      ensures Valid() && Value() == EMPTY_HEADER
    {
      ClearFields();
      createTime := 0;
      properties := [];
      hasBits := NO_BITS;
      unknown := [];
    }

    /** `if (_has_bits_[0 / 32] & 255u)`. */
    method ClearFields()
      requires Valid()
      modifies this`messageId, this`topic, this`messageType, this`expiredTime, this`deliverLimit, this`groupId,
        this`commit, this`fly
      ensures messageId == [] && topic == [] && messageType == [] && groupId == []
      ensures expiredTime == -1 && deliverLimit == 100 && !commit && !fly
    {
      hide Valid, Any;
      ValidIs();
      if Any(hasBits, 0, 8) {
        commit, fly := false, false;
        if hasBits[0] { messageId := []; }
        if hasBits[1] { topic := []; }
        if hasBits[2] { messageType := []; }
        expiredTime := -1;
        deliverLimit := 100;
        if hasBits[5] { groupId := []; }
      }
    }

    /** Valid without its definition. */
    lemma ValidIs()
      ensures Valid() <==>
        && (!hasBits[0] ==> messageId == []) && (!hasBits[1] ==> topic == []) && (!hasBits[2] ==> messageType == [])
        && (!hasBits[3] ==> expiredTime == -1) && (!hasBits[4] ==> deliverLimit == 100)
        && (!hasBits[5] ==> groupId == [])
        && (!hasBits[6] ==> !commit) && (!hasBits[7] ==> !fly) && (!hasBits[9] ==> createTime == 0)
      ensures !Any(hasBits, 0, 8) ==>
        && !hasBits[0] && !hasBits[1] && !hasBits[2] && !hasBits[3]
        && !hasBits[4] && !hasBits[5] && !hasBits[6] && !hasBits[7]
    {
    }

    /** `Header::MergeFrom`; merging a header into itself is a fatal error. */
    method MergeFrom(from: HeaderObject)
      requires from != this && Valid()
      modifies this
      ensures Valid() && Value() == MergeHeader(old(Value()), from.Value())
    {
      hide Value, Valid, MergeBelow, Sofar;
      ghost var a, b := Value(), from.Value();
      Fields(from);
      Steps(a, b);
      AddProperties(from.properties);
      if Any(from.hasBits, 0, 8) {
        MergeStrings(from, a, b);
        MergeRest(from, a, b);
      }
      if Any(from.hasBits, 9, 17) {
        if from.hasBits[9] { SetCreateTime(from.createTime); }
      }
      AddUnknown(from.unknown);
    }

    /** The first four fields of `MergeFrom`. */
    method MergeStrings(from: HeaderObject, ghost a: Header, ghost b: Header)
      requires from != this && Valid() && Value() == Sofar(a, b, 1) && b == from.Value()
      modifies this
      ensures Valid() && Value() == Sofar(a, b, 5)
    {
      hide Value, Valid, MergeBelow, Sofar;
      Fields(from);
      Steps(a, b);
      if from.hasBits[0] { SetMessageId(from.messageId); }
      assert Value() == Sofar(a, b, 2);
      if from.hasBits[1] { SetTopic(from.topic); }
      assert Value() == Sofar(a, b, 3);
      if from.hasBits[2] { SetMessageType(from.messageType); }
      assert Value() == Sofar(a, b, 4);
      if from.hasBits[3] { SetExpiredTime(from.expiredTime); }
      assert Value() == Sofar(a, b, 5);
    }

    /** The next four. */
    method MergeRest(from: HeaderObject, ghost a: Header, ghost b: Header)
      requires from != this && Valid() && Value() == Sofar(a, b, 5) && b == from.Value()
      modifies this
      ensures Valid() && Value() == Sofar(a, b, 9)
    {
      hide Value, Valid, MergeBelow, Sofar;
      Fields(from);
      Steps(a, b);
      if from.hasBits[4] { SetDeliverLimit(from.deliverLimit); }
      assert Value() == Sofar(a, b, 6);
      if from.hasBits[5] { SetGroupId(from.groupId); }
      assert Value() == Sofar(a, b, 7);
      if from.hasBits[6] { SetCommit(from.commit); }
      assert Value() == Sofar(a, b, 8);
      if from.hasBits[7] { SetFly(from.fly); }
      assert Value() == Sofar(a, b, 9);
    }

    /** What has been merged before field k: the properties come first. */
    static ghost function Sofar(a: Header, b: Header, k: nat): Header {
      MergeBelow(a.(properties := a.properties + b.properties), b.(properties := []), k)
    }

    static lemma Steps(a: Header, b: Header)
      ensures Sofar(a, b, 1) == a.(properties := a.properties + b.properties)
      ensures Sofar(a, b, 2) == Sofar(a, b, 1).(messageId := Or(a.messageId, b.messageId))
      ensures Sofar(a, b, 3) == Sofar(a, b, 2).(topic := Or(a.topic, b.topic))
      ensures Sofar(a, b, 4) == Sofar(a, b, 3).(messageType := Or(a.messageType, b.messageType))
      ensures Sofar(a, b, 5) == Sofar(a, b, 4).(expiredTime := Or(a.expiredTime, b.expiredTime))
      ensures Sofar(a, b, 6) == Sofar(a, b, 5).(deliverLimit := Or(a.deliverLimit, b.deliverLimit))
      ensures Sofar(a, b, 7) == Sofar(a, b, 6).(groupId := Or(a.groupId, b.groupId))
      ensures Sofar(a, b, 8) == Sofar(a, b, 7).(commit := Or(a.commit, b.commit))
      ensures Sofar(a, b, 9) == Sofar(a, b, 8).(fly := Or(a.fly, b.fly))
      ensures MergeHeader(a, b) ==
        Sofar(a, b, 9).(createTime := Or(a.createTime, b.createTime), unknown := a.unknown + b.unknown)
    {
      assert a.properties + b.properties + [] == a.properties + b.properties;
    }

    /** Value without its definition. */
    lemma Fields(h: HeaderObject)
      ensures h.Value() == Header(
        Set(h.hasBits[0], h.messageId), Set(h.hasBits[1], h.topic), Set(h.hasBits[2], h.messageType),
        Set(h.hasBits[3], h.expiredTime), Set(h.hasBits[4], h.deliverLimit), Set(h.hasBits[5], h.groupId),
        Set(h.hasBits[6], h.commit), Set(h.hasBits[7], h.fly), h.properties,
        Set(h.hasBits[9], h.createTime), h.unknown)
    {
    }

    /** `add_properties`, and `RepeatedPtrField::MergeFrom`. */
    method AddProperties(es: seq<Entry>)
      requires Valid()
      modifies this`properties
      ensures Valid() && Value() == old(Value()).(properties := old(Value()).properties + es)
    {
      properties := properties + es;
    }

    /** `mutable_unknown_fields`. */
    method AddUnknown(rs: seq<Record>)
      requires Valid()
      modifies this`unknown
      ensures Valid() && Value() == old(Value()).(unknown := old(Value()).unknown + rs)
    {
      unknown := unknown + rs;
    }

    /** `Header::IsInitialized`. */
    method IsInitialized() returns (b: bool)
      ensures var h := Value(); b <==>
        && h.messageId.Some? && h.topic.Some? && h.messageType.Some? && h.expiredTime.Some? && h.deliverLimit.Some?
        && h.groupId.Some? && h.commit.Some? && h.fly.Some?
        && forall e | e in h.properties :: e.key.Some? && e.value.Some?
    {
      if !AllRequired(hasBits) { return false; }
      var i := 0;
      while i < |properties|
        invariant i <= |properties| && forall j | 0 <= j < i :: properties[j].key.Some? && properties[j].value.Some?
      {
        if properties[i].key.None? || properties[i].value.None? { return false; }
        i := i + 1;
      }
      return true;
    }

    // ---- parsing ----

    /** The `ExpectTag` at the end of each case: where the code goes on behind the field of l. */
    method Fall(l: HeaderLabel, s: bytes, pos: nat, ghost m: Header) returns (next: HeaderLabel, end: nat)
      requires pos <= |s| && !l.Top? && !l.Finish?
      ensures pos <= end <= |s| && Rest(next, s[end..], m) == ParseHeader(s[pos..], m)
    {
      hide Parse, After;
      next, end := Top, pos;
      if l == ParseCreateTime {
        if pos == |s| { EmptyIsDone(s[pos..], m, ApplyHeader); return Finish(AtEnd), pos; }
      } else if l in {ParseProperties, ParseLoopProperties} {
        if ExpectTag(s, pos, 74) { next := ParseLoopProperties; }
        else if ExpectTag(s, pos, 80) { next := ParseCreateTime; }
      }
      else if l == ParseMessageId { if ExpectTag(s, pos, 18) { next := ParseTopic; } }
      else if l == ParseTopic { if ExpectTag(s, pos, 26) { next := ParseMessageType; } }
      else if l == ParseMessageType { if ExpectTag(s, pos, 32) { next := ParseExpiredTime; } }
      else if l == ParseExpiredTime { if ExpectTag(s, pos, 40) { next := ParseDeliverLimit; } }
      else if l == ParseDeliverLimit { if ExpectTag(s, pos, 50) { next := ParseGroupId; } }
      else if l == ParseGroupId { if ExpectTag(s, pos, 56) { next := ParseCommit; } }
      else if l == ParseCommit { if ExpectTag(s, pos, 64) { next := ParseFly; } }
      else { if ExpectTag(s, pos, 74) { next := ParseProperties; } }
      if next != Top {
        Expected(s, pos, TagOf(next), m, ApplyHeader);
        end := pos + 1;
      }
    }

    /** A string field. */
    method TextTurn(l: HeaderLabel, s: bytes, pos: nat) returns (next: HeaderLabel, end: nat)
      requires Valid() && pos <= |s| && l in {ParseMessageId, ParseTopic, ParseMessageType, ParseGroupId}
      modifies this
      ensures Valid() && pos <= end <= |s| && (end > pos || next.Finish?)
      ensures Rest(next, s[end..], Value()) == Rest(l, s[pos..], old(Value()))
    {
      hide Value, Valid, Parse, After, ReadPayload, ReadText;
      PayloadIs(TagOf(l), s[pos..]);
      TextTakesBytes(s[pos..]);
      AfterIs(TagOf(l), s, pos, Value(), ApplyHeader);
      var b := ReadText(s[pos..]);
      if b.NoBody? { return Finish(Failure), pos; }
      var t := b.payload.t;
      if l == ParseMessageId { SetMessageId(t); }
      else if l == ParseTopic { SetTopic(t); }
      else if l == ParseMessageType { SetMessageType(t); }
      else { SetGroupId(t); }
      next, end := Fall(l, s, pos + b.n, Value());
    }

    /** A field with a number. */
    method NumberTurn(l: HeaderLabel, s: bytes, pos: nat) returns (next: HeaderLabel, end: nat)
      requires Valid() && pos <= |s|
        && l in {ParseExpiredTime, ParseDeliverLimit, ParseCommit, ParseFly, ParseCreateTime}
      modifies this
      ensures Valid() && pos <= end <= |s| && (end > pos || next.Finish?)
      ensures Rest(next, s[end..], Value()) == Rest(l, s[pos..], old(Value()))
    {
      hide Value, Valid, Parse, After, ReadPayload, Decode;
      PayloadIs(TagOf(l), s[pos..]);
      AfterIs(TagOf(l), s, pos, Value(), ApplyHeader);
      var v := Decode(s[pos..]);
      if v.NoVarint? { return Finish(Failure), pos; }
      if l == ParseExpiredTime { SetExpiredTime(Signed(v.v)); }
      else if l == ParseDeliverLimit { SetDeliverLimit(Signed32(v.v)); }
      else if l == ParseCommit { SetCommit(v.v != 0); }
      else if l == ParseFly { SetFly(v.v != 0); }
      else { SetCreateTime(Signed(v.v)); }
      next, end := Fall(l, s, pos + v.n, Value());
    }

    /** One property. */
    method PropertyTurn(l: HeaderLabel, s: bytes, pos: nat) returns (next: HeaderLabel, end: nat)
      requires Valid() && pos <= |s| && l in {ParseProperties, ParseLoopProperties}
      modifies this
      ensures Valid() && pos <= end <= |s| && (end > pos || next.Finish?)
      ensures Rest(next, s[end..], Value()) == Rest(l, s[pos..], old(Value()))
    {
      hide Value, Valid, Parse, After, ReadPayload, ReadText, ParseEntry;
      PayloadIs(74, s[pos..]);
      TextTakesBytes(s[pos..]);
      AfterIs(74, s, pos, Value(), ApplyHeader);
      var b := ReadText(s[pos..]);
      if b.NoBody? { return Finish(Failure), pos; }
      var e, entry := MergePartialEntry(b.payload.t, EMPTY_ENTRY);
      if e != AtEnd { return Finish(Failure), pos; }
      AddProperties([entry]);
      next, end := Fall(l, s, pos + b.n, Value());
    }

    /** `ReadTagWithCutoff(127)`, the `switch`, and `handle_unusual`. */
    method TopTurn(s: bytes, pos: nat) returns (next: HeaderLabel, end: nat)
      requires Valid() && pos <= |s|
      modifies this
      ensures Valid() && pos <= end <= |s| && (end > pos || next.Finish?)
      ensures Rest(next, s[end..], Value()) == ParseHeader(s[pos..], old(Value()))
    {
      hide Value, Valid, Parse, After, ReadPayload, Decode;
      ParseIs(s[pos..], Value(), ApplyHeader);
      var t := ReadTag(s[pos..]);
      end := pos + t.n;
      assert s[pos..][t.n..] == s[end..];
      var tag := t.tag;
      if 1 <= tag <= 127 {
        match Field(tag) {
          case 1 => if tag == 10 { return ParseMessageId, end; }
          case 2 => if tag == 18 { return ParseTopic, end; }
          case 3 => if tag == 26 { return ParseMessageType, end; }
          case 4 => if tag == 32 { return ParseExpiredTime, end; }
          case 5 => if tag == 40 { return ParseDeliverLimit, end; }
          case 6 => if tag == 50 { return ParseGroupId, end; }
          case 7 => if tag == 56 { return ParseCommit, end; }
          case 8 => if tag == 64 { return ParseFly, end; }
          case 9 => if tag == 74 { return ParseProperties, end; }
          case 10 => if tag == 80 { return ParseCreateTime, end; }
          case _ =>
        }
      }
      if tag == 0 || WireType(tag) == END_GROUP {
        return Finish(if pos == |s| then AtEnd else Early), end;
      }
      AfterIs(tag, s, end, Value(), ApplyHeader);
      var b := ReadPayload(s[end..], tag);
      if b.NoBody? { return Finish(Failure), end; }
      AddUnknown([Record(tag, b.payload)]);
      return Top, end + b.n;
    }

    /** `Header::MergePartialFromCodedStream`: on every byte string it does what the plain loop does. */
    method MergePartialFromCodedStream(s: bytes) returns (e: Ending)
      requires Valid()
      modifies this
      ensures Valid() && Agrees(e, Value(), ParseHeader(s, old(Value())))
    {
      hide Value, Valid, ParseHeader, After, TagOf;
      var place, pos := Top, 0;
      assert s[0..] == s;
      while !place.Finish?
        invariant Valid() && pos <= |s| && Rest(place, s[pos..], Value()) == ParseHeader(s, old(Value()))
        decreases |s| - pos, if place.Finish? then 0 else 1
      {
        if place == Top { place, pos := TopTurn(s, pos); }
        else if place in {ParseMessageId, ParseTopic, ParseMessageType, ParseGroupId} {
          place, pos := TextTurn(place, s, pos);
        }
        else if place in {ParseProperties, ParseLoopProperties} { place, pos := PropertyTurn(place, s, pos); }
        else { place, pos := NumberTurn(place, s, pos); }
      }
      e := place.e;
    }

    // ---- sizes and output ----

    /** Every property has its size in its cache. */
    ghost predicate SizesCached()
      reads this
    {
      |entrySizes| == |properties|
          && forall i | 0 <= i < |properties| :: entrySizes[i] == |SerializeEntry(properties[i])|
    }

    /** `Header::RequiredFieldsByteSizeFallback`. */
    method RequiredFieldsByteSizeFallback() returns (total: nat)
      requires ValidHeader(Value())
      ensures total == Required(Value())
    {
      hide Value, FieldSize, StringSize, Int64Size, Int32Size, ValidHeader;
      FieldSizes();
      total := 0;
      if hasBits[0] { total := total + 1 + StringSize(messageId); }
      if hasBits[1] { total := total + 1 + StringSize(topic); }
      if hasBits[2] { total := total + 1 + StringSize(messageType); }
      if hasBits[3] { total := total + 1 + Int64Size(expiredTime); }
      if hasBits[4] { total := total + 1 + Int32Size(deliverLimit); }
      if hasBits[5] { total := total + 1 + StringSize(groupId); }
      if hasBits[6] { total := total + 1 + 1; }
      if hasBits[7] { total := total + 1 + 1; }
    }

    /** The sizes of the fields that are not repeated. */
    lemma FieldSizes()
      requires ValidHeader(Value())
      ensures (hasBits[0] ==> |messageId| < TWO_31) && (hasBits[1] ==> |topic| < TWO_31)
      ensures (hasBits[2] ==> |messageType| < TWO_31) && (hasBits[5] ==> |groupId| < TWO_31)
      ensures FieldSize(Value(), 1) == if hasBits[0] then 1 + StringSize(messageId) else 0
      ensures FieldSize(Value(), 2) == if hasBits[1] then 1 + StringSize(topic) else 0
      ensures FieldSize(Value(), 3) == if hasBits[2] then 1 + StringSize(messageType) else 0
      ensures FieldSize(Value(), 4) == if hasBits[3] then 1 + Int64Size(expiredTime) else 0
      ensures FieldSize(Value(), 5) == if hasBits[4] then 1 + Int32Size(deliverLimit) else 0
      ensures FieldSize(Value(), 6) == if hasBits[5] then 1 + StringSize(groupId) else 0
      ensures FieldSize(Value(), 7) == if hasBits[6] then 2 else 0
      ensures FieldSize(Value(), 8) == if hasBits[7] then 2 else 0
      ensures FieldSize(Value(), 10) == if hasBits[9] then 1 + Int64Size(createTime) else 0
    {
      hide SerializeEntry, ValidEntry, WriteAll, CanonicalAll, Size, Unsigned, PropertiesSize;
    }

    /** The sizes of the eight required fields, as far as they are set. */
    static ghost function Required(m: Header): nat
      requires ValidHeader(m)
    {
      FieldSize(m, 1) + FieldSize(m, 2) + FieldSize(m, 3) + FieldSize(m, 4)
      + FieldSize(m, 5) + FieldSize(m, 6) + FieldSize(m, 7) + FieldSize(m, 8)
    }

    /** `Header::ByteSize`: the path for headers with all required fields and the other one count the same
        bytes, which are those that serialization writes. */
    method ByteSize() returns (total: nat)
      requires ValidHeader(Value())
      modifies this`cachedSize, this`entrySizes
      ensures total == cachedSize == |SerializeHeader(Value())| && SizesCached() && Value() == old(Value())
    {
      hide SerializeEntry, SerializeHeader, ValidEntry, WriteAll, CanonicalAll, Size, Unsigned, PropertiesSize;
      HeaderSizeIs(Value());
      total := 0;
      if AllRequired(hasBits) {
        total := total + 1 + StringSize(messageId);
        total := total + 1 + StringSize(topic);
        total := total + 1 + StringSize(messageType);
        total := total + 1 + Int64Size(expiredTime);
        total := total + 1 + Int32Size(deliverLimit);
        total := total + 1 + StringSize(groupId);
        total := total + 1 + 1;
        total := total + 1 + 1;
      } else {
        var n := RequiredFieldsByteSizeFallback();
        total := total + n;
      }
      assert total == Required(Value());
      if hasBits[9] { total := total + 1 + Int64Size(createTime); }
      var n := PropertiesByteSize();
      total := total + n;
      total := total + |WriteAll(unknown)|;
      cachedSize := total;
    }

    /** `total_size += 1 * properties_size()`, and the loop that adds the sizes of the properties. */
    method PropertiesByteSize() returns (total: nat)
      requires ValidHeader(Value())
      modifies this`entrySizes
      ensures total == PropertiesSize(properties) && SizesCached()
    {
      hide SerializeEntry, SerializeHeader, ValidEntry, WriteAll, CanonicalAll;
      total := 1 * |properties|;
      var i := 0;
      entrySizes := [];
      while i < |properties|
        invariant i <= |properties| == old(|properties|) && ValidHeader(Value()) && |entrySizes| == i
        invariant forall j | 0 <= j < i :: entrySizes[j] == |SerializeEntry(properties[j])|
        invariant total == PropertiesSize(properties[..i]) + (|properties| - i)
      {
        var n := EntryByteSize(properties[i]);
        entrySizes := entrySizes + [n];
        total := total + Size(n) + n;
        assert properties[..i + 1][..i] == properties[..i];
        i := i + 1;
      }
      assert properties[..i] == properties;
    }

    /** `Header::SerializeWithCachedSizesToArray`, after `ByteSize`. */
    method SerializeWithCachedSizesToArray(target: array<byte>, at: nat) returns (end: nat)
      requires SizesCached() && at + |SerializeHeader(Value())| <= target.Length
      modifies target
      ensures Added(target, at, end, SerializeHeader(Value()))
    {
      hide SerializeEntry, SerializeHeader, WriteAll, HeaderUpTo, HeaderField, StrField, IntField, Int32Field;
      hide BoolField, Filled, Unsigned, Value;
      ghost var m, start := Value(), target[..at];
      Fields(this);
      NothingWritten(target, at, m);
      FieldsOf(m);
      end := StringFieldOut(hasBits[0], 10, messageId, target, at, start, m, 1);
      end := StringFieldOut(hasBits[1], 18, topic, target, end, start, m, 2);
      end := StringFieldOut(hasBits[2], 26, messageType, target, end, start, m, 3);
      end := NumberFieldOut(hasBits[3], 32, Unsigned(expiredTime), target, end, start, m, 4);
      end := NumberFieldOut(hasBits[4], 40, Unsigned(deliverLimit), target, end, start, m, 5);
      end := StringFieldOut(hasBits[5], 50, groupId, target, end, start, m, 6);
      end := NumberFieldOut(hasBits[6], 56, if commit then 1 else 0, target, end, start, m, 7);
      end := NumberFieldOut(hasBits[7], 64, if fly then 1 else 0, target, end, start, m, 8);
      end := PropertiesOut(properties, entrySizes, target, end, start, m);
      end := NumberFieldOut(hasBits[9], 80, Unsigned(createTime), target, end, start, m, 10);
      end := UnknownOut(unknown, target, end, start, m);
      AllWritten(target, end, start, m);
    }

    static lemma NothingWritten(target: array<byte>, at: nat, m: Header)
      requires at + |SerializeHeader(m)| <= target.Length
      ensures Filled(target, at, target[..at], m, 1)
    {
      hide SerializeHeader;
      assert target[..at] + [] == target[..at];
    }

    static lemma AllWritten(target: array<byte>, end: nat, start: bytes, m: Header)
      requires Filled(target, end, start, m, 12)
      ensures target[..end] == start + SerializeHeader(m) && end == |start| + |SerializeHeader(m)|
    {
      hide SerializeHeader, HeaderUpTo;
      UpToAll(m);
      assert |target[..end]| == end;
    }

    /** The fields of a header, each with its condition. */
    static lemma FieldsOf(m: Header)
      ensures HeaderField(m, 1) == StrField(10, m.messageId) && HeaderField(m, 2) == StrField(18, m.topic)
      ensures HeaderField(m, 3) == StrField(26, m.messageType) && HeaderField(m, 6) == StrField(50, m.groupId)
      ensures HeaderField(m, 4) ==
        if m.expiredTime.Some? then [Record(32, Number(Unsigned(m.expiredTime.value)))] else []
      ensures HeaderField(m, 5) ==
        if m.deliverLimit.Some? then [Record(40, Number(Unsigned(m.deliverLimit.value)))] else []
      ensures HeaderField(m, 7) == if m.commit.Some? then [Record(56, Number(if m.commit.value then 1 else 0))] else []
      ensures HeaderField(m, 8) == if m.fly.Some? then [Record(64, Number(if m.fly.value then 1 else 0))] else []
      ensures HeaderField(m, 10) ==
        if m.createTime.Some? then [Record(80, Number(Unsigned(m.createTime.value)))] else []
    {
    }
  }
}
