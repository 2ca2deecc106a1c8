/** protocol/KitePacket.cpp: packets as frames of bytes, written by `toByteBuf` and read by `parseFrom`. */
module KitePacket {
  import opened CText
  import opened Varint
  import opened ByteBuf
  import Wire
  import Messages
  import MessageObject
  import WireOutput
  import WireRoundTrip

  // ---- protocol/protocol.h ----

  const CMD_HEARTBEAT: byte := 0x01
  const CMD_CONN_AUTH: byte := 0x03
  const CMD_MESSAGE_STORE_ACK: byte := 0x04
  const CMD_TX_ACK: byte := 0x06
  const CMD_BYTES_MESSAGE: byte := 0x11
  const CMD_STRING_MESSAGE: byte := 0x12

  const PACKET_HEAD_LEN: nat := 4 + 1 + 2 + 8 + 4
  const MAX_PACKET_BYTES: nat := 32 * 1024

  // ---- packets ----

  /** The body of a packet: the two messages that are modelled, the bytes of one that is not, or a message
      object whose parsing failed. */
  datatype Message =
    | StringMsg(s: Messages.StringMessage) | TxMsg(t: Messages.TxAck) | Other(body: bytes) | Broken

  datatype Packet = Packet(opaqueId: int32, cmdType: byte, version: int16, extension: int64, message: Message)

  function MessageBytes(m: Message): bytes {
    match m
    case StringMsg(s) => Messages.SerializeString(s)
    case TxMsg(t) => Messages.SerializeTx(t)
    case Other(body) => body
    case Broken => []
  }

  predicate Known(cmd: byte) {
    cmd in {CMD_HEARTBEAT, CMD_CONN_AUTH, CMD_MESSAGE_STORE_ACK, CMD_TX_ACK, CMD_BYTES_MESSAGE, CMD_STRING_MESSAGE}
  }

  /** The message can be written. */
  predicate Writable(m: Message) {
    match m
    case StringMsg(s) => Messages.ValidString(s)
    case TxMsg(t) => Messages.ValidTx(t)
    case Other(_) => true
    case Broken => false
  }

  /** The message can be written, and has the type that the command announces. */
  predicate Fits(cmd: byte, m: Message) {
    && Known(cmd) && Writable(m)
    && (m.StringMsg? <==> cmd == CMD_STRING_MESSAGE)
    && (m.TxMsg? <==> cmd == CMD_TX_ACK)
  }

  lemma FitsIsWritable(cmd: byte, m: Message)
    requires Fits(cmd, m)
    ensures Writable(m)
  {
    hide Messages.ValidString, Messages.ValidTx;
  }

  /** `message->ByteSize()`. */
  method MessageByteSize(m: Message) returns (n: nat)
    requires Writable(m)
    ensures n == |MessageBytes(m)|
  {
    hide Messages.SerializeString, Messages.SerializeTx, Messages.ValidString, Messages.ValidTx;
    if m.StringMsg? {
      var o := new MessageObject.StringMessageObject.Of(m.s);
      n := o.ByteSize();
    } else if m.TxMsg? {
      var o := new MessageObject.TxAckObject.Of(m.t);
      n := o.ByteSize();
    } else {
      n := |m.body|;
    }
  }

  /** `message->SerializeToArray(target,size)`: the sizes are cached, and then the fields are written. */
  method SerializeToArray(m: Message, target: array<byte>) returns (ok: bool)
    requires Writable(m)
    modifies target
    ensures ok == (|MessageBytes(m)| <= target.Length)
    ensures ok ==> target[..|MessageBytes(m)|] == MessageBytes(m)
  {
    hide Messages.SerializeString, Messages.SerializeTx, Messages.ValidString, Messages.ValidTx;
    var n, end: nat;
    if m.StringMsg? {
      var o := new MessageObject.StringMessageObject.Of(m.s);
      n := o.ByteSize();
      if target.Length < n { return false; }
      end := o.SerializeWithCachedSizesToArray(target, 0);
    } else if m.TxMsg? {
      var o := new MessageObject.TxAckObject.Of(m.t);
      n := o.ByteSize();
      if target.Length < n { return false; }
      end := o.SerializeWithCachedSizesToArray(target, 0);
    } else {
      n := |m.body|;
      if target.Length < n { return false; }
      end := WireOutput.PutBytes(m.body, target, 0);
    }
    return true;
  }

  /** A frame without its length: the packet header and the body. */
  function Content(p: Packet): bytes {
    var body := MessageBytes(p.message);
    Be32(p.opaqueId) + ([p.cmdType] + (Be16(p.version) + (Be64(p.extension) + (Be32(|body|) + body))))
  }

  /** What `toByteBuf` produces. */
  function Frame(p: Packet): bytes {
    Be32(PACKET_HEAD_LEN + |MessageBytes(p.message)|) + Content(p)
  }

  // ---- parsing ----

  function BodyLength(data: bytes): int32
    requires |data| >= PACKET_HEAD_LEN
  {
    ReadInt(data[15..])
  }

  /** `ParseFromArray` into a message of the type that the command announces. Its result is ignored, so
      a message that stops early, or lacks required fields, is used all the same. */
  function ParseBody(cmd: byte, body: bytes): Message {
    if cmd == CMD_STRING_MESSAGE then
      (match Messages.ParseString(body, Messages.EMPTY_STRING_MESSAGE)
       case Done(m) => StringMsg(m)
       case Stopped(m) => StringMsg(m)
       case Failed => Broken)
    else if cmd == CMD_TX_ACK then
      (match Messages.ParseTx(body, Messages.EMPTY_TX_ACK)
       case Done(m) => TxMsg(m)
       case Stopped(m) => TxMsg(m)
       case Failed => Broken)
    else Other(body)
  }

  /** `new ...; msg->ParseFromArray(buf,bodyLength)`: the parsers of the generated code. */
  method ParseFromArray(cmd: byte, body: bytes) returns (m: Message)
    ensures m == ParseBody(cmd, body)
  {
    hide Messages.ParseString, Messages.ParseTx;
    if cmd == CMD_STRING_MESSAGE {
      var o := new MessageObject.StringMessageObject.Of(Messages.EMPTY_STRING_MESSAGE);
      var e := o.MergePartialFromCodedStream(body);
      m := if e.Failure? then Broken else StringMsg(o.Value());
    } else if cmd == CMD_TX_ACK {
      var o := new MessageObject.TxAckObject.Of(Messages.EMPTY_TX_ACK);
      var e := o.MergePartialFromCodedStream(body);
      m := if e.Failure? then Broken else TxMsg(o.Value());
    } else {
      m := Other(body);
    }
  }

  /** A frame holds a packet header; if its command is known, the body length is not negative. */
  predicate Readable(data: bytes) {
    |data| >= PACKET_HEAD_LEN && (BodyLength(data) < 0 ==> !Known(data[4]))
  }

  /** `KitePacket::parseFrom`: no packet if the body is longer than the frame or the command is unknown;
      bytes behind the body are ignored. */
  function ParsePacket(data: bytes, over: shift): (p: Wire.Option<Packet>)
    requires Readable(data) && Plausible(over)
  {
    var extension := ReadLong(data[7..], over);
    var n := BodyLength(data);
    if |data| - PACKET_HEAD_LEN < n || !Known(data[4]) then Wire.None
    else
      Wire.Some(Packet(ReadInt(data), data[4], ReadShort(data[5..]), extension,
                       ParseBody(data[4], data[PACKET_HEAD_LEN..PACKET_HEAD_LEN + n])))
  }

  /** `parseFrom` on any frame: there is a packet exactly if the command is one of six and the body is inside the
      frame; and where its fields come from. Of the extension it takes the lower half. */
  lemma ParsedFrom(data: bytes, over: shift)
    requires Readable(data) && Plausible(over)
    ensures BodyLength(data) % TWO_32 == WordAt(data, 15)
    ensures ParsePacket(data, over).Some? <==>
      data[4] in {0x01, 0x03, 0x04, 0x06, 0x11, 0x12} && 19 + BodyLength(data) <= |data|
    ensures ParsePacket(data, over).Some? ==> var p, n := ParsePacket(data, over).value, BodyLength(data);
      && p.opaqueId % TWO_32 == WordAt(data, 0) && p.cmdType == data[4]
      && p.version % 0x1_0000 == 0x100 * (data[5] as int) + data[6]
      && (WordAt(data, 7) == 0 ==> p.extension == WordAt(data, 11))
      && n >= 0 && p.message == ParseBody(data[4], data[19..19 + n])
  {
    hide OrOctets, ParseBody, ReadLong, FromOctets;
    IntIs(data);
    ShortIs(data[5..]);
    IntIs(data[15..]);
    LowerHalf(data[7..], over);
    OrOctetsIsSum(data[0], data[1], data[2], data[3]);
    OrOctetsIsSum(data[15], data[16], data[17], data[18]);
  }

  /** Which message a command stands for: a message object of its type, which is broken exactly if parsing fails, and
      not if it only stops early; or the body as it is. */
  lemma BodyOf(cmd: byte, body: bytes)
    ensures var m := ParseBody(cmd, body);
      if cmd == 0x12 then
        var o := Messages.ParseString(body, Messages.EMPTY_STRING_MESSAGE);
        if o.Failed? then m == Broken else m == StringMsg(o.m)
      else if cmd == 0x06 then
        var o := Messages.ParseTx(body, Messages.EMPTY_TX_ACK);
        if o.Failed? then m == Broken else m == TxMsg(o.m)
      else m == Other(body)
  {
  }

  lemma LowerHalf(b: bytes, over: shift)
    requires |b| >= 8 && Plausible(over)
    ensures WordAt(b, 0) == 0 ==> ReadLong(b, over) == WordAt(b, 4)
  {
    hide OrOctets;
    LongIsShort(b, over);
    OrOctetsIsSum(b[4], b[5], b[6], b[7]);
  }

  // ---- round trip ----

  lemma ParseBodyOfMessage(cmd: byte, m: Message)
    requires Fits(cmd, m)
    ensures ParseBody(cmd, MessageBytes(m)) == m
  {
    hide Messages.ParseString, Messages.ParseTx, Messages.SerializeString, Messages.SerializeTx, Messages.ValidString;
    hide Messages.ValidTx;
    match m {
      case StringMsg(s) => { WireRoundTrip.StringRoundTrip(s); }
      case TxMsg(t) => { WireRoundTrip.TxRoundTrip(t); }
      case Other(_) => {}
    }
  }

  /** Where the fields of the header stand. */
  lemma FieldsOf(p: Packet)
    ensures var data, body := Content(p), MessageBytes(p.message);
      && |data| == PACKET_HEAD_LEN + |body| && data[4] == p.cmdType && data[PACKET_HEAD_LEN..] == body
      && data == Be32(p.opaqueId) + data[4..] && data[5..] == Be16(p.version) + data[7..]
      && data[7..] == Be64(p.extension) + data[15..] && data[15..] == Be32(|body|) + body
  {
    hide Be16, Be32, Be64, MessageBytes;
    var body := MessageBytes(p.message);
    var d4 := Be32(|body|) + body;
    var d3 := Be64(p.extension) + d4;
    var d2 := Be16(p.version) + d3;
    var data := Content(p);
    assert data == Be32(p.opaqueId) + ([p.cmdType] + d2);
    assert data[4..] == [p.cmdType] + d2;
    assert data[5..] == d2 && d2[2..] == d3 && data[7..] == d3;
    assert d3[8..] == d4 && data[15..] == d4 && d4[4..] == body && data[PACKET_HEAD_LEN..] == body;
  }

  /** A packet that was written is read back exactly when its extension is a number of 32 bits without a sign. */
  lemma ParseContent(p: Packet, over: shift)
    requires Fits(p.cmdType, p.message) && Plausible(over) && PACKET_HEAD_LEN + |MessageBytes(p.message)| < TWO_31
    ensures Readable(Content(p)) && BodyLength(Content(p)) == |MessageBytes(p.message)|
    ensures ParsePacket(Content(p), over) == Wire.Some(p) <==> 0 <= p.extension < TWO_32
    ensures ParsePacket(Content(p), over).Some?
  {
    hide Be16, Be32, Be64, MessageBytes, Content, ReadLong, ReadInt, ReadShort, ParseBody, Plausible;
    var data, body := Content(p), MessageBytes(p.message);
    FieldsOf(p);
    IntRoundTrip(p.opaqueId, data[4..]);
    ShortRoundTrip(p.version, data[7..]);
    LongRoundTrip(p.extension, data[15..], over);
    LongIsShort(data[7..], over);
    IntRoundTrip(|body|, body);
    ParseBodyOfMessage(p.cmdType, p.message);
    assert data[PACKET_HEAD_LEN..PACKET_HEAD_LEN + |body|] == body;
  }

  /** The octets of a packet in the stream, at the places that the protocol gives them, numbers with the highest
      octet first: the length of what follows, the identifier, the command, the version, the extension, the
      length of the body, the body. */
  ghost predicate LaidOut(f: bytes, p: Packet) {
    var body := MessageBytes(p.message);
    && |f| == FRAME_HEAD_LEN + |body| && WordAt(f, 0) == 19 + |body|
    && WordAt(f, 4) == p.opaqueId % TWO_32 && f[8] == p.cmdType
    && f[9] == p.version / 256 % 256 && f[10] == p.version % 256
    && WordAt(f, 11) == p.extension / TWO_32 % TWO_32 && WordAt(f, 15) == p.extension % TWO_32
    && WordAt(f, 19) == |body| && f[23..] == body
  }

  /** What is sent for a packet is what is laid out like that, and nothing else. */
  lemma FrameIff(f: bytes, p: Packet)
    requires FRAME_HEAD_LEN + |MessageBytes(p.message)| < TWO_31
    ensures LaidOut(f, p) <==> f == Frame(p)
  {
    hide WordAt, LaidOut, MessageBytes, Frame;
    FrameIsLaidOut(p);
    if LaidOut(f, p) { LaidOutOnce(f, Frame(p), p); }
  }

  lemma FrameIsLaidOut(p: Packet)
    requires FRAME_HEAD_LEN + |MessageBytes(p.message)| < TWO_31
    ensures LaidOut(Frame(p), p)
  {
    hide MessageBytes, Be32, Be64, Content, WordAt;
    var f, body := Frame(p), MessageBytes(p.message);
    FieldsOf(p);
    WordHere(f, 0, PACKET_HEAD_LEN + |body|);
    WordHere(f, 4, p.opaqueId);
    LongHere(f, 11, p.extension);
    WordHere(f, 19, |body|);
  }

  lemma WordHere(s: bytes, at: nat, x: int)
    requires at + 4 <= |s| && s[at..at + 4] == Be32(x)
    ensures WordAt(s, at) == x % TWO_32
  {
    hide Be32, FromOctets;
    var b := Be32(x);
    assert s[at] == b[0] && s[at + 1] == b[1] && s[at + 2] == b[2] && s[at + 3] == b[3];
    FourOctets(x);
  }

  lemma LongHere(s: bytes, at: nat, x: int)
    requires at + 8 <= |s| && s[at..at + 8] == Be64(x)
    ensures WordAt(s, at) == x / TWO_32 % TWO_32 && WordAt(s, at + 4) == x % TWO_32
  {
    hide Be32, WordAt;
    assert s[at..at + 4] == s[at..at + 8][..4] && s[at + 4..at + 8] == s[at..at + 8][4..];
    WordHere(s, at, x / TWO_32);
    WordHere(s, at + 4, x);
  }

  lemma LaidOutOnce(f: bytes, g: bytes, p: Packet)
    requires LaidOut(f, p) && LaidOut(g, p)
    ensures f == g
  {
    hide WordAt, MessageBytes;
    SameOctets(f, 0, g, 0);
    SameOctets(f, 4, g, 4);
    SameOctets(f, 11, g, 11);
    SameOctets(f, 15, g, 15);
    SameOctets(f, 19, g, 19);
    assert f[..23] == g[..23];
    assert f == f[..23] + f[23..] && g == g[..23] + g[23..];
  }

  /** The length and the packet header. */
  function Head(opaqueId: int32, cmdType: byte, version: int16, extension: int64, n: nat): (h: bytes)
    ensures |h| == FRAME_HEAD_LEN
  {
    Be32(PACKET_HEAD_LEN + n) + Be32(opaqueId) + [cmdType] + Be16(version) + Be64(extension) + Be32(n)
  }

  // ---- when the loop of toByteBuf is left ----

  /** The bytes in front of the body. */
  const FRAME_HEAD_LEN: nat := PACKET_HEAD_LEN + 4

  /** The capacity of the buffer when the loop is entered, if its size and capacity were the given ones and
      the body has n bytes. */
  function AtLoop(g: Growth, size: nat, capacity: nat, n: nat): (c: nat)
    requires size <= capacity
    ensures c >= size + FRAME_HEAD_LEN
  {
    var total := FRAME_HEAD_LEN + n;
    Pushed(g, if size < total then Reserved(g, capacity, total + 1) else capacity, size, FRAME_HEAD_LEN)
  }

  /** The capacity after k turns that found no room. */
  function AfterTurns(g: Growth, size: nat, capacity: nat, n: nat, k: nat): (c: nat)
    requires size <= capacity
    ensures c >= size + FRAME_HEAD_LEN
  {
    if k == 0 then AtLoop(g, size, capacity, n)
    else Reserved(g, AfterTurns(g, size, capacity, n, k - 1), FRAME_HEAD_LEN + n + 1)
  }

  /** In turn k there is room for the body. */
  predicate RoomIn(g: Growth, size: nat, capacity: nat, n: nat, k: nat)
    requires size <= capacity
  {
    AfterTurns(g, size, capacity, n, k) >= size + FRAME_HEAD_LEN + n
  }

  /** The loop is left if it is left in one of its first two turns, and turns forever otherwise. */
  lemma {:induction false} LeavesIff(g: Growth, size: nat, capacity: nat, n: nat)
    requires size <= capacity
    ensures (exists k: nat :: RoomIn(g, size, capacity, n, k)) <==> RoomIn(g, size, capacity, n, 1)
  {
    forall k: nat | RoomIn(g, size, capacity, n, k) ensures RoomIn(g, size, capacity, n, 1) {
      TurnsSettle(g, size, capacity, n, k);
    }
  }

  /** From the second turn on, the capacity stays. */
  lemma {:induction false} TurnsSettle(g: Growth, size: nat, capacity: nat, n: nat, k: nat)
    requires size <= capacity
    ensures AfterTurns(g, size, capacity, n, k) <= AfterTurns(g, size, capacity, n, 1)
    ensures k > 0 ==> AfterTurns(g, size, capacity, n, k) == AfterTurns(g, size, capacity, n, 1)
  {
    hide AtLoop;
    if k > 1 { TurnsSettle(g, size, capacity, n, k - 1); }
  }

  /** A packet that is written for the first time leaves the loop in its first turn, however vectors grow. */
  lemma FirstWriteLeaves(g: Growth, n: nat)
    ensures RoomIn(g, 0, 0, n, 0) && RoomIn(g, 0, 0, n, 1)
  {
  }

  /** `reserve(n)` makes room for exactly n bytes. */
  ghost predicate Exact(g: Growth) { forall n: nat :: g.reserve(n) == 0 }

  /** The condition in terms of the buffer before the call, if writing the packet header does not make it
      grow: it was empty, or it has room for another frame already. (A buffer of one byte does not occur.) */
  lemma LeavesWithoutGrowth(g: Growth, size: nat, capacity: nat, n: nat)
    requires size <= capacity && Exact(g)
    requires size + FRAME_HEAD_LEN <= capacity || (size < FRAME_HEAD_LEN + n && size <= n + 1)
    ensures RoomIn(g, size, capacity, n, 1) <==> size <= 1 || size + FRAME_HEAD_LEN + n <= capacity
  {
    var total := FRAME_HEAD_LEN + n;
    var c := if size < total then Reserved(g, capacity, total + 1) else capacity;
    PushedInside(g, c, size, FRAME_HEAD_LEN);
    assert AfterTurns(g, size, capacity, n, 1) == Reserved(g, c, total + 1);
  }

  /** The capacity when the loop was left. */
  function CapacityAfter(g: Growth, size: nat, capacity: nat, n: nat): nat
    requires size <= capacity
  {
    if RoomIn(g, size, capacity, n, 0) then AtLoop(g, size, capacity, n) else AfterTurns(g, size, capacity, n, 1)
  }

  /** A packet that is written again with a body that is longer by 22 bytes or more turns forever. */
  lemma SecondWriteHangs(g: Growth, first: nat, second: nat)
    requires Exact(g) && second >= first + 22
    ensures RoomIn(g, 0, 0, first, 0) && CapacityAfter(g, 0, 0, first) == FRAME_HEAD_LEN + first + 1
    ensures var size, capacity := FRAME_HEAD_LEN + first, CapacityAfter(g, 0, 0, first);
      forall k: nat :: !RoomIn(g, size, capacity, second, k)
  {
    PushedInside(g, FRAME_HEAD_LEN + first + 1, 0, FRAME_HEAD_LEN);
    var size, capacity := FRAME_HEAD_LEN + first, FRAME_HEAD_LEN + first + 1;
    LeavesWithoutGrowth(g, size, capacity, second);
    LeavesIff(g, size, capacity, second);
  }

  /** What is sent for a packet whose buffer still holds the frame of another one in front: the new frame if
      and only if both frames are the same. */
  lemma SentAfterOther(p: Packet, q: Packet)
    requires FRAME_HEAD_LEN + |MessageBytes(p.message)| < TWO_31 && FRAME_HEAD_LEN + |MessageBytes(q.message)| < TWO_31
    ensures |Frame(p)| == FRAME_HEAD_LEN + |MessageBytes(p.message)|
    ensures (Frame(q) + Frame(p))[..|Frame(p)|] == Frame(p) <==> Frame(q) == Frame(p)
  {
    hide Be32, Content, ReadInt;
    FieldsOf(p);
    FieldsOf(q);
    var m, n := PACKET_HEAD_LEN + |MessageBytes(p.message)|, PACKET_HEAD_LEN + |MessageBytes(q.message)|;
    IntRoundTrip(m, Content(p));
    IntRoundTrip(n, Content(q) + Frame(p));
    var sent := (Frame(q) + Frame(p))[..|Frame(p)|];
    if sent == Frame(p) {
      assert sent[..4] == (Frame(q) + Frame(p))[..4] == Be32(n) && Frame(p)[..4] == Be32(m);
      IntRoundTrip(m, []);
      IntRoundTrip(n, []);
      assert m == n;
      assert sent == Frame(q);
    }
  }

  // ---- the class ----

  class KitePacket {
    var opaqueId: int32
    var cmdType: byte
    var version: int16
    var extension: int64
    var message: Message
    const buff: ByteBuf

    constructor (p: Packet, growth: Growth)
      ensures Value() == p && fresh(buff) && Fresh() && buff.growth == growth
    {
      opaqueId, cmdType, version, extension, message := p.opaqueId, p.cmdType, p.version, p.extension, p.message;
      buff := new ByteBuf.Empty(growth);
    }

    /** Nothing was written to the buffer yet. */
    ghost predicate Fresh()
      reads this, buff
    {
      buff.Valid() && buff.buff == [] && buff.writerIndex == 0 && buff.capacity == 0
    }

    function Value(): Packet
      reads this
    {
      Packet(opaqueId, cmdType, version, extension, message)
    }

    /** `toByteBuf`, if its loop is left: the frame is appended to the buffer, and as many bytes as it has are
        sent from the front of the buffer. */
    method ToByteBuf() returns (num: nat, sent: bytes)
      requires buff.Valid() && buff.writerIndex == |buff.buff|
      requires Writable(message) && FRAME_HEAD_LEN + |MessageBytes(message)| < TWO_31
      requires RoomIn(buff.growth, |buff.buff|, buff.capacity, |MessageBytes(message)|, 1)
      modifies buff
      ensures buff.Valid() && buff.buff == old(buff.buff) + Frame(Value()) && buff.writerIndex == |buff.buff|
      ensures buff.capacity == CapacityAfter(buff.growth, old(|buff.buff|), old(buff.capacity), |MessageBytes(message)|)
      ensures num == |Frame(Value())| && sent == buff.buff[..num]
      ensures LaidOut(buff.buff[old(|buff.buff|)..], Value())
    {
      hide MessageBytes, Frame, Content, Head, Writable, Pushed, AtLoop, LaidOut;
      FrameIs(Value());
      ghost var g, size, capacity := buff.growth, |buff.buff|, buff.capacity;
      var serializedSize := MessageByteSize(message);
      ghost var body := MessageBytes(message);
      var totalOutputSize := PACKET_HEAD_LEN + serializedSize + 4;
      if |buff.buff| < totalOutputSize { buff.Resize(totalOutputSize); }
      WriteHeader(serializedSize);
      AtLoopIs(g, size, capacity, serializedSize);
      ghost var head := buff.buff;
      var done := false;
      ghost var k := 0;
      while !done
        invariant buff.Valid() && (!done ==> k <= 1) && |head| == size + FRAME_HEAD_LEN
        invariant !done ==> buff.buff == head && buff.writerIndex == |head|
        invariant !done ==> buff.capacity == AfterTurns(g, size, capacity, |body|, k)
        invariant done ==> buff.buff == head + body && buff.writerIndex == |head + body|
                           && buff.capacity == CapacityAfter(g, size, capacity, |body|)
        invariant !done && k > 0 ==> !RoomIn(g, size, capacity, |body|, 0)
        decreases !done, 2 - k
      {
        if buff.capacity >= |head + body| { PushedInside(g, buff.capacity, |head|, |body|); }
        done := BodyTurn(totalOutputSize);
        k := k + 1;
      }
      num := totalOutputSize;
      sent := buff.buff[..num];
      FrameIsLaidOut(Value());
      assert buff.buff[size..] == Frame(Value());
    }

    /** One turn of the loop: with room behind the writer index, the body is serialized into a buffer of its
        own and appended, and the loop is left. Otherwise only the capacity grows. */
    method BodyTurn(totalOutputSize: nat) returns (done: bool)
      requires buff.Valid() && Writable(message)
      modifies buff
      ensures buff.Valid() && done == old(buff.HasWritePtr(|MessageBytes(message)|))
      ensures done ==> buff.Grew(MessageBytes(message))
      ensures done ==> buff.writerIndex == old(buff.writerIndex) + |MessageBytes(message)|
      ensures !done ==> buff.buff == old(buff.buff) && buff.writerIndex == old(buff.writerIndex)
                        && buff.capacity == Reserved(buff.growth, old(buff.capacity), totalOutputSize + 1)
    {
      hide MessageBytes, Writable, Pushed;
      var serializedSize := MessageByteSize(message);
      if !buff.HasWritePtr(serializedSize) {
        buff.Resize(totalOutputSize);
        return false;
      }
      var buf := new byte[serializedSize];
      var ok := SerializeToArray(message, buf);
      buff.WriteBytes(buf[..], serializedSize);
      return true;
    }

    static lemma AtLoopIs(g: Growth, size: nat, capacity: nat, n: nat)
      requires size <= capacity
      ensures var total := FRAME_HEAD_LEN + n;
        var reserved := if size < total then Reserved(g, capacity, total + 1) else capacity;
        AtLoop(g, size, capacity, n) == Pushed(g, reserved, size, FRAME_HEAD_LEN)
    {
    }

    /** The length and the packet header. */
    method WriteHeader(serializedSize: nat)
      requires buff.Valid() && PACKET_HEAD_LEN + serializedSize < TWO_31
      modifies buff
      ensures buff.Grew(Head(opaqueId, cmdType, version, extension, serializedSize))
      ensures buff.writerIndex == old(buff.writerIndex) + FRAME_HEAD_LEN
    {
      hide Be16, Be32, Be64, Pushed;
      ghost var g, size, capacity := buff.growth, |buff.buff|, buff.capacity;
      buff.WriteInt(PACKET_HEAD_LEN + serializedSize);
      buff.WriteInt(opaqueId);
      PushedTwice(g, capacity, size, 4, 4);
      buff.WriteByte(cmdType);
      PushedTwice(g, capacity, size, 8, 1);
      buff.WriteShort(version);
      PushedTwice(g, capacity, size, 9, 2);
      buff.WriteLong(extension);
      PushedTwice(g, capacity, size, 11, 8);
      buff.WriteInt(serializedSize);
      PushedTwice(g, capacity, size, 19, 4);
    }

    static lemma FrameIs(p: Packet)
      ensures var body := MessageBytes(p.message);
        Frame(p) == Head(p.opaqueId, p.cmdType, p.version, p.extension, |body|) + body
            && |Frame(p)| == FRAME_HEAD_LEN + |body|
    {
      hide Be16, Be32, Be64, MessageBytes;
    }

    /** `KitePacket::parseFrom`: pkg is changed only if there is a packet. */
    static method ParseFrom(pkg: KitePacket, buf: bytes, pkglen: nat, over: shift) returns (ok: bool)
      requires pkglen <= |buf| && Readable(buf[..pkglen]) && Plausible(over)
      modifies pkg`opaqueId, pkg`cmdType, pkg`version, pkg`extension, pkg`message
      ensures ok == ParsePacket(buf[..pkglen], over).Some?
      ensures pkg.Value() == if ok then ParsePacket(buf[..pkglen], over).value else old(pkg.Value())
    {
      hide ReadLong, ReadInt, ReadShort, ParseBody, Plausible;
      Prefixes(buf, pkglen, over);
      var opaqueId, cmdType, version := ReadInt(buf), buf[4], ReadShort(buf[5..]);
      var extension := ReadLong(buf[7..], over);
      var bodyLength := ReadInt(buf[15..]);
      if pkglen - PACKET_HEAD_LEN < bodyLength { return false; }
      if !Known(cmdType) { return false; }
      var msg := ParseFromArray(cmdType, buf[PACKET_HEAD_LEN..PACKET_HEAD_LEN + bodyLength]);
      pkg.opaqueId, pkg.cmdType, pkg.version := opaqueId, cmdType, version;
      pkg.extension, pkg.message := extension, msg;
      return true;
    }

    /** The fields of the header lie inside the frame. */
    static lemma Prefixes(buf: bytes, pkglen: nat, over: shift)
      requires pkglen <= |buf| && Readable(buf[..pkglen]) && Plausible(over)
      ensures ReadInt(buf) == ReadInt(buf[..pkglen]) && buf[4] == buf[..pkglen][4]
      ensures ReadShort(buf[5..]) == ReadShort(buf[..pkglen][5..])
      ensures ReadLong(buf[7..], over) == ReadLong(buf[..pkglen][7..], over) < TWO_32
      ensures ReadInt(buf[15..]) == BodyLength(buf[..pkglen])
      ensures var n := BodyLength(buf[..pkglen]);
        0 <= n <= pkglen - PACKET_HEAD_LEN ==>
          buf[PACKET_HEAD_LEN..PACKET_HEAD_LEN + n] == buf[..pkglen][PACKET_HEAD_LEN..PACKET_HEAD_LEN + n]
    {
      hide OrOctets;
      LongIsShort(buf[7..], over);
    }
  }
}
