/** The frame reader of remoting/inc/asioSession.hpp: a state machine over the bytes that arrive. */
module Framing {
  import opened CText
  import opened Varint
  import opened Bits
  import opened ByteBuf
  import opened KitePacket
  import Wire

  // ---- the length in front of a frame ----

  /** `pkglen[0]<<24 | pkglen[1]<<16 | pkglen[2]<<8 | pkglen[3]` when `char` has no sign. */
  function FrameLength(s: bytes): int32
    requires |s| >= 4
  {
    ReadInt(s)
  }

  /** A `char` with a sign, promoted to `int` and shifted left by k bits, as a word. */
  function SignedShift(c: byte, k: nat): nat {
    var promoted := if c >= 128 then c + (TWO_32 - 256) else c;
    promoted * Pow2(k) % TWO_32
  }

  /** The same expression when `char` has a sign. */
  function SignedFrameLength(s: bytes): int
    requires |s| >= 4
  {
    var u := Or(Or(Or(SignedShift(s[0], 24), SignedShift(s[1], 16)), SignedShift(s[2], 8)), SignedShift(s[3], 0));
    if u >= TWO_31 then u - TWO_32 else u
  }

  /** With a signed `char`, the length of an in-bound frame is read correctly exactly when its lowest octet
      is below 128. */
  lemma SignedLengthIsRight(len: nat, rest: bytes)
    requires len < MAX_PACKET_BYTES
    ensures SignedFrameLength(Be32(len) + rest) == len <==> len % 256 < 128
  {
    hide Or, Pow2;
    var s := Be32(len) + rest;
    assert s[0] == 0 && s[1] == 0 && s[2] == len / 256 < 128 && s[3] == len % 256;
    Powers();
    WordPower();
    Shifts();
    var hi, lo := SignedShift(s[2], 8), SignedShift(s[3], 0);
    assert hi == (s[2] as int) * 256;
    OrZero(0);
    OrZero(hi);
    assert SignedFrameLength(s) == (var u := Or(hi, lo); if u >= TWO_31 then u - TWO_32 else u);
    OrIsSum(8, s[2], s[3]);
    OrBounds(32, hi, lo);
    if s[3] >= 128 { assert lo >= TWO_31; } else { assert lo == s[3]; }
  }

  lemma Shifts()
    ensures Pow2(0) == 1 && SignedShift(0, 24) == 0 && SignedShift(0, 16) == 0
  {
  }

  lemma OrZero(x: nat)
    ensures Or(0, x) == x && Or(x, 0) == x
  {
  }

  // ---- what a stream of frames delivers ----

  /** Whether a whole frame stands at the front of the bytes. */
  predicate HasFrame(s: bytes) {
    |s| >= 4 && 0 <= FrameLength(s) <= |s| - 4
  }

  /** The frame at the front without its length, and what stands behind it. */
  function FrameAt(s: bytes): bytes
    requires HasFrame(s)
  {
    s[4..4 + FrameLength(s)]
  }

  function Behind(s: bytes): bytes
    requires HasFrame(s)
  {
    s[4 + FrameLength(s)..]
  }

  /** Every length that is or will be read is in bound, and every frame is at least a packet header. */
  predicate WellFramed(s: bytes)
    decreases |s|
  {
    |s| < 4 ||
    (PACKET_HEAD_LEN <= FrameLength(s) < MAX_PACKET_BYTES
     && (HasFrame(s) ==> Readable(FrameAt(s)) && WellFramed(Behind(s))))
  }

  /** The packets that the frames in s stand for, in order; a frame that `parseFrom` rejects is skipped. */
  function Delivered(s: bytes, over: shift): seq<Packet>
    requires WellFramed(s) && Plausible(over)
    decreases |s|
  {
    if !HasFrame(s) then []
    else
      match ParsePacket(FrameAt(s), over)
      case None => Delivered(Behind(s), over)
      case Some(p) => [p] + Delivered(Behind(s), over)
  }

  /** The bytes of an unfinished frame at the end. */
  function Unfinished(s: bytes): bytes
    requires WellFramed(s)
    decreases |s|
  {
    if HasFrame(s) then Unfinished(Behind(s)) else s
  }

  /** Reading in pieces: what arrives later continues the unfinished frame. */
  lemma {:induction false} Continue(s: bytes, t: bytes, over: shift)
    requires WellFramed(s) && WellFramed(s + t) && Plausible(over)
    ensures WellFramed(Unfinished(s) + t)
    ensures Delivered(s + t, over) == Delivered(s, over) + Delivered(Unfinished(s) + t, over)
    ensures Unfinished(s + t) == Unfinished(Unfinished(s) + t)
    decreases |s|
  {
    hide ParsePacket, Readable, ReadInt, Plausible;
    if HasFrame(s) {
      FrameOfPrefix(s, t);
      Continue(Behind(s), t, over);
    }
  }

  lemma FrameOfPrefix(s: bytes, t: bytes)
    requires HasFrame(s)
    ensures HasFrame(s + t) && FrameAt(s + t) == FrameAt(s) && Behind(s + t) == Behind(s) + t
  {
    hide OrOctets;
    assert (s + t)[0] == s[0] && (s + t)[1] == s[1] && (s + t)[2] == s[2] && (s + t)[3] == s[3];
  }

  // ---- sent packets ----

  /** What stands in the stream: a packet that was sent, or a frame that `parseFrom` rejects. */
  datatype Item = Sent(p: Packet) | Rejected(data: bytes)

  predicate Sendable(i: Item, over: shift)
    requires Plausible(over)
  {
    match i
    case Sent(p) =>
      Fits(p.cmdType, p.message) && 0 <= p.extension < TWO_32
          && PACKET_HEAD_LEN + |MessageBytes(p.message)| < MAX_PACKET_BYTES
    case Rejected(data) =>
      |data| < MAX_PACKET_BYTES && Readable(data) && ParsePacket(data, over).None?
  }

  function ItemBytes(i: Item): bytes {
    match i
    case Sent(p) => Frame(p)
    case Rejected(data) => Be32(|data|) + data
  }

  function Stream(items: seq<Item>): bytes {
    if items == [] then [] else ItemBytes(items[0]) + Stream(items[1..])
  }

  function Packets(items: seq<Item>): seq<Packet> {
    if items == [] then []
    else (match items[0] case Sent(p) => [p] case Rejected(_) => []) + Packets(items[1..])
  }

  /** The frame of an item, with what `parseFrom` makes of it. */
  lemma ItemIsFrame(i: Item, rest: bytes, over: shift)
    requires Plausible(over) && Sendable(i, over)
    ensures var s := ItemBytes(i) + rest;
      && HasFrame(s) && Behind(s) == rest && PACKET_HEAD_LEN <= FrameLength(s) < MAX_PACKET_BYTES
      && Readable(FrameAt(s))
      && ParsePacket(FrameAt(s), over) == match i case Sent(p) => Wire.Some(p) case Rejected(_) => Wire.None
  {
    hide ParsePacket, Readable, FrameLength, Plausible, Be32, MessageBytes, Content, Fits, HasFrame, FrameAt, Behind;
    var data := match i case Sent(p) => Content(p) case Rejected(d) => d;
    if i.Sent? {
      ParseContent(i.p, over);
      FieldsOf(i.p);
    }
    ReadableIsLong(data);
    FramedBytes(data, rest);
  }

  lemma ReadableIsLong(data: bytes)
    requires Readable(data)
    ensures |data| >= PACKET_HEAD_LEN
  {
  }

  lemma FramedBytes(data: bytes, rest: bytes)
    requires |data| < TWO_31
    ensures var s := Be32(|data|) + data + rest;
      HasFrame(s) && FrameLength(s) == |data| && FrameAt(s) == data && Behind(s) == rest
  {
    hide Be32, ReadInt;
    var s := Be32(|data|) + data + rest;
    assert s == Be32(|data|) + (data + rest);
    IntRoundTrip(|data|, data + rest);
  }

  /** Frames sent back to back come out as the same packets in the same order, without those that
      `parseFrom` rejects, and nothing is left over. */
  lemma {:induction false} SentIsDelivered(items: seq<Item>, over: shift)
    requires Plausible(over) && forall i | i in items :: Sendable(i, over)
    ensures WellFramed(Stream(items)) && Delivered(Stream(items), over) == Packets(items)
      && Unfinished(Stream(items)) == []
  {
    hide ParsePacket, Plausible, Sendable, ItemBytes, FrameAt, Behind, HasFrame, FrameLength, Readable, Frame;
    hide WellFramed, Delivered, Unfinished;
    if items == [] {
      EmptyStream(over);
    } else {
      SentIsDelivered(items[1..], over);
      ItemIsFrame(items[0], Stream(items[1..]), over);
      FrameIsLong(Stream(items));
      Unroll(Stream(items), over);
    }
  }

  /** One turn of the functions on streams. */
  lemma Unroll(s: bytes, over: shift)
    requires HasFrame(s) && |s| >= 4 && PACKET_HEAD_LEN <= FrameLength(s) < MAX_PACKET_BYTES && Plausible(over)
    requires Readable(FrameAt(s)) && WellFramed(Behind(s))
    ensures WellFramed(s) && Unfinished(s) == Unfinished(Behind(s))
    ensures Delivered(s, over) ==
      (match ParsePacket(FrameAt(s), over) case None => [] case Some(p) => [p]) + Delivered(Behind(s), over)
  {
    hide ParsePacket, Plausible, Readable, FrameLength;
  }

  lemma EmptyStream(over: shift)
    requires Plausible(over)
    ensures WellFramed([]) && Delivered([], over) == [] && Unfinished([]) == []
  {
  }

  lemma FrameIsLong(s: bytes)
    ensures HasFrame(s) ==> |s| >= 4
  {
  }

  // ---- the reader ----

  class AsioSession {
    /** The bytes that have arrived and were not read yet. */
    var socket: bytes
    var pkglen: bytes
    var readBuffer: bytes
    /** Whether the length was read, and the frame is awaited. */
    var awaitsData: bool
    const pkg: KitePacket
    /** The packets that the handler was called with. */
    var handled: seq<Packet>
    const over: shift

    constructor (pkg: KitePacket, over: shift)
      ensures Valid() && Pending() == [] && handled == [] && this.pkg == pkg && this.over == over
    {
      this.pkg, this.over := pkg, over;
      socket, pkglen, readBuffer, awaitsData, handled := [], [0, 0, 0, 0], [], false, [];
    }

    /** Between two callbacks the buffer is empty. */
    ghost predicate Valid()
      reads this
    {
      |pkglen| == 4 && readBuffer == []
    }

    /** The bytes from the start of the frame that is being read. */
    ghost function Pending(): bytes
      reads this
    {
      (if awaitsData then pkglen else []) + socket
    }

    /** `async_read` of the length completes when four bytes have arrived; `async_read_pkglen` then asks
        for the frame. */
    method LengthArrives()
      requires Valid() && !awaitsData && |socket| >= 4
      modifies this`socket, this`pkglen, this`awaitsData
      ensures Valid() && awaitsData && Pending() == old(Pending())
    {
      pkglen, socket := socket[..4], socket[4..];
      awaitsData := true;
    }

    /** `async_read` of the frame completes when all its bytes have arrived: `async_read_pkgdata`. The
        handler reads on, as `handle_read_pkg` does, and so does the reader after a rejected frame. A frame
        that is too long makes the handler see the packet before, and stays in the buffer. */
    method DataArrives()
      requires Valid() && awaitsData && HasFrame(Pending()) && Readable(FrameAt(Pending())) && Plausible(over)
      modifies this`socket, this`readBuffer, this`awaitsData, this`handled
      modifies pkg`opaqueId, pkg`cmdType, pkg`version, pkg`extension, pkg`message
      ensures !awaitsData && Pending() == Behind(old(Pending()))
      ensures FrameLength(old(Pending())) >= MAX_PACKET_BYTES ==>
                handled == old(handled) + [old(pkg.Value())] && readBuffer == FrameAt(old(Pending()))
      ensures FrameLength(old(Pending())) < MAX_PACKET_BYTES ==>
                && Valid()
                && handled == old(handled) +
                     match ParsePacket(FrameAt(old(Pending())), over) case None => [] case Some(p) => [p]
    {
      hide ParsePacket, Readable, ReadInt, Plausible;
      LengthIs(pkglen, socket);
      var len := FrameLength(pkglen);
      var bytesRead := len;
      readBuffer := readBuffer + socket[..bytesRead];
      socket := socket[bytesRead..];
      assert readBuffer == FrameAt(old(Pending())) && readBuffer[..len] == readBuffer;
      awaitsData := false;
      if len >= MAX_PACKET_BYTES {
        handled := handled + [pkg.Value()];
        return;
      }
      var b := KitePacket.ParseFrom(pkg, readBuffer, len, over);
      if b {
        handled := handled + [pkg.Value()];
        readBuffer := readBuffer[len..];
      } else {
        readBuffer := readBuffer[bytesRead..];
      }
    }

    static lemma LengthIs(len: bytes, s: bytes)
      requires |len| == 4
      ensures FrameLength(len + s) == FrameLength(len)
    {
      hide OrOctets;
    }

    /** Bytes arrive, and every callback that they enable runs: the handler gets the packets of exactly the
        frames that are complete now, however the stream is cut into pieces. */
    method Receive(chunk: bytes)
      requires Valid() && WellFramed(Pending() + chunk) && Plausible(over)
      modifies this`socket, this`pkglen, this`readBuffer, this`awaitsData, this`handled
      modifies pkg`opaqueId, pkg`cmdType, pkg`version, pkg`extension, pkg`message
      ensures Valid() && handled == old(handled) + Delivered(old(Pending()) + chunk, over)
      ensures Pending() == Unfinished(old(Pending()) + chunk) && WellFramed(Pending())
    {
      hide ParsePacket, Readable, ReadInt, Plausible;
      ghost var stream := Pending() + chunk;
      socket := socket + chunk;
      assert Pending() == stream;
      while HasFrame((if awaitsData then pkglen else []) + socket)
        invariant Valid() && WellFramed(Pending())
        invariant handled + Delivered(Pending(), over) == old(handled) + Delivered(stream, over)
        invariant Unfinished(Pending()) == Unfinished(stream)
        decreases |Pending()|
      {
        if !awaitsData { LengthArrives(); }
        DataArrives();
      }
      if !awaitsData && |socket| >= 4 { LengthArrives(); }
    }
  }

  /** A packet written by `toByteBuf` on its own object. */
  method Send(p: Packet, growth: Growth) returns (sent: bytes)
    requires Fits(p.cmdType, p.message) && FRAME_HEAD_LEN + |MessageBytes(p.message)| < TWO_31
    ensures sent == Frame(p)
  {
    hide Frame, Fits, Writable, MessageBytes, RoomIn, AfterTurns, CapacityAfter, Pushed;
    FitsIsWritable(p.cmdType, p.message);
    FirstWriteLeaves(growth, |MessageBytes(p.message)|);
    var packet := new KitePacket(p, growth);
    var num;
    num, sent := packet.ToByteBuf();
  }

  /** The frames of packets that are written by `toByteBuf`, each on its own object. */
  method SendAll(packets: seq<Packet>, growth: Growth, ghost over: shift) returns (wire: bytes, ghost items: seq<Item>)
    requires Plausible(over) && forall p | p in packets :: Sendable(Sent(p), over)
    ensures wire == Stream(items) && Packets(items) == packets && forall x | x in items :: Sendable(x, over)
  {
    hide Frame, Plausible, Fits, MessageBytes;
    wire, items := [], [];
    var i := |packets|;
    while i > 0
      invariant 0 <= i <= |packets| && wire == Stream(items) && Packets(items) == packets[i..]
      invariant forall x | x in items :: Sendable(x, over)
    {
      i := i - 1;
      assert packets[i] in packets && Sendable(Sent(packets[i]), over);
      var sent := Send(packets[i], growth);
      ghost var more := [Sent(packets[i])] + items;
      assert more[1..] == items && packets[i..] == [packets[i]] + packets[i + 1..];
      wire := sent + wire;
      items := more;
    }
  }

  /** Packets that are written and received in one piece: the handler gets the same packets in the same
      order, and the buffer is empty again. */
  method Exchange(session: AsioSession, packets: seq<Packet>, growth: Growth)
    requires session.Valid() && session.Pending() == [] && Plausible(session.over)
    requires forall p | p in packets :: Sendable(Sent(p), session.over)
    modifies session`socket, session`pkglen, session`readBuffer, session`awaitsData, session`handled
    modifies session.pkg`opaqueId, session.pkg`cmdType, session.pkg`version, session.pkg`extension, session.pkg`message
    ensures session.Valid() && session.Pending() == [] && session.handled == old(session.handled) + packets
  {
    hide WellFramed, Delivered, Unfinished, Sendable, Stream, Packets, Plausible;
    var wire; ghost var items;
    wire, items := SendAll(packets, growth, session.over);
    SentIsDelivered(items, session.over);
    assert [] + wire == wire;
    session.Receive(wire);
  }
}
