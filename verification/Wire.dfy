/** The message structure of the Protocol Buffers encoding: records, and the loop that reads them. */
module Wire {
  import opened CText
  import opened Varint

  datatype Option<+T> = None | Some(value: T)

  /** What stands behind a tag, by wire type 0, 1, 2, 3 and 5. */
  datatype Payload = Number(v: uint64) | Fixed64(b: bytes) | Text(t: bytes) | Group(fields: seq<Record>)
      | Fixed32(b: bytes)

  datatype Record = Record(tag: nat, payload: Payload)

  const END_GROUP: nat := 4

  function WireType(tag: nat): nat { tag % 8 }

  function Field(tag: nat): nat { tag / 8 }

  /** The payload fits its tag, and all its parts are in range. */
  predicate Canonical(r: Record)
    decreases r, 1
  {
    && 0 < r.tag < TWO_32
    && match r.payload
       case Number(_) => WireType(r.tag) == 0
       case Fixed64(b) => WireType(r.tag) == 1 && |b| == 8
       case Text(t) => WireType(r.tag) == 2 && |t| < TWO_31
       case Group(fs) => WireType(r.tag) == 3 && CanonicalAll(fs)
       case Fixed32(b) => WireType(r.tag) == 5 && |b| == 4
  }

  predicate CanonicalAll(rs: seq<Record>)
    decreases rs, 2
  {
    rs == [] || (Canonical(rs[0]) && CanonicalAll(rs[1..]))
  }

  // ---- writing ----

  function Write(r: Record): (e: bytes)
    ensures |e| > 0
    decreases r, 1
  {
    Encode(r.tag) + WritePayload(r)
  }

  function WritePayload(r: Record): (e: bytes)
    decreases r, 0
  {
    match r.payload
    case Number(v) => Encode(v)
    case Fixed64(b) => b
    case Text(t) => Encode(|t|) + t
    case Group(fs) => WriteAll(fs) + Encode(r.tag + 1)
    case Fixed32(b) => b
  }

  function WriteAll(rs: seq<Record>): (e: bytes)
    decreases rs, 2
  {
    if rs == [] then [] else Write(rs[0]) + WriteAll(rs[1..])
  }

  // ---- reading ----

  /** The outcome of reading one record: the bytes are used up; the message stops here (tag 0, the end of
      a group, or no tag); the record is malformed; or a record and how many bytes it takes. */
  datatype Reading = End | Stop | Bad | Got(r: Record, n: nat)

  datatype Body = NoBody | Body(payload: Payload, n: nat)

  datatype Fields = NoFields | Fields(rs: seq<Record>, n: nat)

  function ReadRecord(s: bytes): (g: Reading)
    ensures g.Got? ==> 0 < g.n <= |s|
    ensures g.End? <==> s == []
    decreases |s|, 1
  {
    if s == [] then End
    else
      match Decode(s)
      case NoVarint => Stop
      case Varint(v, n) =>
        var tag := v % TWO_32;
        if tag == 0 || WireType(tag) == END_GROUP then Stop
        else
          match ReadPayload(s[n..], tag)
          case NoBody => Bad
          case Body(p, m) => Got(Record(tag, p), n + m)
  }

  function ReadPayload(s: bytes, tag: nat): (b: Body)
    ensures b.Body? ==> b.n <= |s|
    decreases |s|, 3
  {
    if WireType(tag) == 0 then
      match Decode(s) case NoVarint => NoBody case Varint(v, n) => Body(Number(v), n)
    else if WireType(tag) == 1 then
      if |s| < 8 then NoBody else Body(Fixed64(s[..8]), 8)
    else if WireType(tag) == 2 then
      ReadText(s)
    else if WireType(tag) == 3 then
      match ReadGroup(s, tag) case NoFields => NoBody case Fields(rs, n) => Body(Group(rs), n)
    else if WireType(tag) == 5 then
      if |s| < 4 then NoBody else Body(Fixed32(s[..4]), 4)
    else NoBody
  }

  /** A length, of which the low 32 bits count as a signed number, and that many bytes. */
  function ReadText(s: bytes): (b: Body)
    ensures b.Body? ==> b.n <= |s| && b.payload.Text? && |b.payload.t| < TWO_31
  {
    match Decode(s)
    case NoVarint => NoBody
    case Varint(v, n) =>
      var len := v % TWO_32;
      if len >= TWO_31 || n + len > |s| then NoBody else Body(Text(s[n..n + len]), n + len)
  }

  /** The records of a group up to the tag that ends it. */
  function ReadGroup(s: bytes, tag: nat): (f: Fields)
    ensures f.Fields? ==> f.n <= |s|
    decreases |s|, 2
  {
    match ReadRecord(s)
    case End => NoFields
    case Bad => NoFields
    case Stop =>
      (match Decode(s)
       case NoVarint => NoFields
       case Varint(v, n) => if v % TWO_32 == tag + 1 then Fields([], n) else NoFields)
    case Got(r, n) =>
      match ReadGroup(s[n..], tag)
      case NoFields => NoFields
      case Fields(rs, m) => Fields([r] + rs, n + m)
  }

  // ---- round trip of records ----

  lemma {:induction false} ReadWrite(r: Record, rest: bytes)
    requires Canonical(r)
    ensures ReadRecord(Write(r) + rest) == Got(r, |Write(r)|)
    decreases r, 1
  {
    hide ReadRecord, ReadPayload, WritePayload, Canonical;
    PayloadWritten(r, rest);
    TagIs(r);
    TagRead(r.tag, WritePayload(r) + rest);
    assert Write(r) + rest == Encode(r.tag) + (WritePayload(r) + rest);
  }

  lemma TagIs(r: Record)
    requires Canonical(r)
    ensures 0 < r.tag < TWO_32 && WireType(r.tag) != END_GROUP
  {
    hide CanonicalAll;
  }

  lemma TagRead(tag: nat, s: bytes)
    requires 0 < tag < TWO_32 && WireType(tag) != END_GROUP
    ensures ReadRecord(Encode(tag) + s) ==
      match ReadPayload(s, tag) case NoBody => Bad case Body(p, m) => Got(Record(tag, p), |Encode(tag)| + m)
  {
    hide ReadPayload, Decode, Encode;
    DecodeEncode(tag, s);
    assert (Encode(tag) + s)[|Encode(tag)|..] == s;
  }

  lemma {:induction false} PayloadWritten(r: Record, rest: bytes)
    requires Canonical(r)
    ensures ReadPayload(WritePayload(r) + rest, r.tag) == Body(r.payload, |WritePayload(r)|)
    decreases r, 0
  {
    hide WriteAll, ReadGroup, Decode, Encode;
    match r.payload {
      case Number(v) => { DecodeEncode(v, rest); }
      case Fixed64(b) => {}
      case Text(t) => {
        assert WritePayload(r) + rest == Encode(|t|) + (t + rest);
        DecodeEncode(|t|, t + rest);
      }
      case Group(fs) => { ReadWriteGroup(fs, r.tag, rest); }
      case Fixed32(b) => {}
    }
  }

  lemma {:induction false} ReadWriteGroup(fs: seq<Record>, tag: nat, rest: bytes)
    requires CanonicalAll(fs) && WireType(tag) == 3 && tag + 1 < TWO_32
    ensures ReadGroup(WriteAll(fs) + Encode(tag + 1) + rest, tag) == Fields(fs, |WriteAll(fs) + Encode(tag + 1)|)
    decreases fs, 2
  {
    hide ReadRecord, Write, Decode, Encode, Canonical;
    if fs == [] {
      GroupEnd(tag, rest);
      assert WriteAll(fs) + Encode(tag + 1) + rest == Encode(tag + 1) + rest;
    } else {
      var more := WriteAll(fs[1..]) + Encode(tag + 1) + rest;
      assert WriteAll(fs) + Encode(tag + 1) + rest == Write(fs[0]) + more;
      ReadWrite(fs[0], more);
      ReadWriteGroup(fs[1..], tag, rest);
      assert (Write(fs[0]) + more)[|Write(fs[0])|..] == more;
      assert fs == [fs[0]] + fs[1..];
    }
  }

  lemma GroupEnd(tag: nat, rest: bytes)
    requires WireType(tag) == 3 && tag + 1 < TWO_32
    ensures ReadGroup(Encode(tag + 1) + rest, tag) == Fields([], |Encode(tag + 1)|)
  {
    hide Encode, Decode;
    DecodeEncode(tag + 1, rest);
  }

  /** Whatever the bytes are, a record that is read is canonical. */
  lemma {:induction false} ReadIsCanonical(s: bytes)
    requires ReadRecord(s).Got?
    ensures Canonical(ReadRecord(s).r)
    decreases |s|, 1
  {
    var n := Decode(s).n;
    var tag := Decode(s).v % TWO_32;
    if WireType(tag) == 3 { GroupIsCanonical(s[n..], tag); }
  }

  lemma {:induction false} GroupIsCanonical(s: bytes, tag: nat)
    requires ReadGroup(s, tag).Fields?
    ensures CanonicalAll(ReadGroup(s, tag).rs)
    decreases |s|, 2
  {
    if ReadRecord(s).Got? {
      ReadIsCanonical(s);
      GroupIsCanonical(s[ReadRecord(s).n..], tag);
    }
  }

  /** A record that is read is written in no more bytes. */
  lemma {:induction false} WriteNoLonger(s: bytes)
    requires ReadRecord(s).Got?
    ensures |Write(ReadRecord(s).r)| <= ReadRecord(s).n
    decreases |s|, 1
  {
    hide Encode, Decode, ReadPayload, WritePayload;
    var tag := Decode(s).v % TWO_32;
    EncodeNoLonger(s, tag);
    PayloadNoLonger(s[Decode(s).n..], tag);
  }

  lemma {:induction false} PayloadNoLonger(s: bytes, tag: nat)
    requires ReadPayload(s, tag).Body?
    ensures |WritePayload(Record(tag, ReadPayload(s, tag).payload))| <= ReadPayload(s, tag).n
    decreases |s|, 3
  {
    hide Encode, Decode, ReadRecord, WriteAll, ReadGroup;
    if WireType(tag) == 0 { EncodeNoLonger(s, Decode(s).v); }
    if WireType(tag) == 2 { EncodeNoLonger(s, Decode(s).v % TWO_32); }
    if WireType(tag) == 3 { GroupNoLonger(s, tag); }
  }

  lemma {:induction false} GroupNoLonger(s: bytes, tag: nat)
    requires ReadGroup(s, tag).Fields?
    ensures |WriteAll(ReadGroup(s, tag).rs)| + |Encode(tag + 1)| <= ReadGroup(s, tag).n
    decreases |s|, 2
  {
    hide Encode, Decode, ReadRecord, Write;
    if ReadRecord(s).Got? {
      WriteNoLonger(s);
      GroupNoLonger(s[ReadRecord(s).n..], tag);
    } else {
      EncodeNoLonger(s, Decode(s).v % TWO_32);
    }
  }

  /** Reading a record does not look past its last byte. */
  lemma {:induction false} ReadLocal(s: bytes, t: bytes)
    requires ReadRecord(s).Got? && ReadRecord(s).n <= |t| && s[..ReadRecord(s).n] == t[..ReadRecord(s).n]
    ensures ReadRecord(t) == ReadRecord(s)
    decreases |s|, 1
  {
    hide Decode, ReadPayload;
    var n, k := ReadRecord(s).n, Decode(s).n;
    SamePrefix(s, t, n, k);
    DecodeLocal(s, t);
    PayloadLocal(s[k..], t[k..], Decode(s).v % TWO_32);
  }

  lemma SamePrefix(s: bytes, t: bytes, n: nat, k: nat)
    requires k <= n <= |s| && n <= |t| && s[..n] == t[..n]
    ensures s[..k] == t[..k] && s[k..][..n - k] == t[k..][..n - k]
  {
    assert s[..k] == s[..n][..k] && s[k..][..n - k] == s[..n][k..];
    assert t[..k] == t[..n][..k] && t[k..][..n - k] == t[..n][k..];
  }

  lemma {:induction false} PayloadLocal(s: bytes, t: bytes, tag: nat)
    requires ReadPayload(s, tag).Body? && ReadPayload(s, tag).n <= |t|
    requires s[..ReadPayload(s, tag).n] == t[..ReadPayload(s, tag).n]
    ensures ReadPayload(t, tag) == ReadPayload(s, tag)
    decreases |s|, 3
  {
    hide Decode, ReadRecord, ReadGroup;
    var n := ReadPayload(s, tag).n;
    if WireType(tag) == 0 { DecodeLocal(s, t); }
    if WireType(tag) == 2 {
      var k := Decode(s).n;
      SamePrefix(s, t, n, k);
      DecodeLocal(s, t);
      assert s[k..n] == s[k..][..n - k] && t[k..n] == t[k..][..n - k];
    }
    if WireType(tag) == 3 { GroupLocal(s, t, tag); }
  }

  lemma {:induction false} GroupLocal(s: bytes, t: bytes, tag: nat)
    requires WireType(tag) == 3 && ReadGroup(s, tag).Fields? && ReadGroup(s, tag).n <= |t|
    requires s[..ReadGroup(s, tag).n] == t[..ReadGroup(s, tag).n]
    ensures ReadGroup(t, tag) == ReadGroup(s, tag)
    decreases |s|, 2
  {
    hide Decode, ReadPayload;
    var n := ReadGroup(s, tag).n;
    if ReadRecord(s).Got? {
      var k := ReadRecord(s).n;
      SamePrefix(s, t, n, k);
      ReadLocal(s, t);
      GroupLocal(s[k..], t[k..], tag);
    } else {
      DecodeLocal(s, t);
    }
  }

  /** The bytes of exactly one record, however its numbers are encoded. */
  predicate IsRecord(p: bytes) { ReadRecord(p).Got? && ReadRecord(p).n == |p| }

  function Join(ps: seq<bytes>): bytes { if ps == [] then [] else ps[0] + Join(ps[1..]) }

  function RecordsOf(ps: seq<bytes>): seq<Record>
    requires forall p | p in ps :: IsRecord(p)
  {
    if ps == [] then []
    else
      assert IsRecord(ps[0]);
      [ReadRecord(ps[0]).r] + RecordsOf(ps[1..])
  }

  // ---- messages ----

  /** How reading a message ends: at the end of its bytes, before it, or with a failure. */
  datatype Outcome<M> = Done(m: M) | Stopped(m: M) | Failed

  /** The plain loop: read a record, apply it to the message. */
  function Parse<M>(s: bytes, m: M, apply: (M, Record) -> Option<M>): Outcome<M>
    decreases |s|
  {
    match ReadRecord(s)
    case End => Done(m)
    case Stop => Stopped(m)
    case Bad => Failed
    case Got(r, n) =>
      match apply(m, r)
      case None => Failed
      case Some(next) => Parse(s[n..], next, apply)
  }

  /** Applying records one after the other. */
  function Fold<M>(rs: seq<Record>, m: M, apply: (M, Record) -> Option<M>): Option<M> {
    if rs == [] then Some(m)
    else
      match apply(m, rs[0])
      case None => None
      case Some(next) => Fold(rs[1..], next, apply)
  }

  /** Reading written records applies them. */
  lemma {:induction false} ParseWritten<M>(rs: seq<Record>, rest: bytes, m: M, apply: (M, Record) -> Option<M>)
    requires CanonicalAll(rs)
    ensures Parse(WriteAll(rs) + rest, m, apply) ==
      match Fold(rs, m, apply) case None => Failed case Some(next) => Parse(rest, next, apply)
  {
    if rs == [] {
      assert WriteAll(rs) + rest == rest;
    } else {
      var more := WriteAll(rs[1..]) + rest;
      assert WriteAll(rs) + rest == Write(rs[0]) + more;
      ReadWrite(rs[0], more);
      assert (Write(rs[0]) + more)[|Write(rs[0])|..] == more;
      if apply(m, rs[0]).Some? { ParseWritten(rs[1..], rest, apply(m, rs[0]).value, apply); }
    }
  }

  /** Reading the bytes of records applies them. */
  lemma {:induction false} ParseRecords<M>(ps: seq<bytes>, m: M, apply: (M, Record) -> Option<M>)
    requires forall p | p in ps :: IsRecord(p)
    ensures Parse(Join(ps), m, apply) == match Fold(RecordsOf(ps), m, apply) case None => Failed case Some(x) => Done(x)
  {
    hide ReadRecord;
    if ps != [] {
      var p, more := ps[0], Join(ps[1..]);
      assert p in ps && IsRecord(p);
      assert (p + more)[..|p|] == p == p[..|p|] && (p + more)[|p|..] == more;
      ReadLocal(p, p + more);
      var r, rs := ReadRecord(p).r, RecordsOf(ps[1..]);
      assert RecordsOf(ps) == [r] + rs && ([r] + rs)[1..] == rs;
      if apply(m, r).Some? { ParseRecords(ps[1..], apply(m, r).value, apply); }
    }
  }

  lemma {:induction false} FoldConcat<M>(a: seq<Record>, b: seq<Record>, m: M, apply: (M, Record) -> Option<M>)
    ensures Fold(a + b, m, apply) == match Fold(a, m, apply) case None => None case Some(next) => Fold(b, next, apply)
  {
    if a == [] {
      assert a + b == b;
    } else {
      assert (a + b)[1..] == a[1..] + b;
      if apply(m, a[0]).Some? { FoldConcat(a[1..], b, apply(m, a[0]).value, apply); }
    }
  }

  /** What every applied record keeps holds of the result. */
  lemma {:induction false} ParseKeeps<M(!new)>(s: bytes, m: M, apply: (M, Record) -> Option<M>, inv: M -> bool)
    requires inv(m)
    requires forall x: M, r: Record :: inv(x) && Canonical(r) && apply(x, r).Some? ==> inv(apply(x, r).value)
    ensures Parse(s, m, apply).Done? ==> inv(Parse(s, m, apply).m)
    decreases |s|
  {
    if ReadRecord(s).Got? {
      var r := ReadRecord(s).r;
      ReadIsCanonical(s);
      if apply(m, r).Some? { ParseKeeps(s[ReadRecord(s).n..], apply(m, r).value, apply, inv); }
    }
  }

  /** What grows by no more than each record takes grows by no more than all the bytes that are read. */
  lemma {:induction false} ParseGrows<M(!new)>(s: bytes, m: M, apply: (M, Record) -> Option<M>, size: M -> nat)
    requires forall x: M, r: Record ::
      Canonical(r) && apply(x, r).Some? ==> size(apply(x, r).value) <= size(x) + |Write(r)|
    ensures Parse(s, m, apply).Done? ==> size(Parse(s, m, apply).m) <= size(m) + |s|
    decreases |s|
  {
    hide ReadRecord, Write, Canonical;
    if ReadRecord(s).Got? {
      var r := ReadRecord(s).r;
      ReadIsCanonical(s);
      WriteNoLonger(s);
      if apply(m, r).Some? { ParseGrows(s[ReadRecord(s).n..], apply(m, r).value, apply, size); }
    }
  }

  lemma {:induction false} WriteConcat(a: seq<Record>, b: seq<Record>)
    ensures WriteAll(a + b) == WriteAll(a) + WriteAll(b)
    ensures CanonicalAll(a + b) <==> CanonicalAll(a) && CanonicalAll(b)
  {
    if a == [] {
      assert a + b == b;
    } else {
      assert (a + b)[1..] == a[1..] + b;
      WriteConcat(a[1..], b);
    }
  }
}
