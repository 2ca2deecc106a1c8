/** The generated parsers of kite_remoting.pb.cc: `ExpectTag` and `goto` chains over fields that are
    updated in place, which agree with the plain loop on every byte string. */
module HeaderChain {
  import opened CText
  import opened Varint
  import opened Wire
  import opened Messages

  // ---- the input stream ----

  /** `ReadTagWithCutoff`: the tag and the bytes it takes; 0 at the end or when there is no tag. */
  datatype Tag = Tag(tag: nat, n: nat)

  function ReadTag(s: bytes): (t: Tag)
    ensures t.n <= |s| && (t.tag != 0 ==> t.n > 0)
  {
    match Decode(s) case NoVarint => Tag(0, 0) case Varint(v, n) => Tag(v % TWO_32, n)
  }

  /** `ExpectTag` for a tag of one byte. */
  predicate ExpectTag(s: bytes, pos: nat, tag: byte) {
    pos < |s| && s[pos] == tag
  }

  /** How `MergePartialFromCodedStream` ends: true at the end of the bytes, true before it, or false. */
  datatype Ending = AtEnd | Early | Failure

  ghost predicate Agrees<M>(e: Ending, m: M, spec: Outcome<M>) {
    match spec
    case Done(x) => e == AtEnd && m == x
    case Stopped(x) => e == Early && m == x
    case Failed => e == Failure
  }

  /** What the plain loop does behind a tag. */
  function After<M>(tag: nat, s: bytes, m: M, apply: (M, Record) -> Option<M>): Outcome<M> {
    match ReadPayload(s, tag)
    case NoBody => Failed
    case Body(p, n) => match apply(m, Record(tag, p)) case None => Failed case Some(next) => Parse(s[n..], next, apply)
  }

  /** The plain loop, seen from a tag. */
  lemma ParseIs<M>(s: bytes, m: M, apply: (M, Record) -> Option<M>)
    ensures var t := ReadTag(s);
      Parse(s, m, apply) ==
        if s == [] then Done(m)
        else if t.tag == 0 || WireType(t.tag) == END_GROUP then Stopped(m)
        else After(t.tag, s[t.n..], m, apply)
  {
    hide ReadPayload, Decode;
    var t := ReadTag(s);
    if s != [] && t.tag != 0 && WireType(t.tag) != END_GROUP {
      var b := ReadPayload(s[t.n..], t.tag);
      if b.Body? { assert s[t.n + b.n..] == s[t.n..][b.n..]; }
    }
  }

  /** A tag of one byte that is expected is the tag that would be read. */
  lemma Expected<M>(s: bytes, pos: nat, tag: byte, m: M, apply: (M, Record) -> Option<M>)
    requires ExpectTag(s, pos, tag) && 0 < tag < 128 && WireType(tag) != END_GROUP
    ensures Parse(s[pos..], m, apply) == After(tag, s[pos + 1..], m, apply)
  {
    hide Parse, After;
    ParseIs(s[pos..], m, apply);
    assert s[pos..][0] == tag && s[pos..][1..] == s[pos + 1..];
  }

  /** The payload of a tag with wire type 0 or 2. */
  lemma PayloadIs(tag: nat, s: bytes)
    ensures WireType(tag) == 2 ==> ReadPayload(s, tag) == ReadText(s)
    ensures WireType(tag) == 0 ==>
              ReadPayload(s, tag) == match Decode(s) case NoVarint => NoBody case Varint(v, n) => Body(Number(v), n)
  {
  }

  // ---- Entry ----

  /** The places that `goto` and `ExpectTag` jump to in `Entry::MergePartialFromCodedStream`. */
  datatype EntryLabel = TopOfEntry | ParseKey | ParseValue | EndOfEntry(e: Ending)

  /** What is still to come at a place. */
  function EntryRest(l: EntryLabel, s: bytes, m: Entry): Outcome<Entry> {
    match l
    case TopOfEntry => ParseEntry(s, m)
    case ParseKey => After(10, s, m, ApplyEntry)
    case ParseValue => After(18, s, m, ApplyEntry)
    case EndOfEntry(AtEnd) => Done(m)
    case EndOfEntry(Early) => Stopped(m)
    case EndOfEntry(Failure) => Failed
  }

  /** `ReadTagWithCutoff(127)`, the `switch`, and `handle_unusual`. */
  method EntryTopTurn(s: bytes, pos: nat, m: Entry) returns (next: EntryLabel, end: nat, r: Entry)
    requires pos <= |s|
    ensures pos <= end <= |s| && (end > pos || next.EndOfEntry?)
    ensures EntryRest(next, s[end..], r) == ParseEntry(s[pos..], m)
  {
    hide Parse, ReadPayload, Decode, After;
    end, r := pos, m;
    ParseIs(s[pos..], m, ApplyEntry);
    var t := ReadTag(s[pos..]);
    end := pos + t.n;
    assert s[pos..][t.n..] == s[end..];
    if t.tag == 10 { next := ParseKey; }
    else if t.tag == 18 { next := ParseValue; }
    else if t.tag == 0 || WireType(t.tag) == END_GROUP { next := EndOfEntry(if pos == |s| then AtEnd else Early); }
    else {
      AfterIs(t.tag, s, end, m, ApplyEntry);
      var b := ReadPayload(s[end..], t.tag);
      if b.NoBody? { return EndOfEntry(Failure), end, r; }
      r := r.(unknown := r.unknown + [Record(t.tag, b.payload)]);
      end := end + b.n;
      next := TopOfEntry;
    }
  }

  /** The code behind a label. */
  method EntryFieldTurn(l: EntryLabel, s: bytes, pos: nat, m: Entry) returns (next: EntryLabel, end: nat, r: Entry)
    requires pos <= |s| && l in {ParseKey, ParseValue}
    ensures pos <= end <= |s| && (end > pos || next.EndOfEntry?)
    ensures EntryRest(next, s[end..], r) == EntryRest(l, s[pos..], m)
  {
    hide Parse, ReadPayload, Decode, After, ReadText;
    end, r, next := pos, m, TopOfEntry;
    var tag := if l == ParseKey then 10 else 18;
    PayloadIs(tag, s[pos..]);
    TextTakesBytes(s[pos..]);
    AfterIs(tag, s, pos, m, ApplyEntry);
    var b := ReadText(s[pos..]);
    if b.NoBody? { return EndOfEntry(Failure), end, r; }
    end := pos + b.n;
    if l == ParseKey {
      r := r.(key := Some(b.payload.t));
      if ExpectTag(s, end, 18) { Expected(s, end, 18, r, ApplyEntry); next, end := ParseValue, end + 1; }
    } else {
      r := r.(value := Some(b.payload.t));
      if end == |s| { EmptyIsDone(s[end..], r, ApplyEntry); next := EndOfEntry(AtEnd); }
    }
  }

  /** After, in terms of positions. */
  lemma AfterIs<M>(tag: nat, s: bytes, pos: nat, m: M, apply: (M, Record) -> Option<M>)
    requires pos <= |s|
    ensures var b := ReadPayload(s[pos..], tag);
      After(tag, s[pos..], m, apply) ==
        if b.NoBody? then Failed
        else match apply(m, Record(tag, b.payload))
             case None => Failed
             case Some(next) => Parse(s[pos + b.n..], next, apply)
  {
    hide ReadPayload, Parse;
    var b := ReadPayload(s[pos..], tag);
    if b.Body? { assert s[pos..][b.n..] == s[pos + b.n..]; }
  }

  lemma TextTakesBytes(s: bytes)
    ensures ReadText(s).Body? ==> 0 < ReadText(s).n <= |s|
  {
  }

  lemma EmptyIsDone<M>(s: bytes, m: M, apply: (M, Record) -> Option<M>)
    requires s == []
    ensures Parse(s, m, apply) == Done(m)
  {
  }

  /** `Entry::MergePartialFromCodedStream`. */
  method MergePartialEntry(s: bytes, m: Entry) returns (e: Ending, r: Entry)
    ensures Agrees(e, r, ParseEntry(s, m))
  {
    hide ParseEntry, Parse, After, ReadPayload, ReadText;
    var place, pos := TopOfEntry, 0;
    r := m;
    assert s[0..] == s;
    while !place.EndOfEntry?
      invariant pos <= |s| && EntryRest(place, s[pos..], r) == ParseEntry(s, m)
      decreases |s| - pos, if place.EndOfEntry? then 0 else 1
    {
      if place == TopOfEntry { place, pos, r := EntryTopTurn(s, pos, r); }
      else { place, pos, r := EntryFieldTurn(place, s, pos, r); }
    }
    e := place.e;
  }
}
