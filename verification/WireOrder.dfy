/** What the order of records means: only records of the same field depend on it. And what parsing
    guarantees about its result. */
module WireOrder {
  import opened CText
  import opened Varint
  import opened Wire
  import opened Messages
  import opened WireRoundTrip
  import opened WireOutput

  /** The records of one slot, in order. */
  function Only(rs: seq<Record>, k: nat, slot: Record -> nat): seq<Record> {
    if rs == [] then [] else (if slot(rs[0]) == k then [rs[0]] else []) + Only(rs[1..], k, slot)
  }

  /** Two orders of the same records that agree on every slot. */
  ghost predicate SameFields(a: seq<Record>, b: seq<Record>, slot: Record -> nat) {
    forall k: nat :: Only(a, k, slot) == Only(b, k, slot)
  }

  /** Applying x and then y. */
  function Twice<M>(m: M, x: Record, y: Record, apply: (M, Record) -> Option<M>): Option<M> {
    match apply(m, x) case None => None case Some(next) => apply(next, y)
  }

  ghost predicate Commutes<M(!new)>(apply: (M, Record) -> Option<M>, slot: Record -> nat) {
    forall m: M, x: Record, y: Record | slot(x) != slot(y) :: Twice(m, x, y, apply) == Twice(m, y, x, apply)
  }

  lemma {:induction false} OnlyConcat(a: seq<Record>, b: seq<Record>, k: nat, slot: Record -> nat)
    ensures Only(a + b, k, slot) == Only(a, k, slot) + Only(b, k, slot)
  {
    if a == [] {
      assert a + b == b;
    } else {
      assert (a + b)[1..] == a[1..] + b && (a + b)[0] == a[0];
      OnlyConcat(a[1..], b, k, slot);
      var first := if slot(a[0]) == k then [a[0]] else [];
      assert first + (Only(a[1..], k, slot) + Only(b, k, slot)) == first + Only(a[1..], k, slot) + Only(b, k, slot);
    }
  }

  /** A record may be applied before records of other slots. */
  lemma {:induction false} ToFront<M(!new)>(before: seq<Record>, x: Record, m: M, apply: (M, Record) -> Option<M>,
                                     slot: Record -> nat)
    requires Commutes(apply, slot) && forall y | y in before :: slot(y) != slot(x)
    ensures Fold(before + [x], m, apply) == Fold([x] + before, m, apply)
  {
    if before == [] {
      assert before + [x] == [x] + before;
    } else {
      var y, more := before[0], before[1..];
      assert (before + [x])[1..] == more + [x] && before == [y] + more;
      assert Twice(m, x, y, apply) == Twice(m, y, x, apply);
      if apply(m, y).Some? { ToFront(more, x, apply(m, y).value, apply, slot); }
      assert [x] + before == [x, y] + more;
      assert [y] + ([x] + more) == [y, x] + more;
      assert (before + [x])[0] == y;
    }
  }

  /** The first record of a slot stands behind records of other slots. */
  lemma {:induction false} FirstOf(rs: seq<Record>, k: nat, slot: Record -> nat) returns (j: nat)
    requires Only(rs, k, slot) != []
    ensures j < |rs| && slot(rs[j]) == k && rs[j] == Only(rs, k, slot)[0]
    ensures forall y | y in rs[..j] :: slot(y) != k
  {
    if slot(rs[0]) == k {
      j := 0;
    } else {
      j := FirstOf(rs[1..], k, slot);
      j := j + 1;
      assert rs[..j] == [rs[0]] + rs[1..][..j - 1];
    }
  }

  lemma OnlyFirst(rs: seq<Record>, slot: Record -> nat)
    requires rs != []
    ensures Only(rs, slot(rs[0]), slot) != []
  {
  }

  lemma {:induction false} OnlyNone(rs: seq<Record>, k: nat, slot: Record -> nat)
    requires forall y | y in rs :: slot(y) != k
    ensures Only(rs, k, slot) == []
  {
    if rs != [] { OnlyNone(rs[1..], k, slot); }
  }

  /** Records of different slots may come in any order. */
  lemma {:induction false} Reorder<M(!new)>(a: seq<Record>, b: seq<Record>, m: M, apply: (M, Record) -> Option<M>,
                                     slot: Record -> nat)
    requires Commutes(apply, slot) && SameFields(a, b, slot)
    ensures Fold(a, m, apply) == Fold(b, m, apply)
    decreases |a|
  {
    hide Commutes;
    if a == [] {
      if b != [] {
        OnlyFirst(b, slot);
        assert false;
      }
    } else {
      var x := a[0];
      assert Only(a, slot(x), slot) == Only(b, slot(x), slot);
      var j := FirstOf(b, slot(x), slot);
      var before, after := b[..j], b[j + 1..];
      Removal(a, b, j, slot);
      MoveFront(b, j, m, apply, slot);
      assert [x] + (before + after) == [x] + before + after;
      if apply(m, x).Some? { Reorder(a[1..], before + after, apply(m, x).value, apply, slot); }
      assert ([x] + (before + after))[1..] == before + after;
    }
  }

  /** Without the first record of a, and the same one in b, the slots still agree. */
  lemma Removal(a: seq<Record>, b: seq<Record>, j: nat, slot: Record -> nat)
    requires a != [] && SameFields(a, b, slot) && j < |b| && b[j] == a[0]
    requires forall y | y in b[..j] :: slot(y) != slot(a[0])
    ensures SameFields(a[1..], b[..j] + b[j + 1..], slot)
  {
    forall k: nat ensures Only(a[1..], k, slot) == Only(b[..j] + b[j + 1..], k, slot) {
      assert Only(a, k, slot) == Only(b, k, slot);
      RemovalAt(a, b, j, k, slot);
    }
  }

  lemma RemovalAt(a: seq<Record>, b: seq<Record>, j: nat, k: nat, slot: Record -> nat)
    requires a != [] && Only(a, k, slot) == Only(b, k, slot) && j < |b| && b[j] == a[0]
    requires forall y | y in b[..j] :: slot(y) != slot(a[0])
    ensures Only(a[1..], k, slot) == Only(b[..j] + b[j + 1..], k, slot)
  {
    var x, before, after := a[0], b[..j], b[j + 1..];
    assert b == before + ([x] + after) && ([x] + after)[1..] == after;
    OnlyConcat(before, [x] + after, k, slot);
    OnlyConcat(before, after, k, slot);
    if k == slot(x) {
      OnlyNone(before, k, slot);
      assert Only(a, k, slot) == [x] + Only(a[1..], k, slot) && Only(b, k, slot) == [x] + Only(after, k, slot);
      assert ([x] + Only(a[1..], k, slot))[1..] == Only(a[1..], k, slot);
      assert ([x] + Only(after, k, slot))[1..] == Only(after, k, slot);
    } else {
      assert Only([x] + after, k, slot) == [] + Only(after, k, slot) == Only(after, k, slot);
      assert Only(a, k, slot) == [] + Only(a[1..], k, slot) == Only(a[1..], k, slot);
    }
  }

  lemma MoveFront<M(!new)>(b: seq<Record>, j: nat, m: M, apply: (M, Record) -> Option<M>, slot: Record -> nat)
    requires Commutes(apply, slot) && j < |b| && forall y | y in b[..j] :: slot(y) != slot(b[j])
    ensures Fold(b, m, apply) == Fold([b[j]] + b[..j] + b[j + 1..], m, apply)
  {
    hide Commutes;
    var before, after := b[..j], b[j + 1..];
    assert b == (before + [b[j]]) + after;
    FoldConcat(before + [b[j]], after, m, apply);
    ToFront(before, b[j], m, apply, slot);
    FoldConcat([b[j]] + before, after, m, apply);
  }

  // ---- headers ----

  lemma RecordsCommute(m: Header, x: Record, y: Record)
    requires HeaderSlot(x) != HeaderSlot(y)
    ensures Twice(m, x, y, ApplyHeader) == Twice(m, y, x, ApplyHeader)
  {
    hide ParseEntry;
  }

  lemma HeaderCommutes()
    ensures Commutes(ApplyHeader, HeaderSlot)
  {
    hide ApplyHeader, HeaderSlot;
    forall m: Header, x: Record, y: Record | HeaderSlot(x) != HeaderSlot(y)
      ensures Twice(m, x, y, ApplyHeader) == Twice(m, y, x, ApplyHeader)
    {
      RecordsCommute(m, x, y);
    }
  }

  /** Reordering the bytes of records of different fields, however they are encoded, does not change what
      header is parsed. */
  lemma HeaderOrder(a: seq<bytes>, b: seq<bytes>, m: Header)
    requires forall p | p in a + b :: IsRecord(p)
    requires SameFields(RecordsOf(a), RecordsOf(b), HeaderSlot)
    ensures ParseHeader(Join(a), m) == ParseHeader(Join(b), m)
  {
    hide ApplyHeader, HeaderSlot, Commutes, SameFields, IsRecord;
    HeaderCommutes();
    Reorder(RecordsOf(a), RecordsOf(b), m, ApplyHeader, HeaderSlot);
    ParseRecords(a, m, ApplyHeader);
    ParseRecords(b, m, ApplyHeader);
  }

  // ---- what is parsed can be written ----

  lemma {:induction false} CanonicalAppend(rs: seq<Record>, r: Record)
    requires CanonicalAll(rs) && Canonical(r)
    ensures CanonicalAll(rs + [r])
  {
    WriteConcat(rs, [r]);
    assert [r][1..] == [];
  }

  lemma EntryIsValid(s: bytes, m: Entry)
    requires ValidEntry(m)
    ensures ParseEntry(s, m).Done? ==> ValidEntry(ParseEntry(s, m).m)
  {
    forall x: Entry, r: Record | ValidEntry(x) && Canonical(r) && ApplyEntry(x, r).Some?
      ensures ValidEntry(ApplyEntry(x, r).value)
    {
      if EntrySlot(r) == 0 { CanonicalAppend(x.unknown, r); }
    }
    ParseKeeps(s, m, ApplyEntry, ValidEntry);
  }

  /** One record makes an entry longer by no more than it takes. */
  lemma EntryStepGrows(x: Entry, r: Record)
    requires ApplyEntry(x, r).Some? && Canonical(r)
    ensures |SerializeEntry(ApplyEntry(x, r).value)| <= |SerializeEntry(x)| + |Write(r)|
  {
    hide WriteAll, Encode, WritePayload, Canonical;
    EntryParts(x);
    EntryParts(ApplyEntry(x, r).value);
    OneRecord(r);
    if EntrySlot(r) == 0 { WriteConcat(x.unknown, [r]); }
  }

  /** A property that was parsed can be written, in no more bytes than it was read from. */
  lemma PropertyIsValid(t: bytes)
    ensures ParseEntry(t, EMPTY_ENTRY).Done? ==>
              ValidEntry(ParseEntry(t, EMPTY_ENTRY).m) && |SerializeEntry(ParseEntry(t, EMPTY_ENTRY).m)| <= |t|
  {
    hide ApplyEntry, ValidEntry, SerializeEntry;
    EmptyEntry();
    EntryIsValid(t, EMPTY_ENTRY);
    var size := (x: Entry) => |SerializeEntry(x)|;
    forall x: Entry, r: Record | Canonical(r) && ApplyEntry(x, r).Some?
      ensures size(ApplyEntry(x, r).value) <= size(x) + |Write(r)|
    {
      EntryStepGrows(x, r);
    }
    ParseGrows(t, EMPTY_ENTRY, ApplyEntry, size);
  }

  lemma EmptyEntry()
    ensures ValidEntry(EMPTY_ENTRY) && SerializeEntry(EMPTY_ENTRY) == []
  {
  }

  lemma HeaderStepIsValid(x: Header, r: Record)
    requires ValidHeader(x) && Canonical(r) && ApplyHeader(x, r).Some?
    ensures ValidHeader(ApplyHeader(x, r).value)
  {
    hide ValidEntry, ParseEntry, SerializeEntry, CanonicalAll;
    if HeaderSlot(r) == 0 { CanonicalAppend(x.unknown, r); }
    if HeaderSlot(r) == 9 { PropertyStepIsValid(x, r); }
  }

  lemma PropertyStepIsValid(x: Header, r: Record)
    requires ValidHeader(x) && Canonical(r) && ApplyHeader(x, r).Some? && HeaderSlot(r) == 9
    ensures ValidHeader(ApplyHeader(x, r).value)
  {
    hide ValidEntry, ParseEntry, SerializeEntry, CanonicalAll;
    PropertyIsValid(r.payload.t);
  }

  /** Whatever the bytes are, a header that was parsed can be written. */
  lemma HeaderIsValid(s: bytes, m: Header)
    requires ValidHeader(m)
    ensures ParseHeader(s, m).Done? ==> ValidHeader(ParseHeader(s, m).m)
  {
    hide ValidHeader, ApplyHeader;
    forall x: Header, r: Record | ValidHeader(x) && Canonical(r) && ApplyHeader(x, r).Some?
      ensures ValidHeader(ApplyHeader(x, r).value)
    {
      HeaderStepIsValid(x, r);
    }
    ParseKeeps(s, m, ApplyHeader, ValidHeader);
  }

  /** Serializing what was parsed, from any bytes, and parsing it again gives the same header. */
  lemma HeaderReparse(s: bytes)
    requires ParseHeader(s, EMPTY_HEADER).Done?
    ensures ParseHeader(SerializeHeader(ParseHeader(s, EMPTY_HEADER).m), EMPTY_HEADER) == ParseHeader(s, EMPTY_HEADER)
  {
    hide ParseHeader, SerializeHeader;
    HeaderIsValid(s, EMPTY_HEADER);
    HeaderRoundTrip(ParseHeader(s, EMPTY_HEADER).m);
  }
}
