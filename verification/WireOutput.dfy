/** Writing into an array: the primitives that `SerializeWithCachedSizesToArray` is made of. */
module WireOutput {
  import opened CText
  import opened Varint
  import opened Wire
  import opened Messages
  import opened WireSize

  /** Behind position at, the bytes t were added; nothing before it changed. */
  twostate predicate Added(target: array<byte>, at: nat, end: nat, t: bytes)
    reads target
  {
    at <= target.Length && end == at + |t| <= target.Length && target[..end] == old(target[..at]) + t
  }

  /** `WriteVarint64ToArray`. */
  method PutVarint(v: nat, target: array<byte>, at: nat) returns (end: nat)
    requires at + |Encode(v)| <= target.Length
    modifies target
    ensures Added(target, at, end, Encode(v))
  {
    var left := v;
    end := at;
    ghost var start := target[..at];
    while left >= 128
      invariant at <= end && end + |Encode(left)| <= target.Length
      invariant target[..end] + Encode(left) == start + Encode(v)
      decreases left
    {
      ghost var before := target[..end];
      target[end] := 128 + left % 128;
      assert target[..end + 1] == before + [128 + left % 128];
      assert before + ([128 + left % 128] + Encode(left / 128)) == before + [128 + left % 128] + Encode(left / 128);
      left, end := left / 128, end + 1;
    }
    ghost var before := target[..end];
    target[end] := left;
    assert target[..end + 1] == before + [left] == start + Encode(v);
    end := end + 1;
    assert |target[..end]| == |start| + |Encode(v)|;
  }

  /** `WriteRaw`. */
  method PutBytes(t: bytes, target: array<byte>, at: nat) returns (end: nat)
    requires at + |t| <= target.Length
    modifies target
    ensures Added(target, at, end, t)
  {
    var k := 0;
    ghost var start := target[..at];
    while k < |t|
      invariant k <= |t| && target[..at + k] == start + t[..k]
    {
      target[at + k] := t[k];
      k := k + 1;
      assert target[..at + k] == start + t[..k];
    }
    end := at + k;
    assert t[..k] == t;
  }

  /** `WriteStringToArray`. */
  method PutString(tag: nat, t: bytes, target: array<byte>, at: nat) returns (end: nat)
    requires at + |WriteAll([Record(tag, Text(t))])| <= target.Length
    modifies target
    ensures Added(target, at, end, WriteAll([Record(tag, Text(t))]))
  {
    hide Encode, WriteAll;
    OneRecord(Record(tag, Text(t)));
    ghost var start := target[..at];
    end := PutVarint(tag, target, at);
    end := PutVarint(|t|, target, end);
    end := PutBytes(t, target, end);
    assert start + Encode(tag) + Encode(|t|) + t == start + (Encode(tag) + (Encode(|t|) + t));
  }

  lemma OneRecord(r: Record)
    ensures WriteAll([r]) == Encode(r.tag) + WritePayload(r)
  {
    assert [r][1..] == [];
  }

  /** `WriteInt64ToArray`, `WriteInt32ToArray` (sign-extended) and `WriteBoolToArray`. */
  method PutNumber(tag: nat, v: uint64, target: array<byte>, at: nat) returns (end: nat)
    requires at + |WriteAll([Record(tag, Number(v))])| <= target.Length
    modifies target
    ensures Added(target, at, end, WriteAll([Record(tag, Number(v))]))
  {
    hide Encode, WriteAll;
    OneRecord(Record(tag, Number(v)));
    ghost var start := target[..at];
    end := PutVarint(tag, target, at);
    end := PutVarint(v, target, end);
    assert start + Encode(tag) + Encode(v) == start + (Encode(tag) + Encode(v));
  }

  /** `Entry::SerializeWithCachedSizesToArray`. */
  method PutEntry(e: Entry, target: array<byte>, at: nat) returns (end: nat)
    requires at + |SerializeEntry(e)| <= target.Length
    modifies target
    ensures Added(target, at, end, SerializeEntry(e))
  {
    hide WriteAll;
    EntryParts(e);
    NoRecords();
    ghost var start, a, b, c :=
        target[..at], WriteAll(StrField(10, e.key)), WriteAll(StrField(18, e.value)), WriteAll(e.unknown);
    end := at;
    if e.key.Some? { end := PutString(10, e.key.value, target, end); }
    assert target[..end] == start + a;
    if e.value.Some? { end := PutString(18, e.value.value, target, end); }
    assert target[..end] == start + a + b;
    end := PutBytes(WriteAll(e.unknown), target, end);
    assert start + a + b + c == start + (a + b + c);
  }

  lemma EntryParts(e: Entry)
    ensures SerializeEntry(e) == WriteAll(StrField(10, e.key)) + WriteAll(StrField(18, e.value)) + WriteAll(e.unknown)
  {
    hide WriteAll, StrField;
    WriteConcat(StrField(10, e.key), StrField(18, e.value) + e.unknown);
    WriteConcat(StrField(18, e.value), e.unknown);
  }

  /** `WriteMessageNoVirtualToArray` of an entry whose size is in its cache. */
  method PutProperty(e: Entry, cached: nat, target: array<byte>, at: nat) returns (end: nat)
    requires cached == |SerializeEntry(e)| && at + |WriteAll([Record(74, Text(SerializeEntry(e)))])| <= target.Length
    modifies target
    ensures Added(target, at, end, WriteAll([Record(74, Text(SerializeEntry(e)))]))
  {
    hide Encode, WriteAll, SerializeEntry;
    OneRecord(Record(74, Text(SerializeEntry(e))));
    ghost var start, t := target[..at], SerializeEntry(e);
    end := PutVarint(74, target, at);
    end := PutVarint(cached, target, end);
    end := PutEntry(e, target, end);
    assert start + Encode(74) + Encode(|t|) + t == start + (Encode(74) + (Encode(|t|) + t));
  }

  /** `Entry::ByteSize`, with the path for entries that have both fields. */
  method EntryByteSize(e: Entry) returns (total: nat)
    requires ValidEntry(e)
    ensures total == |SerializeEntry(e)|
  {
    hide WriteAll, CanonicalAll;
    EntrySizeIs(e);
    total := 0;
    if e.key.Some? && e.value.Some? {
      total := total + 1 + StringSize(e.key.value);
      total := total + 1 + StringSize(e.value.value);
    } else {
      if e.key.Some? { total := total + 1 + StringSize(e.key.value); }
      if e.value.Some? { total := total + 1 + StringSize(e.value.value); }
    }
    total := total + |WriteAll(e.unknown)|;
  }

  // ---- headers ----

  /** The bytes of the fields before field k. */
  function HeaderUpTo(m: Header, k: nat): bytes
    requires 1 <= k <= 12
  {
    if k == 1 then [] else HeaderUpTo(m, k - 1) + WriteAll(HeaderField(m, k - 1))
  }

  lemma {:induction false} UpToFrom(m: Header, k: nat)
    requires 1 <= k <= 12
    ensures HeaderUpTo(m, k) + WriteAll(HeaderFrom(m, k)) == SerializeHeader(m)
  {
    hide HeaderField, WriteAll;
    if k > 1 {
      UpToFrom(m, k - 1);
      WriteConcat(HeaderField(m, k - 1), HeaderFrom(m, k));
    }
  }

  lemma {:induction false} UpToAll(m: Header)
    ensures HeaderUpTo(m, 12) == SerializeHeader(m)
  {
    hide HeaderField, HeaderUpTo;
    UpToFrom(m, 12);
    NoRecords();
  }

  /** Up to position at, target holds what was there first and the fields before k; there is room for the rest. */
  ghost predicate Filled(target: array<byte>, at: nat, start: bytes, m: Header, k: nat)
    requires 1 <= k <= 12
    reads target
  {
    at <= target.Length && target[..at] == start + HeaderUpTo(m, k) && |start| + |SerializeHeader(m)| <= target.Length
  }

  lemma RoomFor(target: array<byte>, at: nat, start: bytes, m: Header, k: nat)
    requires 1 <= k <= 11 && Filled(target, at, start, m, k)
    ensures at + |WriteAll(HeaderField(m, k))| <= target.Length
  {
    hide HeaderField, WriteAll, HeaderFrom;
    UpToFrom(m, k + 1);
    assert |target[..at]| == at;
  }

  /** Another field is written. */
  lemma NextField(target: array<byte>, at: nat, end: nat, start: bytes, m: Header, k: nat)
    requires 1 <= k <= 11 && |start| + |SerializeHeader(m)| <= target.Length
    requires end <= target.Length && target[..end] == start + HeaderUpTo(m, k) + WriteAll(HeaderField(m, k))
    ensures Filled(target, end, start, m, k + 1)
  {
    hide HeaderField, WriteAll, SerializeHeader;
    assert start + HeaderUpTo(m, k) + WriteAll(HeaderField(m, k)) ==
        start + (HeaderUpTo(m, k) + WriteAll(HeaderField(m, k)));
  }

  /** `if (has_...()) target = WriteStringToArray(...)`. */
  method StringFieldOut(has: bool, tag: nat, t: bytes, target: array<byte>, at: nat, ghost start: bytes,
                        ghost m: Header, ghost k: nat)
    returns (end: nat)
    requires 1 <= k <= 11 && Filled(target, at, start, m, k)
    requires HeaderField(m, k) == StrField(tag, if has then Some(t) else None)
    modifies target
    ensures Filled(target, end, start, m, k + 1)
  {
    hide HeaderField, WriteAll, SerializeHeader, HeaderUpTo;
    NoRecords();
    RoomFor(target, at, start, m, k);
    end := at;
    if has { end := PutString(tag, t, target, at); }
    NextField(target, at, end, start, m, k);
  }

  /** `if (has_...()) target = WriteInt64ToArray(...)` and the like. */
  method NumberFieldOut(has: bool, tag: nat, v: uint64, target: array<byte>, at: nat, ghost start: bytes,
                        ghost m: Header, ghost k: nat)
    returns (end: nat)
    requires 1 <= k <= 11 && Filled(target, at, start, m, k)
    requires HeaderField(m, k) == if has then [Record(tag, Number(v))] else []
    modifies target
    ensures Filled(target, end, start, m, k + 1)
  {
    hide HeaderField, WriteAll, SerializeHeader, HeaderUpTo;
    NoRecords();
    RoomFor(target, at, start, m, k);
    end := at;
    if has { end := PutNumber(tag, v, target, at); }
    NextField(target, at, end, start, m, k);
  }

  /** The loop over the properties. */
  method PropertiesOut(es: seq<Entry>, cached: seq<nat>, target: array<byte>, at: nat, ghost start: bytes,
                       ghost m: Header)
    returns (end: nat)
    requires Filled(target, at, start, m, 9) && m.properties == es
    requires |cached| == |es| && forall i | 0 <= i < |es| :: cached[i] == |SerializeEntry(es[i])|
    modifies target
    ensures Filled(target, end, start, m, 10)
  {
    hide WriteAll, SerializeEntry, SerializeHeader, HeaderUpTo, PropertyRecords;
    RoomFor(target, at, start, m, 9);
    ghost var before := target[..at];
    end := at;
    var i := 0;
    SomeProperties(es, 0);
    while i < |es|
      invariant i <= |es| && at <= end <= target.Length
      invariant target[..end] == before + WriteAll(PropertyRecords(es[..i]))
    {
      SomeProperties(es, i);
      ghost var soFar := WriteAll(PropertyRecords(es[..i]));
      assert |target[..end]| == end;
      end := PutProperty(es[i], cached[i], target, end);
      assert before + soFar + WriteAll([Record(74, Text(SerializeEntry(es[i])))]) ==
          before + (soFar + WriteAll([Record(74, Text(SerializeEntry(es[i])))]));
      i := i + 1;
    }
    assert es[..i] == es;
    NextField(target, at, end, start, m, 9);
  }

  lemma SomeProperties(es: seq<Entry>, i: nat)
    requires i <= |es|
    ensures i < |es| ==> WriteAll(PropertyRecords(es[..i + 1])) ==
                         WriteAll(PropertyRecords(es[..i])) + WriteAll([Record(74, Text(SerializeEntry(es[i])))])
    ensures i < |es| ==> |WriteAll(PropertyRecords(es[..i + 1]))| <= |WriteAll(PropertyRecords(es))|
    ensures WriteAll(PropertyRecords(es[..0])) == []
  {
    hide SerializeEntry;
    if i < |es| {
      assert es[..i + 1] == es[..i] + [es[i]] && es == es[..i + 1] + es[i + 1..];
      PropertiesConcat(es[..i], es[i]);
      WriteConcat(PropertyRecords(es[..i]), [Record(74, Text(SerializeEntry(es[i])))]);
      PropertiesAppend(es[..i + 1], es[i + 1..]);
      WriteConcat(PropertyRecords(es[..i + 1]), PropertyRecords(es[i + 1..]));
    }
  }

  lemma {:induction false} PropertiesAppend(a: seq<Entry>, b: seq<Entry>)
    ensures PropertyRecords(a + b) == PropertyRecords(a) + PropertyRecords(b)
  {
    hide SerializeEntry;
    if a == [] {
      assert a + b == b;
    } else {
      assert (a + b)[1..] == a[1..] + b;
      PropertiesAppend(a[1..], b);
    }
  }

  /** `SerializeUnknownFieldsToArray`. */
  method UnknownOut(u: seq<Record>, target: array<byte>, at: nat, ghost start: bytes, ghost m: Header)
      returns (end: nat)
    requires Filled(target, at, start, m, 11) && m.unknown == u
    modifies target
    ensures Filled(target, end, start, m, 12)
  {
    hide WriteAll, SerializeHeader, HeaderUpTo;
    RoomFor(target, at, start, m, 11);
    end := PutBytes(WriteAll(u), target, at);
    NextField(target, at, end, start, m, 11);
  }
}
