/** Printed text is a JSON text by the grammar of RFC 8259 that means the printed tree, formatted or not;
    hence printing and then parsing gives the same tree. */
module JsonRoundTrip {
  import opened CText
  import opened JsonString
  import opened JsonNumber
  import opened JsonValue
  import opened JsonParse
  import opened JsonLiteral
  import opened JsonGrammar
  import opened JsonShortest
  import Json = JsonNumeral
  import Utf8

  // ---- strings ----

  /** The character of the grammar that the printer writes for a byte. */
  function CharOf(c: byte): Char
    requires c != NUL
  {
    var e := EscapeByte(c);
    if |e| == 1 then Plain(c) else if |e| == 2 then Short(e[1]) else Unicode(e[2..])
  }

  lemma CharMeans(c: byte)
    requires c != NUL
    ensures var k := CharOf(c);
      WellFormed(k) && Legible(k) && !IsHighEscape(k) && !IsLowEscape(k) && Faithful(k) && Written(k) == EscapeByte(c)
          && Single(k) == [c]
  {
    hide Utf8.Encode;
  }

  /** A `\u` escape has lower-case digits and stands for a control byte without a short form only. */
  ghost predicate OnlyForControl(c: Char) {
    LowerHex(c) && (Legible(c) && c.Unicode? ==> 0 < Code(c) < 0x20 && Code(c) !in {0x08, 0x09, 0x0A, 0x0C, 0x0D})
  }

  /** The escaped form of a string is a literal that means the string. */
  lemma {:induction false} LiteralOf(t: text) returns (cs: Literal)
    ensures WrittenAll(cs) == Escape(t) && WellFormedAll(cs) && FaithfulAll(cs) && MeaningOf(cs) == t
    ensures LowerHexAll(cs) && forall c | c in cs :: OnlyForControl(c)
  {
    hide EscapeByte, OnlyForControl, Written, Single, WellFormed, Legible, Faithful, IsHighEscape, IsLowEscape;
    if t == [] {
      cs := [];
    } else {
      CharMeans(t[0]);
      CharOnlyFor(t[0]);
      var rest := LiteralOf(t[1..]);
      cs := [CharOf(t[0])] + rest;
      assert cs[1..] == rest;
    }
  }

  lemma CharOnlyFor(c: byte)
    requires c != NUL
    ensures OnlyForControl(CharOf(c)) && LowerHex(CharOf(c))
  {
  }

  lemma PrintedString(s: text, i: nat, t: text) returns (cs: Literal)
    requires Matches(s, i, PrintString(Str(t)))
    ensures StringAt(cs, s, i, i + |PrintString(Str(t))|) && WellFormedAll(cs) && |PrintString(Str(t))| == |Quoted(cs)|
    ensures StoredAll(cs) == t && FaithfulAll(cs)
  {
    hide WrittenAll, StoredAll, MeaningOf, WellFormed, Legible, Faithful, Paired, Matches, Escape, StringAt, Stands;
    cs := LiteralOf(t);
    QuotedIsString(cs, s, i);
    LiteralFaithful(cs);
  }

  /** `parse_string` on what `print_string_ptr` wrote gives the string back and stops past the quote. */
  lemma ParsePrintString(s: text, i: nat, t: text)
    requires Matches(s, i, PrintString(Str(t)))
    ensures i <= |s| && ParseString(s, i) == Ok(t, i + |PrintString(Str(t))|)
  {
    hide StringAt, StoredAll, ParseString, Matches, PrintString;
    var cs := PrintedString(s, i, t);
    StringRead(cs, s, i, i + |PrintString(Str(t))|);
  }

  // ---- numbers ----

  lemma {:induction false} DecimalMeans(n: nat)
    ensures Json.AllDigits(Decimal(n)) && Json.Continued(0, Decimal(n)) == n
    ensures if n == 0 then Decimal(n) == [0x30] else Decimal(n)[0] != 0x30
  {
    if n >= 10 {
      DecimalMeans(n / 10);
      ContinuedConcat(0, Decimal(n / 10), [0x30 + n % 10]);
    }
    assert Json.Continued(n / 10, [0x30 + n % 10]) == n;
  }

  lemma {:induction false} ContinuedConcat(m: nat, a: bytes, b: bytes)
    requires Json.AllDigits(a) && Json.AllDigits(b)
    ensures Json.AllDigits(a + b) && Json.Continued(m, a + b) == Json.Continued(Json.Continued(m, a), b)
    decreases |a|
  {
    if a == [] {
      assert a + b == b;
    } else {
      ContinuedConcat(m * 10 + (a[0] - 0x30), a[1..], b);
      assert (a + b)[1..] == a[1..] + b;
    }
  }

  /** The decimal form of an integer is a number of the grammar that means it. */
  lemma NumeralOf(n: int) returns (k: Numeral)
    ensures Json.WellFormed(k) && Json.Written(k) == PrintInt(n) && Json.Meaning(k) == n as real
    ensures k.minus == (n < 0) && k.fraction == [] && k.power.NoPower?
    ensures Json.CountersHold(k) <==> 0 - LONG_LIMIT < n < LONG_LIMIT
  {
    hide Decimal, Json.Continued, Pow10;
    var m := if n < 0 then -n else n;
    DecimalMeans(m);
    var sign: bytes := if n < 0 then [MINUS] else [];
    k := Json.Numeral(n < 0, Decimal(m), [], Json.NoPower);
    assert PrintInt(n) == sign + Decimal(m) + [] + [];
    Json.NoDigits();
    Json.Pow10Turn(0);
  }

  /** Reading back a printed integer, if the text behind it cannot extend it: `long m` can hold its digits
      exactly if it is above -2^63 and below 2^63, and then the same integer is read. */
  lemma ParsePrintInt(s: text, i: nat, n: int)
    requires Matches(s, i, PrintInt(n)) && !ExtendsNumber(At(s, i + |PrintInt(n)|))
    ensures i < |s| && (s[i] == MINUS || IsDigit(s[i]))
    ensures CountersFit(s, i) <==> 0 - LONG_LIMIT < n < LONG_LIMIT
    ensures CountersFit(s, i) ==> ParseNumber(s, i) == Number(n as real, i + |PrintInt(n)|)
  {
    hide Json.WellFormed, Json.Legible, Json.Written, Json.Meaning, Json.CountersHold, Json.Stops, CountersFit;
    hide ParseNumber, Matches;
    var k := NumeralOf(n);
    Json.StopsAt(k, s, i + |PrintInt(n)|);
    Json.NumeralParsed(s, i, k);
  }

  /** 2^64: a JSON text that overflows `long m`. */
  lemma TwoTo64Overflows()
    ensures var t := PrintInt(0x1_0000_0000_0000_0000); NUL !in t && Parse(t) == Wild(0)
  {
    hide PrintInt, CountersFit, ParseNumber;
    var n := 0x1_0000_0000_0000_0000;
    var t := PrintInt(n);
    assert Matches(t, 0, t) && At(t, 0 + |t|) == NUL;
    ParsePrintInt(t, 0, n);
    Dispatch(t, 0);
  }

  /** `1e63`: an integer that is read, but whose text is too long for the buffer that would print it. */
  lemma TooLongToPrint()
    ensures var s: text := [0x31, 0x65, 0x36, 0x33];
      Parse(s) == Ok(Num(Pow(63) as real), 4) && |PrintInt(Pow(63))| + 1 > 64 && !FitsBuffer(Pow(63) as real)
  {
    hide Pow, Pow10, PrintInt, FitsBuffer, Parse, Json.Written, Json.Meaning, Json.WellFormed, Json.CountersHold;
    var s: text := [0x31, 0x65, 0x36, 0x33];
    var n := Json.Numeral(false, [0x31], [], Json.Power(0x65, [], [0x36, 0x33]));
    OneE63(n);
    PowIsPow10(63);
    FixedFitsIff(Pow(63));
    FloorOf(Pow(63));
    NumeralIsText(s, n);
  }

  lemma FloorOf(n: int)
    ensures FitsBuffer(n as real) <==> 0 < n + Pow(62) && n < Pow(63)
  {
    hide Pow;
  }

  lemma NumeralIsText(s: text, n: Json.Numeral)
    requires Json.WellFormed(n) && Json.Legible(n) && Json.CountersHold(n) && s == Json.Written(n)
    ensures Parse(s) == Ok(Num(Json.Meaning(n)), |s|)
  {
    hide CountersFit, ParseNumber, ParseValue, Json.Written, Json.Meaning, Json.WellFormed, Json.CountersHold;
    hide Json.Legible, Json.Stops;
    assert Matches(s, 0, s) && At(s, 0 + |s|) == NUL;
    Json.StopsAt(n, s, |s|);
    Json.NumeralParsed(s, 0, n);
    Dispatch(s, 0);
  }

  lemma OneE63(n: Json.Numeral)
    requires n == Json.Numeral(false, [0x31], [], Json.Power(0x65, [], [0x36, 0x33]))
    ensures Json.WellFormed(n) && Json.Legible(n) && Json.Written(n) == [0x31, 0x65, 0x36, 0x33] && Json.CountersHold(n)
      && Json.Meaning(n) == Pow10(63)
  {
    hide Pow10;
    assert Json.Continued(0, [0x31]) == 1 && Json.Continued(0, [0x36, 0x33]) == 63;
    Json.NoDigits();
    Json.Pow10Turn(0);
  }

  lemma {:induction false} PowIsPow10(k: nat)
    ensures Pow(k) as real == Pow10(k)
  {
    if k > 0 { PowIsPow10(k - 1); }
  }

  // ---- values ----

  /** v is what d derives, no string is misread, and the counters can hold its numbers exactly if v says so. */
  ghost predicate Of(d: Doc, v: Value) {
    ValueOf(d) == v && Strict(d) && AllFaithfulIn(d) && (NumbersFit(d) <==> InLong(v))
  }

  ghost predicate OfItems(ds: seq<Element>, items: seq<Value>) {
    ValuesOf(ds) == items && (forall k | 0 <= k < |ds| :: Strict(ds[k].doc) && AllFaithfulIn(ds[k].doc))
        && (AllFit(ds) <==> InLong(Array(items)))
  }

  ghost predicate OfMembers(ds: seq<NamedElement>, members: seq<Member>) {
    && MembersOf(ds) == members
    && (forall k | 0 <= k < |ds| :: WellFormedAll(ds[k].name) && Strict(ds[k].item.doc))
    && (forall k | 0 <= k < |ds| :: FaithfulAll(ds[k].name) && AllFaithfulIn(ds[k].item.doc))
    && (AllFitIn(ds) <==> InLong(Object(members)))
  }

  lemma ItemsInLong(v: Value, items: seq<Value>)
    ensures InLong(Array([v] + items)) <==> InLong(v) && InLong(Array(items))
  {
    var a := [v] + items;
    assert a[0] == v && forall k | 0 <= k < |items| :: items[k] == a[k + 1];
  }

  lemma MembersInLong(m: Member, members: seq<Member>)
    ensures InLong(Object([m] + members)) <==> InLong(m.value) && InLong(Object(members))
  {
    var o := [m] + members;
    assert o[0] == m && forall k | 0 <= k < |members| :: members[k] == o[k + 1];
  }

  lemma OfItemsCons(x: Element, v: Value, ds: seq<Element>, items: seq<Value>)
    requires Of(x.doc, v) && OfItems(ds, items)
    ensures OfItems([x] + ds, [v] + items)
  {
    hide ValueOf, AllFaithfulIn, Strict, ValuesOf, NumbersFit, AllFit, InLong;
    ItemsInLong(v, items);
    ValuesSplit([x] + ds);
    assert ([x] + ds)[1..] == ds;
  }

  lemma OfMembersCons(x: NamedElement, m: Member, ds: seq<NamedElement>, members: seq<Member>)
    requires m.name.Str? && StoredAll(x.name) == m.name.bytes && WellFormedAll(x.name) && FaithfulAll(x.name)
    requires Of(x.item.doc, m.value)
    requires OfMembers(ds, members)
    ensures OfMembers([x] + ds, [m] + members)
  {
    hide ValueOf, AllFaithfulIn, Strict, MembersOf, StoredAll, FaithfulAll, WellFormedAll, NumbersFit, AllFitIn, InLong;
    MembersInLong(m, members);
    MembersSplit([x] + ds);
    assert ([x] + ds)[1..] == ds;
  }

  lemma OfArray(ds: seq<Element>, items: seq<Value>)
    requires OfItems(ds, items)
    ensures Of(IsArray(ds), Array(items))
  {
  }

  lemma OfObject(ds: seq<NamedElement>, members: seq<Member>)
    requires OfMembers(ds, members)
    ensures Of(IsObject(ds), Object(members))
  {
    hide StoredAll, FaithfulAll;
  }

  lemma PrintedWord(s: text, i: nat, v: Value, depth: nat, fmt: bool) returns (d: Doc)
    requires (v.Null? || v.False? || v.True?) && Matches(s, i, PrintValue(v, depth, fmt))
    ensures !d.IsString? && Derives(d, s, i, i + |PrintValue(v, depth, fmt)|) && Of(d, v)
  {
    hide Matches;
    d := if v.Null? then IsNull else if v.False? then IsFalse else IsTrue;
  }

  lemma PrintedNum(s: text, i: nat, v: Value, depth: nat, fmt: bool) returns (d: Doc)
    requires v.Num? && Printable(v) && Matches(s, i, PrintValue(v, depth, fmt))
    ensures !d.IsString? && Derives(d, s, i, i + |PrintValue(v, depth, fmt)|) && Of(d, v)
  {
    hide *;
    var n := NumFacts(v, depth, fmt);
    var k := NumeralOf(n);
    d := IsNumber(k);
    LongIs(n);
    NumberDerives(k, s, i);
  }

  lemma NumFacts(v: Value, depth: nat, fmt: bool) returns (n: int)
    requires v.Num? && Printable(v)
    ensures n as real == v.d && PrintValue(v, depth, fmt) == PrintInt(n)
  {
    hide PrintInt, Trunc;
    n := Trunc(v.d);
    TruncIs(v.d);
  }

  lemma LongIs(n: int)
    ensures IsLong(n as real) <==> 0 - LONG_LIMIT < n < LONG_LIMIT
  {
  }

  lemma NumberDerives(k: Numeral, s: text, i: nat)
    requires Json.WellFormed(k) && Matches(s, i, Json.Written(k)) && (Json.CountersHold(k) <==> IsLong(Json.Meaning(k)))
    ensures Derives(IsNumber(k), s, i, i + |Json.Written(k)|) && Of(IsNumber(k), Num(Json.Meaning(k)))
  {
    hide Matches, Json.Written, Json.WellFormed, Json.Meaning, Json.CountersHold, IsLong;
  }

  lemma PrintedStr(s: text, i: nat, v: Value, depth: nat, fmt: bool) returns (d: Doc)
    requires v.String? && NoNulls(v) && Matches(s, i, PrintValue(v, depth, fmt))
    ensures Derives(d, s, i, i + |PrintValue(v, depth, fmt)|) && Of(d, v)
    ensures ClosedString(d, i, i + |PrintValue(v, depth, fmt)|)
  {
    hide StringAt, StoredAll, FaithfulAll, Quoted, WellFormed, Matches, PrintString;
    var cs := PrintedString(s, i, v.s.bytes);
    d := IsString(cs);
  }

  lemma ContainerFacts(v: Value, depth: nat, fmt: bool)
    requires Printable(v) && NoNulls(v)
    ensures v.Array? ==> (forall x | x in v.items :: Printable(x) && NoNulls(x))
                         && PrintValue(v, depth, fmt) == InBrackets(PrintItems(v.items, depth + 1, fmt))
    ensures v.Object? ==> (forall m | m in v.members :: Printable(m.value) && m.name.Str? && NoNulls(m.value))
                          && PrintValue(v, depth, fmt) ==
                               InBraces(If(fmt, [NEWLINE]), PrintMembers(v.members, depth + 1, fmt),
                                   If(fmt, Tabs(depth)))
  {
    hide InBrackets, InBraces, If, Tabs, PrintItems, PrintMembers;
  }

  /** Wherever printed text stands, it is derived by the grammar as the tree it was printed from. */
  lemma {:induction false} PrintedDerives(s: text, i: nat, v: Value, depth: nat, fmt: bool) returns (d: Doc)
    requires Printable(v) && NoNulls(v) && Matches(s, i, PrintValue(v, depth, fmt))
    ensures Derives(d, s, i, i + |PrintValue(v, depth, fmt)|) && Of(d, v)
    ensures ClosedString(d, i, i + |PrintValue(v, depth, fmt)|)
    decreases v, 1
  {
    hide Derives, Of, Matches, PrintValue, Printable, NoNulls, PrintItems, PrintMembers, InBrackets, InBraces, If, Tabs;
    ContainerFacts(v, depth, fmt);
    if v.Array? {
      d := PrintedArray(s, i, v.items, depth, fmt);
    } else if v.Object? {
      d := PrintedObject(s, i, v.members, depth, fmt);
    } else if v.Num? {
      d := PrintedNum(s, i, v, depth, fmt);
    } else if v.String? {
      d := PrintedStr(s, i, v, depth, fmt);
    } else {
      d := PrintedWord(s, i, v, depth, fmt);
    }
  }

  lemma {:induction false} PrintedArray(s: text, i: nat, items: seq<Value>, depth: nat, fmt: bool) returns (d: Doc)
    requires forall x | x in items :: Printable(x) && NoNulls(x)
    requires Matches(s, i, InBrackets(PrintItems(items, depth + 1, fmt)))
    ensures !d.IsString? && Derives(d, s, i, i + |InBrackets(PrintItems(items, depth + 1, fmt))|) && Of(d, Array(items))
    decreases items, 1
  {
    hide PrintValue, Printable, NoNulls, Matches, Of, OfItems;
    var body := PrintItems(items, depth + 1, fmt);
    MatchesSplit3(s, i, [LBRACKET], body, [RBRACKET]);
    MatchesByte(s, i, [LBRACKET], 0);
    MatchesByte(s, i + 1 + |body|, [RBRACKET], 0);
    if items == [] {
      d := IsArray([]);
      Nothing();
    } else {
      hide PrintItems, Derives;
      var ds := PrintedItems(s, i + 1, i + 1, items, depth + 1, fmt);
      OfArray(ds, items);
      d := IsArray(ds);
    }
  }

  lemma Nothing()
    ensures Of(IsArray([]), Array([])) && Of(IsObject([]), Object([])) && OfItems([], []) && OfMembers([], [])
  {
    NoValues();
    OfArray([], []);
    OfObject([], []);
  }

  lemma DerivesObject(ds: seq<NamedElement>, s: text, i: nat, e: nat)
    requires ds != [] && At(s, i) == LBRACE && EntriesDerive(ds, s, i + 1, e)
    ensures Derives(IsObject(ds), s, i, e)
  {
    hide EntriesDerive;
  }

  /** The items from p on, with white space in front of them from j on. */
  lemma {:induction false} PrintedItems(s: text, j: nat, p: nat, items: seq<Value>, depth: nat, fmt: bool)
      returns (ds: seq<Element>)
    requires items != [] && forall x | x in items :: Printable(x) && NoNulls(x)
    requires Blank(s, j, p) && Matches(s, p, PrintItems(items, depth, fmt))
      && At(s, p + |PrintItems(items, depth, fmt)|) == RBRACKET
    ensures ds != [] && ItemsDerive(ds, s, j, p + |PrintItems(items, depth, fmt)| + 1) && OfItems(ds, items)
    decreases items, 0
  {
    hide PrintValue, Printable, NoNulls, Matches, Derives, Of, OfItems;
    var v, first := items[0], PrintValue(items[0], depth, fmt);
    var n := p + |first|;
    Nothing();
    if |items| == 1 {
      var d := PrintedDerives(s, p, v, depth, fmt);
      var x := Element(p, d, n, n);
      ds := [x] + [];
      OfItemsCons(x, v, [], []);
      assert items == [v] + [];
    } else {
      var sep: bytes, rest := [COMMA] + If(fmt, [SPACE]), PrintItems(items[1..], depth, fmt);
      MatchesSplit3(s, p, first, sep, rest);
      var d := PrintedDerives(s, p, v, depth, fmt);
      var x := Element(p, d, n, n);
      var more := PrintedItems(s, n + 1, n + |sep|, items[1..], depth, fmt);
      ds := [x] + more;
      assert ds[1..] == more;
      OfItemsCons(x, v, more, items[1..]);
      assert items == [v] + items[1..];
    }
  }

  lemma {:induction false} PrintedObject(s: text, i: nat, members: seq<Member>, depth: nat, fmt: bool) returns (d: Doc)
    requires forall m | m in members :: Printable(m.value) && m.name.Str? && NoNulls(m.value)
    requires Matches(s, i, InBraces(If(fmt, [NEWLINE]), PrintMembers(members, depth + 1, fmt), If(fmt, Tabs(depth))))
    ensures var t := InBraces(If(fmt, [NEWLINE]), PrintMembers(members, depth + 1, fmt), If(fmt, Tabs(depth)));
      !d.IsString? && Derives(d, s, i, i + |t|)
    ensures Of(d, Object(members))
    decreases members, 1
  {
    hide PrintMembers, Printable, NoNulls, Matches, Of, OfMembers, Tabs, Blank, Derives, EntriesDerive, InBraces, If;
    Separators(depth, fmt);
    var p, f := Braces(s, i, If(fmt, [NEWLINE]), PrintMembers(members, depth + 1, fmt), If(fmt, Tabs(depth)));
    if members == [] {
      d := IsObject([]);
      Nothing();
      NothingPrinted(depth + 1, fmt);
      EmptyObject(s, i, p, f);
    } else {
      var ds := PrintedMembers(s, i + 1, p, f, members, depth + 1, fmt);
      OfObject(ds, members);
      d := IsObject(ds);
      DerivesObject(ds, s, i, f + 1);
    }
  }

  /** The separators of objects are white space. */
  lemma Separators(depth: nat, fmt: bool)
    ensures forall k | 0 <= k < |If(fmt, Tabs(depth))| :: If(fmt, Tabs(depth))[k] <= SPACE
    ensures forall k | 0 <= k < |If(fmt, [NEWLINE])| :: If(fmt, [NEWLINE])[k] <= SPACE
  {
  }

  /** The pieces of a printed object: the members start at p, and the closing brace stands at f. */
  lemma Braces(s: text, i: nat, line: bytes, body: bytes, tabs: bytes) returns (p: nat, f: nat)
    requires Matches(s, i, InBraces(line, body, tabs))
    requires forall k | 0 <= k < |line| :: line[k] <= SPACE
    requires forall k | 0 <= k < |tabs| :: tabs[k] <= SPACE
    ensures At(s, i) == LBRACE
    ensures Matches(s, p, body) && Blank(s, i + 1, p) && Blank(s, p + |body|, f) && At(s, f) == RBRACE
    ensures i + |InBraces(line, body, tabs)| == f + 1
  {
    hide Matches;
    MatchesSplit5(s, i, [LBRACE], line, body, tabs, [RBRACE]);
    MatchesByte(s, i, [LBRACE], 0);
    p := i + 1 + |line|;
    f := p + |body| + |tabs|;
    MatchesBlank(s, i + 1, line);
    MatchesBlank(s, p + |body|, tabs);
    MatchesByte(s, f, [RBRACE], 0);
  }

  lemma EmptyObject(s: text, i: nat, p: nat, f: nat)
    requires At(s, i) == LBRACE && Blank(s, i + 1, p) && Blank(s, p, f) && At(s, f) == RBRACE
    ensures Derives(IsObject([]), s, i, f + 1)
  {
  }

  /** The members from p on, with white space in front of them from j on, up to the closing brace at f. */
  lemma {:induction false} PrintedMembers(s: text, j: nat, p: nat, f: nat, members: seq<Member>, depth: nat, fmt: bool)
    returns (ds: seq<NamedElement>)
    requires members != [] && forall m | m in members :: Printable(m.value) && m.name.Str? && NoNulls(m.value)
    requires Blank(s, j, p) && Matches(s, p, PrintMembers(members, depth, fmt))
    requires Blank(s, p + |PrintMembers(members, depth, fmt)|, f) && At(s, f) == RBRACE
    ensures ds != [] && EntriesDerive(ds, s, j, f + 1) && OfMembers(ds, members)
    decreases members, 0
  {
    hide PrintMember, Printable, NoNulls, Matches, Of, OfMembers, NameDerives, ItemDerives, Blank, PrintMembers;
    hide StoredAll, FaithfulAll;
    var m, last := members[0], |members| == 1;
    var next := p + |PrintMember(m, last, depth, fmt)|;
    FirstAndRest(s, p, members, depth, fmt);
    Nothing();
    if last {
      var x := PrintedMember(s, j, p, f, m, last, depth, fmt);
      ds := [x] + [];
      OfMembersCons(x, m, [], []);
      assert members == [m] + [];
    } else {
      NothingBehind(s, p, PrintMember(m, last, depth, fmt));
      var x := PrintedMember(s, j, p, next, m, last, depth, fmt);
      var more := PrintedMembers(s, x.item.stop + 1, next, f, members[1..], depth, fmt);
      ds := [x] + more;
      assert ds[1..] == more;
      OfMembersCons(x, m, more, members[1..]);
      assert members == [m] + members[1..];
    }
  }

  lemma NothingBehind(s: text, p: nat, t: bytes)
    requires Matches(s, p, t)
    ensures Blank(s, p + |t|, p + |t|)
  {
  }

  lemma FirstAndRest(s: text, p: nat, members: seq<Member>, depth: nat, fmt: bool)
    requires members != [] && forall m | m in members :: Printable(m.value)
    requires Matches(s, p, PrintMembers(members, depth, fmt))
    ensures var first := PrintMember(members[0], |members| == 1, depth, fmt);
      var rest := PrintMembers(members[1..], depth, fmt);
      Matches(s, p, first) && Matches(s, p + |first|, rest)
      && |PrintMembers(members, depth, fmt)| == |first| + |rest| && (|members| == 1 ==> rest == [])
  {
    hide PrintMember, Printable, Matches;
    MatchesSplit(s, p, PrintMember(members[0], |members| == 1, depth, fmt), PrintMembers(members[1..], depth, fmt));
  }

  /** One member; f is where what follows it starts, or the closing brace. */
  lemma {:induction false} PrintedMember(s: text, j: nat, p: nat, f: nat, m: Member, last: bool, depth: nat, fmt: bool)
    returns (x: NamedElement)
    requires Printable(m.value) && m.name.Str? && NoNulls(m.value)
    requires Blank(s, j, p) && Matches(s, p, PrintMember(m, last, depth, fmt))
    requires Blank(s, p + |PrintMember(m, last, depth, fmt)|, f)
    ensures NameDerives(x, s, j) && ItemDerives(x.item, s, x.colon + 1)
    ensures StoredAll(x.name) == m.name.bytes && WellFormedAll(x.name) && FaithfulAll(x.name) && Of(x.item.doc, m.value)
    ensures if last then x.item.stop == f else At(s, x.item.stop) == COMMA && Blank(s, x.item.stop + 1, f)
    decreases m, 2
  {
    hide PrintValue, PrintMember, Printable, NoNulls, PrintString, Tabs, Matches, Derives, Of, StringAt, StoredAll;
    hide FaithfulAll;
    var q, k, n := MemberParts(s, p, m, last, depth, fmt);
    var cs := PrintedString(s, q, m.name.bytes);
    var c := q + |PrintString(m.name)|;
    var d := PrintedDerives(s, k, m.value, depth, fmt);
    x := NamedElement(q, cs, c, c, Element(k, d, n, if last then f else n));
  }

  /** The pieces of a printed member. */
  lemma MemberParts(s: text, p: nat, m: Member, last: bool, depth: nat, fmt: bool) returns (q: nat, k: nat, n: nat)
    requires Printable(m.value) && Matches(s, p, PrintMember(m, last, depth, fmt))
    ensures Blank(s, p, q) && Matches(s, q, PrintString(m.name))
    ensures var c := q + |PrintString(m.name)|; At(s, c) == COLON && Blank(s, c + 1, k)
    ensures Matches(s, k, PrintValue(m.value, depth, fmt)) && n == k + |PrintValue(m.value, depth, fmt)|
    ensures !last ==> At(s, n) == COMMA && Blank(s, n + 1, p + |PrintMember(m, last, depth, fmt)|)
    ensures last ==> Blank(s, n, p + |PrintMember(m, last, depth, fmt)|)
  {
    hide PrintValue, Printable, PrintString, Tabs, Matches, Blank, Pair;
    q, k, n := Pieces(s, p, If(fmt, Tabs(depth)), PrintString(m.name), If(fmt, [TAB]), PrintValue(m.value, depth, fmt),
                      If(!last, [COMMA]), If(fmt, [NEWLINE]));
  }

  lemma Pieces(s: text, p: nat, tabs: bytes, name: bytes, tab: bytes, value: bytes, comma: bytes, line: bytes)
    returns (q: nat, k: nat, n: nat)
    requires Matches(s, p, Pair(tabs, name, tab, value, comma, line))
    requires forall k | 0 <= k < |tabs| :: tabs[k] <= SPACE
    requires forall k | 0 <= k < |tab| :: tab[k] <= SPACE
    requires forall k | 0 <= k < |line| :: line[k] <= SPACE
    requires comma in {[], [COMMA]}
    ensures Blank(s, p, q) && Matches(s, q, name)
    ensures At(s, q + |name|) == COLON && Blank(s, q + |name| + 1, k)
    ensures Matches(s, k, value) && n == k + |value|
    ensures comma == [COMMA] ==> At(s, n) == COMMA
    ensures Blank(s, n + |comma|, p + |Pair(tabs, name, tab, value, comma, line)|)
  {
    hide Matches;
    MatchesSplit5(s, p, tabs, name, [COLON] + tab, value, comma + line);
    q := p + |tabs|;
    k := q + |name| + 1 + |tab|;
    n := k + |value|;
    MatchesBlank(s, p, tabs);
    MatchesSplit(s, q + |name|, [COLON], tab);
    MatchesByte(s, q + |name|, [COLON], 0);
    MatchesBlank(s, q + |name| + 1, tab);
    MatchesSplit(s, n, comma, line);
    if comma == [COMMA] { MatchesByte(s, n, comma, 0); }
    MatchesBlank(s, n + |comma|, line);
    assert |comma + line| == |comma| + |line|;
  }

  // ---- the round trip ----

  /** A printed tree is a JSON text, and what the text means is the tree. */
  lemma PrintedMeans(v: Value, fmt: bool) returns (d: Doc)
    requires Printable(v) && NoNulls(v)
    ensures NUL !in PrintValue(v, 0, fmt)
    ensures IsText(d, PrintValue(v, 0, fmt), 0, |PrintValue(v, 0, fmt)|) && Means(d, v)
  {
    hide PrintValue, Printable, NoNulls, Derives, Means, AllFaithfulIn, ValueOf, Strict;
    var t := PrintValue(v, 0, fmt);
    PrintedIsText(v, 0, fmt);
    assert t[0..0 + |t|] == t;
    d := PrintedDerives(t, 0, v, 0, fmt);
    MeaningIff(d);
  }

  /** Text in front of which a number could go on. */
  predicate Ends(v: Value, c: byte) { v.Num? ==> !ExtendsNumber(c) }

  /** The round trip of one value, wherever its text stands: it is read back if `long` can hold its numbers,
      and otherwise a counter overflows. */
  lemma ParsePrintValue(s: text, i: nat, v: Value, depth: nat, fmt: bool)
    requires Printable(v) && NoNulls(v)
    requires Matches(s, i, PrintValue(v, depth, fmt))
    requires Ends(v, At(s, i + |PrintValue(v, depth, fmt)|))
    ensures i <= |s| && Reads(ParseValue(s, i), InLong(v), v, i + |PrintValue(v, depth, fmt)|)
  {
    hide PrintValue, Printable, NoNulls, ParseValue, Derives, ValueOf, Matches, InLong, NumbersFit, Strict;
    var d := PrintedDerives(s, i, v, depth, fmt);
    NumbersOf(d, v);
    if d.IsNumber? { NumberEnds(d, s, i, i + |PrintValue(v, depth, fmt)|); }
    DerivedRead(d, s, i, i + |PrintValue(v, depth, fmt)|);
  }

  lemma NumbersOf(d: Doc, v: Value)
    requires Of(d, v)
    ensures Strict(d) && (d.IsNumber? ==> v.Num?)
  {
  }

  /** Main result: whatever stands behind the printed text, provided it cannot extend a number, the parser
      returns the tree and stops right behind the text, if and only if `long` can hold its numbers. */
  lemma RoundTrip(v: Value, depth: nat, fmt: bool, rest: text)
    requires Printable(v) && NoNulls(v)
    requires Ends(v, At(rest, 0))
    ensures var t := PrintValue(v, depth, fmt);
      NUL !in t && Reads(ParseValue(t + rest, 0), InLong(v), v, |t|)
  {
    hide PrintValue, Printable, NoNulls, ParseValue, Ends, InLong;
    var t := PrintValue(v, depth, fmt);
    PrintedIsText(v, depth, fmt);
    ParsePrintValue(t + rest, 0, v, depth, fmt);
  }

  /** `cJSON_Parse(cJSON_Print(v))` and `cJSON_Parse(cJSON_PrintUnformatted(v))` give v, under that condition. */
  lemma ParsePrint(v: Value, fmt: bool)
    requires Printable(v) && NoNulls(v)
    ensures NUL !in PrintValue(v, 0, fmt)
    ensures Reads(Parse(PrintValue(v, 0, fmt)), InLong(v), v, |PrintValue(v, 0, fmt)|)
  {
    hide PrintValue, Printable, NoNulls, ParseValue, Derives, ValueOf, InLong, NumbersFit, Strict;
    var t := PrintValue(v, 0, fmt);
    PrintedIsText(v, 0, fmt);
    assert t[0..0 + |t|] == t;
    var d := PrintedDerives(t, 0, v, 0, fmt);
    TextRead(d, t, 0, |t|);
  }

  /** Consequently no two different trees print alike. */
  lemma PrintIsInjective(v: Value, w: Value, fmt: bool)
    requires Printable(v) && NoNulls(v) && Printable(w) && NoNulls(w) && InLong(v)
    requires PrintValue(v, 0, fmt) == PrintValue(w, 0, fmt)
    ensures v == w
  {
    ParsePrint(v, fmt);
    ParsePrint(w, fmt);
  }
}
