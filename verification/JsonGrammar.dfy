/** JSON texts by the grammar of RFC 8259 and what they mean: when the parser of json/cJSON.c accepts one, and
    when it reads it as what it means. A derivation says which part of the text is which; white space, for which
    the parser takes any control byte, may stand around every token. Derivations are those of the wider grammar
    of the parser, whose strings and numbers may be irregular; those of RFC 8259 are `Strict`. */
module JsonGrammar {
  import opened CText
  import opened JsonValue
  import opened JsonParse
  import opened JsonLiteral
  import Json = JsonNumeral
  import opened JsonNumber
  import opened JsonString

  type Numeral = n: Json.Numeral | Json.Legible(n) witness Json.Numeral(false, [0x30], [], Json.NoPower)

  datatype Doc =
    | IsNull | IsFalse | IsTrue
    | IsNumber(n: Numeral)
    | IsString(cs: Literal)
    | IsArray(items: seq<Element>)
    | IsObject(members: seq<NamedElement>)

  /** A value from start to end, and the position stop of the comma or closing bracket behind it. */
  datatype Element = Element(start: nat, doc: Doc, end: nat, stop: nat)

  /** A name from start to end, the position of the colon, and the value. */
  datatype NamedElement = NamedElement(start: nat, name: Literal, end: nat, colon: nat, item: Element)

  // ---- the grammar ----

  /** d derives the text from i to e. */
  ghost predicate Derives(d: Doc, s: text, i: nat, e: nat)
    decreases d, 0
  {
    match d
    case IsNull => Matches(s, i, NULL_TEXT) && e == i + 4
    case IsFalse => Matches(s, i, FALSE_TEXT) && e == i + 5
    case IsTrue => Matches(s, i, TRUE_TEXT) && e == i + 4
    case IsNumber(n) => Matches(s, i, Json.Written(n)) && e == i + |Json.Written(n)|
    case IsString(cs) => StringAt(cs, s, i, e)
    case IsArray(items) =>
      At(s, i) == LBRACKET && if items == [] then Closed(s, i + 1, RBRACKET, e) else ItemsDerive(items, s, i + 1, e)
    case IsObject(members) =>
      At(s, i) == LBRACE && if members == [] then Closed(s, i + 1, RBRACE, e) else EntriesDerive(members, s, i + 1, e)
  }

  /** White space from p on, and the closing bracket in front of e. */
  ghost predicate Closed(s: text, p: nat, bracket: byte, e: nat) {
    e > p && Blank(s, p, e - 1) && At(s, e - 1) == bracket
  }

  /** White space, a value, white space. */
  ghost predicate ItemDerives(x: Element, s: text, p: nat)
    decreases x, 0
  {
    Blank(s, p, x.start) && Derives(x.doc, s, x.start, x.end) && Blank(s, x.end, x.stop)
  }

  /** Items separated by commas, from p through the closing bracket in front of e. */
  ghost predicate ItemsDerive(items: seq<Element>, s: text, p: nat, e: nat)
    requires items != []
    decreases items, 0
  {
    var x := items[0];
    ItemDerives(x, s, p) &&
    if |items| == 1 then At(s, x.stop) == RBRACKET && e == x.stop + 1
    else At(s, x.stop) == COMMA && ItemsDerive(items[1..], s, x.stop + 1, e)
  }

  /** White space, a name, white space, a colon. */
  ghost predicate NameDerives(m: NamedElement, s: text, p: nat) {
    Blank(s, p, m.start) && StringAt(m.name, s, m.start, m.end) && Blank(s, m.end, m.colon) && At(s, m.colon) == COLON
  }

  /** A name, a colon and a value. */
  ghost predicate EntryDerives(m: NamedElement, s: text, p: nat)
    decreases m, 0
  {
    NameDerives(m, s, p) && ItemDerives(m.item, s, m.colon + 1)
  }

  ghost predicate EntriesDerive(members: seq<NamedElement>, s: text, p: nat, e: nat)
    requires members != []
    decreases members, 0
  {
    var m := members[0];
    EntryDerives(m, s, p) &&
    if |members| == 1 then At(s, m.item.stop) == RBRACE && e == m.item.stop + 1
    else At(s, m.item.stop) == COMMA && EntriesDerive(members[1..], s, m.item.stop + 1, e)
  }

  /** All strings and numbers are those of RFC 8259. */
  ghost predicate Strict(d: Doc) {
    match d
    case IsNumber(n) => Json.WellFormed(n)
    case IsString(cs) => WellFormedAll(cs)
    case IsArray(items) => forall k | 0 <= k < |items| :: Strict(items[k].doc)
    case IsObject(members) =>
      forall k | 0 <= k < |members| :: WellFormedAll(members[k].name) && Strict(members[k].item.doc)
    case _ => true
  }

  // ---- what the parser stores, and what is meant ----

  ghost function ValueOf(d: Doc): Value {
    match d
    case IsNull => Value.Null
    case IsFalse => Value.False
    case IsTrue => Value.True
    case IsNumber(n) => Num(Json.Meaning(n))
    case IsString(cs) => String(Str(StoredAll(cs)))
    case IsArray(items) => Array(seq(|items|, k requires 0 <= k < |items| => ValueOf(items[k].doc)))
    case IsObject(members) =>
      Object(seq(|members|, k requires 0 <= k < |members| =>
          Member(Str(StoredAll(members[k].name)), ValueOf(members[k].item.doc))))
  }

  /** The value v is what d means. */
  ghost predicate Means(d: Doc, v: Value) {
    match d
    case IsNull => v == Value.Null
    case IsFalse => v == Value.False
    case IsTrue => v == Value.True
    case IsNumber(n) => v == Num(Json.Meaning(n))
    case IsString(cs) => v.String? && TextMeans(cs, v.s)
    case IsArray(items) =>
      v.Array? && |v.items| == |items| && forall k | 0 <= k < |items| :: Means(items[k].doc, v.items[k])
    case IsObject(members) =>
      v.Object? && |v.members| == |members|
      && forall k | 0 <= k < |members| ::
           TextMeans(members[k].name, v.members[k].name) && Means(members[k].item.doc, v.members[k].value)
  }

  ghost predicate TextMeans(cs: Literal, t: CStr) { t.Str? && Paired(cs) && t.bytes == MeaningOf(cs) }

  /** Every string has a meaning, escapes no NUL and has no high surrogate whose bit 6 is set. */
  ghost predicate AllFaithfulIn(d: Doc) {
    match d
    case IsString(cs) => FaithfulAll(cs)
    case IsArray(items) => forall k | 0 <= k < |items| :: AllFaithfulIn(items[k].doc)
    case IsObject(members) =>
      forall k | 0 <= k < |members| :: FaithfulAll(members[k].name) && AllFaithfulIn(members[k].item.doc)
    case _ => true
  }

  /** The counters of `parse_number` can hold every number. */
  ghost predicate NumbersFit(d: Doc) {
    match d
    case IsNumber(n) => Json.CountersHold(n)
    case IsArray(items) => forall k | 0 <= k < |items| :: NumbersFit(items[k].doc)
    case IsObject(members) => forall k | 0 <= k < |members| :: NumbersFit(members[k].item.doc)
    case _ => true
  }

  ghost predicate AllFit(items: seq<Element>) { forall k | 0 <= k < |items| :: NumbersFit(items[k].doc) }

  ghost predicate AllFitIn(members: seq<NamedElement>) {
    forall k | 0 <= k < |members| :: NumbersFit(members[k].item.doc)
  }

  lemma TextIff(cs: Literal)
    ensures TextMeans(cs, Str(StoredAll(cs))) <==> FaithfulAll(cs)
  {
    hide StoredAll, MeaningOf, Legible, Faithful;
    if Paired(cs) { LiteralFaithful(cs); }
  }

  ghost predicate EntryIff(m: NamedElement) {
    && (TextMeans(m.name, Str(StoredAll(m.name))) <==> FaithfulAll(m.name))
    && (Means(m.item.doc, ValueOf(m.item.doc)) <==> AllFaithfulIn(m.item.doc))
  }

  lemma {:induction false} MeaningIff(d: Doc)
    ensures Means(d, ValueOf(d)) <==> AllFaithfulIn(d)
  {
    hide StoredAll, MeaningOf, Legible, Json.Legible, Json.Meaning, TextMeans, FaithfulAll;
    match d
    case IsString(cs) => TextIff(cs);
    case IsArray(items) => forall k | 0 <= k < |items| { MeaningIff(items[k].doc); }
    case IsObject(members) =>
      forall k | 0 <= k < |members| ensures EntryIff(members[k]) {
        TextIff(members[k].name);
        MeaningIff(members[k].item.doc);
      }
    case _ =>
  }

  // ---- the parser ----

  // Which parser a first byte selects, and the defining equations of the list parsers.

  /** Where a value is sent, by its first byte. */
  lemma Dispatch(s: text, i: nat)
    requires i < |s|
    ensures s[i] == LBRACKET ==> ParseValue(s, i) == ParseArray(s, i)
    ensures s[i] == LBRACE ==> ParseValue(s, i) == ParseObject(s, i)
    ensures s[i] == QUOTE && ParseString(s, i).Ok? ==>
              ParseValue(s, i) == Ok(String(Str(ParseString(s, i).value)), ParseString(s, i).next)
    ensures s[i] == MINUS || IsDigit(s[i]) ==>
              ParseValue(s, i) ==
                if CountersFit(s, i) then Ok(Num(ParseNumber(s, i).value), ParseNumber(s, i).next) else Wild(i)
  {
    hide ParseArray, ParseObject, ParseString, ParseNumber, CountersFit, Matches;
    if Matches(s, i, NULL_TEXT) { MatchesByte(s, i, NULL_TEXT, 0); }
    if Matches(s, i, FALSE_TEXT) { MatchesByte(s, i, FALSE_TEXT, 0); }
    if Matches(s, i, TRUE_TEXT) { MatchesByte(s, i, TRUE_TEXT, 0); }
  }

  /** v is read, up to e, if the numbers fit; otherwise one overflows. */
  ghost predicate Reads<T>(r: Parsed<T>, fit: bool, v: T, e: nat) { if fit then r == Ok(v, e) else r.Wild? }

  lemma LastItem(s: text, n: nat)
    requires n <= |s| && At(s, n) == RBRACKET
    ensures Reads(ItemsAfter(s, n), true, [], n + 1)
  {
  }

  lemma ItemsStep(s: text, j: nat, one: bool, v: Value, n: nat, more: bool, rest: seq<Value>, end: nat)
    requires j <= |s| && Reads(ParseValue(s, Skip(s, j)), one, v, n)
    requires n <= |s| && Reads(ItemsAfter(s, Skip(s, n)), more, rest, end)
    ensures Reads(ParseItems(s, j), one && more, [v] + rest, end)
  {
  }

  lemma MembersStep(s: text, j: nat, one: bool, m: Member, n: nat, more: bool, rest: seq<Member>, end: nat)
    requires j <= |s| && Reads(ParseMember(s, j), one, m, n)
    requires n <= |s| && Reads(MembersAfter(s, Skip(s, n)), more, rest, end)
    ensures Reads(ParseMembers(s, j), one && more, [m] + rest, end)
  {
  }

  /** The first byte of a value: no white space and no closing bracket. */
  lemma FirstByteOf(d: Doc, s: text, i: nat, e: nat)
    requires Derives(d, s, i, e)
    ensures At(s, i) > SPACE && At(s, i) != RBRACKET
  {
    hide Json.Legible, Legible, ItemsDerive, EntriesDerive, Json.Written;
    match d
    case IsNull => MatchesByte(s, i, NULL_TEXT, 0);
    case IsFalse => MatchesByte(s, i, FALSE_TEXT, 0);
    case IsTrue => MatchesByte(s, i, TRUE_TEXT, 0);
    case IsNumber(n) => NumberStart(s, i, n);
    case IsString(cs) => StringRead(cs, s, i, e);
    case _ =>
  }

  lemma NumberStart(s: text, i: nat, n: Numeral)
    requires Matches(s, i, Json.Written(n))
    ensures i < |s| && (s[i] == MINUS || IsDigit(s[i])) && Json.Written(n) != []
  {
    MatchesByte(s, i, Json.Written(n), 0);
  }

  // Every derived text is read to its end.

  lemma StringRead(cs: Literal, s: text, i: nat, e: nat)
    requires StringAt(cs, s, i, e)
    ensures i < |s| && s[i] == QUOTE && ParseString(s, i) == Ok(StoredAll(cs), e)
  {
    hide Legible, StringAt, StoredAll, Matches, ParseString;
    LiteralParsed(cs, s, i, e);
  }

  lemma WordRead(d: Doc, s: text, i: nat, e: nat)
    requires Derives(d, s, i, e) && (d.IsNull? || d.IsFalse? || d.IsTrue?)
    ensures i <= |s| && ParseValue(s, i) == Ok(ValueOf(d), e)
  {
    var t: bytes := if d.IsNull? then NULL_TEXT else if d.IsFalse? then FALSE_TEXT else TRUE_TEXT;
    MatchesByte(s, i, t, 0);
    if Matches(s, i, NULL_TEXT) { MatchesByte(s, i, NULL_TEXT, 0); }
    if Matches(s, i, FALSE_TEXT) { MatchesByte(s, i, FALSE_TEXT, 0); }
  }

  lemma NumberRead(n: Numeral, s: text, i: nat, e: nat)
    requires Derives(IsNumber(n), s, i, e) && Json.Longest(n, s, i)
    ensures i <= |s| && Reads(ParseValue(s, i), Json.CountersHold(n), Num(Json.Meaning(n)), e)
  {
    hide Json.Legible, Json.Written, Json.Meaning, Json.CountersHold, ParseValue, ParseNumber, CountersFit;
    NumberStart(s, i, n);
    Json.LongestIff(s, i, n);
    Json.NumeralParsed(s, i, n);
    Dispatch(s, i);
  }

  /** A derivation from i to e in which a number is not cut short. Inside brackets a comma, a bracket or white
      space follows every number anyway. */
  ghost predicate DerivesAll(d: Doc, s: text, i: nat, e: nat) {
    Derives(d, s, i, e) && (d.IsNumber? ==> Json.Longest(d.n, s, i))
  }

  /** Behind a number stands a byte that cannot extend it. */
  lemma NumberEnds(d: Doc, s: text, i: nat, e: nat)
    requires Derives(d, s, i, e) && d.IsNumber? && !ExtendsNumber(At(s, e))
    requires Strict(d) || (At(s, e) != 0x2B && At(s, e) != MINUS)
    ensures DerivesAll(d, s, i, e)
  {
    Json.StopsAt(d.n, s, e);
    Json.LongestIff(s, i, d.n);
  }

  /** The text that a derivation derives is read to its end, as the value of the derivation, if the counters
      can hold its numbers; and one of them overflows otherwise. */
  lemma {:induction false} DerivedRead(d: Doc, s: text, i: nat, e: nat)
    requires DerivesAll(d, s, i, e)
    ensures i <= |s| && Reads(ParseValue(s, i), NumbersFit(d), ValueOf(d), e)
    decreases d, 0
  {
    hide Json.CountersHold, Json.Legible, Legible, Json.Written, Json.Meaning, StoredAll, ParseValue, Matches;
    hide ParseString;
    if d.IsNumber? {
      NumberRead(d.n, s, i, e);
    } else if d.IsString? {
      StringRead(d.cs, s, i, e);
      Dispatch(s, i);
    } else if d.IsArray? {
      ArrayRead(d.items, s, i, e);
    } else if d.IsObject? {
      ObjectRead(d.members, s, i, e);
    } else {
      WordRead(d, s, i, e);
    }
  }

  lemma {:induction false} ArrayRead(items: seq<Element>, s: text, i: nat, e: nat)
    requires Derives(IsArray(items), s, i, e)
    ensures i <= |s| && Reads(ParseValue(s, i), NumbersFit(IsArray(items)), ValueOf(IsArray(items)), e)
    decreases items, 1
  {
    hide Json.Legible, Legible, StoredAll, ParseValue, Matches, ItemsDerive, ParseItems;
    if items == [] {
      NoValues();
      Dispatch(s, i);
    } else {
      var p := ItemsRead(items, s, i + 1, e);
      Dispatch(s, i);
    }
  }

  ghost function ValuesOf(items: seq<Element>): seq<Value> {
    seq(|items|, k requires 0 <= k < |items| => ValueOf(items[k].doc))
  }

  ghost function MembersOf(members: seq<NamedElement>): seq<Member> {
    seq(|members|, k requires 0 <= k < |members| =>
        Member(Str(StoredAll(members[k].name)), ValueOf(members[k].item.doc)))
  }

  lemma NoValues()
    ensures ValuesOf([]) == [] && MembersOf([]) == [] && AllFit([]) && AllFitIn([])
  {
  }

  lemma ValuesSplit(items: seq<Element>)
    requires items != []
    ensures ValuesOf(items) == [ValueOf(items[0].doc)] + ValuesOf(items[1..])
    ensures AllFit(items) <==> NumbersFit(items[0].doc) && AllFit(items[1..])
  {
    hide ValueOf, NumbersFit;
    assert items == [items[0]] + items[1..];
  }

  lemma MembersSplit(members: seq<NamedElement>)
    requires members != []
    ensures MembersOf(members) ==
      [Member(Str(StoredAll(members[0].name)), ValueOf(members[0].item.doc))] + MembersOf(members[1..])
    ensures AllFitIn(members) <==> NumbersFit(members[0].item.doc) && AllFitIn(members[1..])
  {
    hide ValueOf, StoredAll, NumbersFit;
    assert members == [members[0]] + members[1..];
  }

  /** One value with the white space around it; end is where the parser stops behind the value. */
  lemma {:induction false} ItemRead(x: Element, s: text, p: nat)
    requires ItemDerives(x, s, p) && At(s, x.stop) in {COMMA, RBRACKET, RBRACE}
    ensures p <= |s| && Skip(s, p) == x.start && At(s, x.start) != RBRACKET
    ensures Reads(ParseValue(s, x.start), NumbersFit(x.doc), ValueOf(x.doc), x.end)
    ensures x.end <= |s| && Skip(s, x.end) == x.stop
    decreases x, 1
  {
    hide Derives, ValueOf, ParseValue;
    if x.doc.IsNumber? { NumberEnds(x.doc, s, x.start, x.end); }
    DerivedRead(x.doc, s, x.start, x.end);
    FirstByteOf(x.doc, s, x.start, x.end);
  }

  lemma {:induction false} ItemsRead(items: seq<Element>, s: text, p: nat, e: nat) returns (j: nat)
    requires items != [] && ItemsDerive(items, s, p, e)
    ensures p <= |s| && Reads(ParseItems(s, p), AllFit(items), ValuesOf(items), e)
    ensures j == Skip(s, p) && At(s, j) != RBRACKET && Reads(ParseItems(s, j), AllFit(items), ValuesOf(items), e)
    decreases items, 0
  {
    hide ItemDerives, ParseValue, ItemsAfter, ParseItems, ValuesOf, ValueOf, Skip, NumbersFit, AllFit, Reads;
    var x := items[0];
    j := x.start;
    ValuesSplit(items);
    if |items| == 1 {
      NoValues();
      assert items[1..] == [];
      ItemRead(x, s, p);
      LastItem(s, x.stop);
    } else {
      var q := ItemsRead(items[1..], s, x.stop + 1, e);
      ItemRead(x, s, p);
      NextItems(s, x.stop);
    }
    ItemsStep(s, p, NumbersFit(x.doc), ValueOf(x.doc), x.end, AllFit(items[1..]), ValuesOf(items[1..]), e);
    SkipAgain(s, p);
    ItemsStep(s, j, NumbersFit(x.doc), ValueOf(x.doc), x.end, AllFit(items[1..]), ValuesOf(items[1..]), e);
  }

  lemma SkipAgain(s: text, p: nat)
    requires p <= |s|
    ensures Skip(s, Skip(s, p)) == Skip(s, p)
  {
  }

  lemma {:induction false} ObjectRead(members: seq<NamedElement>, s: text, i: nat, e: nat)
    requires Derives(IsObject(members), s, i, e)
    ensures i <= |s| && Reads(ParseValue(s, i), NumbersFit(IsObject(members)), ValueOf(IsObject(members)), e)
    decreases members, 1
  {
    hide Json.Legible, Legible, StoredAll, ParseValue, Matches, EntriesDerive, ParseMembers;
    if members == [] {
      NoValues();
      Dispatch(s, i);
    } else {
      var p := EntriesRead(members, s, i + 1, e);
      Dispatch(s, i);
    }
  }

  /** A name, the colon and the value; j is where the parser starts, in the white space in front. */
  lemma EntryRead(m: NamedElement, s: text, j: nat, c: nat, fit: bool, v: Value, n: nat)
    requires j <= |s| && m.start <= |s| && Skip(s, j) == m.start
    requires ParseString(s, m.start) == Ok(StoredAll(m.name), m.end)
    requires m.end <= |s| && Skip(s, m.end) == m.colon && At(s, m.colon) == COLON
    requires c == Skip(s, m.colon + 1) && Reads(ParseValue(s, c), fit, v, n)
    ensures Reads(ParseMember(s, j), fit, Member(Str(StoredAll(m.name)), v), n)
  {
    hide ParseValue, ParseString, Skip, StoredAll, Legible;
  }

  lemma NameRead(m: NamedElement, s: text, p: nat)
    requires NameDerives(m, s, p)
    ensures p <= |s| && Skip(s, p) == m.start && m.start < |s| && s[m.start] == QUOTE
    ensures ParseString(s, m.start) == Ok(StoredAll(m.name), m.end)
    ensures m.end <= |s| && Skip(s, m.end) == m.colon && At(s, m.colon) == COLON
  {
    hide Legible, WrittenAll, StoredAll, Matches, ParseString;
    StringRead(m.name, s, m.start, m.end);
  }

  lemma {:induction false} EntriesRead(members: seq<NamedElement>, s: text, p: nat, e: nat) returns (j: nat)
    requires members != [] && EntriesDerive(members, s, p, e)
    ensures p <= |s| && Reads(ParseMembers(s, p), AllFitIn(members), MembersOf(members), e)
    ensures j == Skip(s, p) && At(s, j) != RBRACE && Reads(ParseMembers(s, j), AllFitIn(members), MembersOf(members), e)
    decreases members, 0
  {
    hide ItemDerives, NameDerives, ParseValue, ParseString, ParseMember, MembersAfter, ParseMembers, MembersOf, ValueOf;
    hide Skip;
    hide StoredAll, Legible, NumbersFit, AllFitIn, Reads;
    var m, x := members[0], members[0].item;
    j := m.start;
    MembersSplit(members);
    if |members| == 1 {
      NoValues();
      assert members[1..] == [];
      ItemRead(x, s, m.colon + 1);
      LastMember(s, x.stop);
    } else {
      var q := EntriesRead(members[1..], s, x.stop + 1, e);
      ItemRead(x, s, m.colon + 1);
      NextMembers(s, x.stop);
    }
    NameRead(m, s, p);
    var fit, one := NumbersFit(x.doc), Member(Str(StoredAll(m.name)), ValueOf(x.doc));
    EntryRead(m, s, p, x.start, fit, ValueOf(x.doc), x.end);
    SkipAgain(s, p);
    EntryRead(m, s, j, x.start, fit, ValueOf(x.doc), x.end);
    MembersStep(s, p, fit, one, x.end, AllFitIn(members[1..]), MembersOf(members[1..]), e);
    MembersStep(s, j, fit, one, x.end, AllFitIn(members[1..]), MembersOf(members[1..]), e);
  }

  lemma LastMember(s: text, n: nat)
    requires n <= |s| && At(s, n) == RBRACE
    ensures Reads(MembersAfter(s, n), true, [], n + 1)
  {
  }

  /** The whole text is white space, a value by the grammar of RFC 8259, and white space. */
  ghost predicate IsText(d: Doc, s: text, i: nat, e: nat) {
    Blank(s, 0, i) && Derives(d, s, i, e) && Blank(s, e, |s|) && Strict(d) && ClosedString(d, i, e)
  }

  /** A string between two quotes. */
  ghost predicate ClosedString(d: Doc, i: nat, e: nat) { d.IsString? ==> e == i + |Quoted(d.cs)| }

  /** `cJSON_Parse` on a JSON text: it is accepted, with the value of its derivation, if the counters can hold
      its numbers, and a counter overflows otherwise. It is read as what it means exactly if, besides, every
      surrogate in it is paired, no NUL is escaped and no high surrogate has bit 6 set. */
  lemma TextRead(d: Doc, s: text, i: nat, e: nat)
    requires IsText(d, s, i, e)
    ensures Reads(Parse(s), NumbersFit(d), ValueOf(d), e)
    ensures Parse(s).Ok? && Means(d, Parse(s).value) <==> NumbersFit(d) && AllFaithfulIn(d)
  {
    hide Derives, ParseValue, Means, AllFaithfulIn, NumbersFit, ValueOf, Strict;
    if d.IsNumber? { NumberEnds(d, s, i, e); }
    DerivedRead(d, s, i, e);
    FirstByteOf(d, s, i, e);
    MeaningIff(d);
  }
}
