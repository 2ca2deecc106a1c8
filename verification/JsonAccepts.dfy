/** The parser of json/cJSON.c accepts exactly what its grammar derives: the converse of reading a derived text,
    and both together. */
module JsonAccepts {
  import opened CText
  import opened JsonValue
  import opened JsonParse
  import opened JsonLiteral
  import opened JsonGrammar
  import Json = JsonNumeral
  import opened JsonNumber

  // ---- a value that was read was derived ----

  /** A derivation of what was read, up to where the parser stopped. */
  ghost predicate Explains(d: Doc, s: text, i: nat, r: Parsed<Value>) {
    r.Ok? && DerivesAll(d, s, i, r.next) && NumbersFit(d) && ValueOf(d) == r.value
  }

  lemma {:induction false} ValueDerived(s: text, i: nat) returns (d: Doc)
    requires i <= |s| && ParseValue(s, i).Ok?
    ensures Explains(d, s, i, ParseValue(s, i))
    decreases |s| - i, 1
  {
    hide ParseValue, ParseArray, ParseObject, ParseString, Explains;
    Begins(s, i);
    if At(s, i) == QUOTE {
      d := StringDerived(s, i);
    } else if At(s, i) == MINUS || IsDigit(At(s, i)) {
      d := NumberDerived(s, i);
    } else if At(s, i) == LBRACKET {
      d := ArrayDerived(s, i);
    } else if At(s, i) == LBRACE {
      d := ObjectDerived(s, i);
    } else {
      d := WordDerived(s, i);
    }
  }

  /** What a value begins with. */
  lemma Begins(s: text, i: nat)
    requires i <= |s| && ParseValue(s, i).Ok?
    ensures i < |s|
    ensures Matches(s, i, NULL_TEXT) || Matches(s, i, FALSE_TEXT) || Matches(s, i, TRUE_TEXT) || s[i] == QUOTE
            || s[i] == MINUS || IsDigit(s[i]) || s[i] == LBRACKET || s[i] == LBRACE
  {
    hide ParseArray, ParseObject, ParseString, ParseNumber, CountersFit;
  }

  lemma WordDerived(s: text, i: nat) returns (d: Doc)
    requires i <= |s| && ParseValue(s, i).Ok?
    requires Matches(s, i, NULL_TEXT) || Matches(s, i, FALSE_TEXT) || Matches(s, i, TRUE_TEXT)
    ensures Explains(d, s, i, ParseValue(s, i))
  {
    d := if Matches(s, i, NULL_TEXT) then IsNull else if Matches(s, i, FALSE_TEXT) then IsFalse else IsTrue;
    WordRead(d, s, i, if d.IsFalse? then i + 5 else i + 4);
  }

  lemma StringDerived(s: text, i: nat) returns (d: Doc)
    requires i < |s| && s[i] == QUOTE && ParseValue(s, i).Ok?
    ensures Explains(d, s, i, ParseValue(s, i))
  {
    hide ParseValue, StoredAll, Legible, StringAt;
    FromString(s, i);
    var cs, e := LiteralDerived(s, i);
    d := IsString(cs);
    DerivedRead(d, s, i, e);
  }

  /** A string that is no value makes the value fail. */
  lemma FromString(s: text, i: nat)
    requires i < |s| && s[i] == QUOTE && ParseValue(s, i).Ok?
    ensures ParseString(s, i).Ok?
  {
    hide ParseString, ParseArray, ParseObject, ParseNumber, CountersFit;
    if Matches(s, i, NULL_TEXT) { MatchesByte(s, i, NULL_TEXT, 0); }
    if Matches(s, i, FALSE_TEXT) { MatchesByte(s, i, FALSE_TEXT, 0); }
    if Matches(s, i, TRUE_TEXT) { MatchesByte(s, i, TRUE_TEXT, 0); }
  }

  lemma LiteralDerived(s: text, i: nat) returns (cs: Literal, e: nat)
    requires i <= |s| && ParseString(s, i).Ok?
    ensures StringAt(cs, s, i, e) && ParseString(s, i) == Ok(StoredAll(cs), e)
  {
    hide StoredAll, Legible, Stands;
    cs := LiteralExists(s, i + 1);
    var end := i + 1 + |WrittenAll(cs)|;
    e := if end < |s| then end + 1 else end;
    LiteralParsed(cs, s, i, e);
  }

  lemma NumberDerived(s: text, i: nat) returns (d: Doc)
    requires i < |s| && (s[i] == MINUS || IsDigit(s[i])) && ParseValue(s, i).Ok?
    ensures Explains(d, s, i, ParseValue(s, i))
  {
    hide ParseValue, Json.Legible, Json.Meaning, Json.Written, Json.CountersHold;
    var n := Json.LongestExists(s, i);
    d := IsNumber(n);
    NumberRead(n, s, i, i + |Json.Written(n)|);
  }

  // Derivations of what stands in brackets; what they are read as is known from there on.

  lemma {:induction false} ArrayDerived(s: text, i: nat) returns (d: Doc)
    requires i < |s| && s[i] == LBRACKET && ParseValue(s, i).Ok?
    ensures Explains(d, s, i, ParseValue(s, i))
    decreases |s| - i, 0
  {
    hide ParseValue, ParseItems, ItemsDerive, NumbersFit, ValueOf;
    Dispatch(s, i);
    var j, e := Skip(s, i + 1), 0;
    if At(s, j) == RBRACKET {
      d, e := IsArray([]), j + 1;
    } else {
      var items;
      items, e := ItemsDerived(s, j);
      ItemsFromFurther(items, s, i + 1, j, e);
      d := IsArray(items);
    }
    DerivedRead(d, s, i, e);
  }

  lemma {:induction false} ItemsDerived(s: text, j: nat) returns (items: seq<Element>, e: nat)
    requires j <= |s| && ParseItems(s, j).Ok?
    ensures items != [] && ItemsDerive(items, s, j, e)
    decreases |s| - j, 2
  {
    hide ParseValue, Derives, NumbersFit, ValueOf;
    var d := ValueDerived(s, Skip(s, j));
    var end := ParseValue(s, Skip(s, j)).next;
    var stop := Skip(s, end);
    var x := Element(Skip(s, j), d, end, stop);
    if At(s, stop) == COMMA {
      var more;
      more, e := ItemsDerived(s, stop + 1);
      items := [x] + more;
      assert items[1..] == more;
    } else {
      items, e := [x], stop + 1;
    }
  }

  /** White space may stand in front. */
  lemma ItemsFromFurther(items: seq<Element>, s: text, p: nat, j: nat, e: nat)
    requires items != [] && Blank(s, p, j) && ItemsDerive(items, s, j, e)
    ensures ItemsDerive(items, s, p, e)
  {
    hide Derives;
  }

  lemma {:induction false} ObjectDerived(s: text, i: nat) returns (d: Doc)
    requires i < |s| && s[i] == LBRACE && ParseValue(s, i).Ok?
    ensures Explains(d, s, i, ParseValue(s, i))
    decreases |s| - i, 0
  {
    hide ParseValue, ParseMembers, EntriesDerive, NumbersFit, ValueOf;
    Dispatch(s, i);
    var j, e := Skip(s, i + 1), 0;
    if At(s, j) == RBRACE {
      d, e := IsObject([]), j + 1;
    } else {
      var members;
      members, e := EntriesDerived(s, j);
      EntriesFromFurther(members, s, i + 1, j, e);
      d := IsObject(members);
    }
    DerivedRead(d, s, i, e);
  }

  lemma {:induction false} EntriesDerived(s: text, j: nat) returns (members: seq<NamedElement>, e: nat)
    requires j <= |s| && ParseMembers(s, j).Ok?
    ensures members != [] && EntriesDerive(members, s, j, e)
    decreases |s| - j, 3
  {
    hide ParseMember, EntryDerives;
    var m := EntryDerived(s, j);
    var stop := m.item.stop;
    if At(s, stop) == COMMA {
      var more;
      more, e := EntriesDerived(s, stop + 1);
      members := [m] + more;
      assert members[1..] == more;
    } else {
      members, e := [m], stop + 1;
    }
  }

  lemma {:induction false} EntryDerived(s: text, j: nat) returns (m: NamedElement)
    requires j <= |s| && ParseMember(s, j).Ok?
    ensures EntryDerives(m, s, j) && m.item.stop == Skip(s, ParseMember(s, j).next)
    decreases |s| - j, 2
  {
    hide ParseValue, ParseString, Derives, NumbersFit, ValueOf, StringAt, StoredAll, Legible;
    var start := Skip(s, j);
    var name, end := LiteralDerived(s, start);
    var colon := Skip(s, end);
    var d := ValueDerived(s, Skip(s, colon + 1));
    var behind := ParseValue(s, Skip(s, colon + 1)).next;
    m := NamedElement(start, name, end, colon, Element(Skip(s, colon + 1), d, behind, Skip(s, behind)));
  }

  lemma EntriesFromFurther(members: seq<NamedElement>, s: text, p: nat, j: nat, e: nat)
    requires members != [] && Blank(s, p, j) && EntriesDerive(members, s, j, e)
    ensures EntriesDerive(members, s, p, e)
  {
    hide ItemDerives, StringAt, Legible;
  }

  // ---- both directions ----

  /** `parse_value` accepts a text from i to e as the value v if and only if the text in between can be derived as v
      with numbers that the counters hold and that are not cut short; and where it fails, nothing can be derived. */
  lemma AcceptedIff(s: text, i: nat, v: Value, e: nat)
    requires i <= |s|
    ensures ParseValue(s, i) == Ok(v, e) <==> exists d :: DerivesAll(d, s, i, e) && NumbersFit(d) && ValueOf(d) == v
  {
    hide ParseValue, Derives, NumbersFit, ValueOf;
    if ParseValue(s, i) == Ok(v, e) { var d := ValueDerived(s, i); }
    forall d | DerivesAll(d, s, i, e) ensures Reads(ParseValue(s, i), NumbersFit(d), ValueOf(d), e) {
      DerivedRead(d, s, i, e);
    }
  }

  lemma FailsOnlyIf(s: text, i: nat, d: Doc, e: nat)
    requires i <= |s| && Derives(d, s, i, e)
    ensures !ParseValue(s, i).Fail?
  {
    hide ParseValue, NumbersFit, ValueOf, Json.Written, Json.Legible;
    if d.IsNumber? {
      NumberStart(s, i, d.n);
      var n := Json.LongestExists(s, i);
      DerivedRead(IsNumber(n), s, i, i + |Json.Written(n)|);
    } else {
      DerivedRead(d, s, i, e);
    }
  }

  /** The text begins with white space, then something that is derived as v, and may go on in any way. */
  ghost predicate Begun(s: text, d: Doc, i: nat, e: nat) { Blank(s, 0, i) && DerivesAll(d, s, i, e) }

  /** `cJSON_Parse`, likewise. */
  lemma ParsedIff(s: text, v: Value, e: nat)
    ensures Parse(s) == Ok(v, e) <==> exists d, i :: Begun(s, d, i, e) && NumbersFit(d) && ValueOf(d) == v
    ensures Parse(s).Fail? ==> !exists d, i :: Begun(s, d, i, e)
  {
    hide ParseValue, Derives, NumbersFit, ValueOf;
    AcceptedIff(s, Skip(s, 0), v, e);
    if Parse(s) == Ok(v, e) {
      var d :| DerivesAll(d, s, Skip(s, 0), e) && NumbersFit(d) && ValueOf(d) == v;
      assert Begun(s, d, Skip(s, 0), e);
    }
    forall d, i | Begun(s, d, i, e) ensures i == Skip(s, 0) && !Parse(s).Fail? {
      FirstByteOf(d, s, i, e);
      FailsOnlyIf(s, i, d, e);
    }
  }
}
