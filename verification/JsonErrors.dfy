/** Where the parser of json/cJSON.c fails, which `cJSON_GetErrorPtr` tells: what stands in front of the error is
    right, and nothing that may stand there does. */
module JsonErrors {
  import opened CText
  import opened JsonValue
  import opened JsonParse
  import opened JsonLiteral
  import opened JsonGrammar
  import opened JsonAccepts
  import opened JsonNumber

  /** No value begins; or something inside the brackets is wrong. */
  datatype Failure = NoValue | InArray(items: ItemsFailure) | InObject(members: MembersFailure)

  /** An item is wrong; or what stands behind it is; or the item is right, and the error is in a later one. */
  datatype ItemsFailure =
    | Inside(start: nat, f: Failure)
    | Behind(x: Element)
    | Later(x: Element, rest: ItemsFailure)

  /** There is no name; or no colon behind it; or the value is wrong; or as for items. */
  datatype MembersFailure =
    | NoName(start: nat)
    | NoColon(m: NamedElement)
    | InsideMember(m: NamedElement, f: Failure)
    | BehindMember(m: NamedElement)
    | LaterMember(m: NamedElement, rest: MembersFailure)

  /** All white space from p on, up to j. */
  ghost predicate Starts(s: text, p: nat, j: nat) { Blank(s, p, j) && (j < |s| ==> s[j] > SPACE) }

  predicate ValueBegins(s: text, i: nat) {
    Matches(s, i, NULL_TEXT) || Matches(s, i, FALSE_TEXT) || Matches(s, i, TRUE_TEXT)
        || At(s, i) in {QUOTE, MINUS, LBRACKET, LBRACE} || IsDigit(At(s, i))
  }

  /** White space, a value, white space. */
  ghost predicate WholeItem(x: Element, s: text, p: nat) {
    Starts(s, p, x.start) && DerivesAll(x.doc, s, x.start, x.end) && NumbersFit(x.doc) && Starts(s, x.end, x.stop)
  }

  /** White space, a name, white space. */
  ghost predicate WholeName(m: NamedElement, s: text, p: nat) {
    Starts(s, p, m.start) && StringAt(m.name, s, m.start, m.end) && Starts(s, m.end, m.colon)
  }

  ghost predicate WholeMember(m: NamedElement, s: text, p: nat) {
    WholeName(m, s, p) && At(s, m.colon) == COLON && WholeItem(m.item, s, m.colon + 1)
  }

  ghost predicate IsEmpty(s: text, p: nat, bracket: byte) { exists e :: Closed(s, p, bracket, e) }

  /** A value that starts at i is wrong at ep. */
  ghost predicate FailsAt(f: Failure, s: text, i: nat, ep: nat)
    decreases f
  {
    match f
    case NoValue => ep == i && !ValueBegins(s, i)
    case InArray(t) => At(s, i) == LBRACKET && !IsEmpty(s, i + 1, RBRACKET) && ItemsFailAt(t, s, i + 1, ep)
    case InObject(t) => At(s, i) == LBRACE && !IsEmpty(s, i + 1, RBRACE) && MembersFailAt(t, s, i + 1, ep)
  }

  ghost predicate ItemsFailAt(t: ItemsFailure, s: text, p: nat, ep: nat)
    decreases t
  {
    match t
    case Inside(start, f) => Starts(s, p, start) && FailsAt(f, s, start, ep)
    case Behind(x) => WholeItem(x, s, p) && ep == x.stop && At(s, ep) != COMMA && At(s, ep) != RBRACKET
    case Later(x, rest) => WholeItem(x, s, p) && At(s, x.stop) == COMMA && ItemsFailAt(rest, s, x.stop + 1, ep)
  }

  ghost predicate MembersFailAt(t: MembersFailure, s: text, p: nat, ep: nat)
    decreases t
  {
    match t
    case NoName(start) => Starts(s, p, start) && ep == start && At(s, ep) != QUOTE
    case NoColon(m) => WholeName(m, s, p) && ep == m.colon && At(s, ep) != COLON
    case InsideMember(m, f) =>
      WholeName(m, s, p) && At(s, m.colon) == COLON && Starts(s, m.colon + 1, m.item.start)
      && FailsAt(f, s, m.item.start, ep)
    case BehindMember(m) => WholeMember(m, s, p) && ep == m.item.stop && At(s, ep) != COMMA && At(s, ep) != RBRACE
    case LaterMember(m, rest) =>
      WholeMember(m, s, p) && At(s, m.item.stop) == COMMA && MembersFailAt(rest, s, m.item.stop + 1, ep)
  }

  // ---- the parts in front of the error ----

  lemma StartsIs(s: text, p: nat, j: nat)
    ensures p <= |s| ==> (Starts(s, p, j) <==> j == Skip(s, p))
    ensures Starts(s, p, j) ==> p <= |s|
  {
  }

  lemma EmptyIs(s: text, p: nat, bracket: byte)
    requires p <= |s| && bracket > SPACE
    ensures IsEmpty(s, p, bracket) <==> At(s, Skip(s, p)) == bracket
  {
    if At(s, Skip(s, p)) == bracket { assert Closed(s, p, bracket, Skip(s, p) + 1); }
  }

  lemma FromSkip(s: text, p: nat)
    requires p <= |s|
    ensures ParseItems(s, Skip(s, p)) == ParseItems(s, p)
  {
    hide ParseValue, ItemsAfter;
    SkipAgain(s, p);
  }

  lemma MembersFromSkip(s: text, p: nat)
    requires p <= |s|
    ensures ParseMembers(s, Skip(s, p)) == ParseMembers(s, p)
  {
    hide ParseMember, MembersAfter, Skip;
    MemberFromSkip(s, p);
  }

  lemma MemberFromSkip(s: text, p: nat)
    requires p <= |s|
    ensures ParseMember(s, Skip(s, p)) == ParseMember(s, p)
  {
    hide ParseValue, ParseString;
    SkipAgain(s, p);
  }

  lemma ItemIsRead(x: Element, s: text, p: nat)
    requires WholeItem(x, s, p)
    ensures p <= |s| && x.start == Skip(s, p) && ParseValue(s, x.start) == Ok(ValueOf(x.doc), x.end)
    ensures x.end <= |s| && x.stop == Skip(s, x.end)
  {
    hide ParseValue, Derives, NumbersFit, ValueOf, Skip;
    StartsIs(s, p, x.start);
    StartsIs(s, x.end, x.stop);
    DerivedRead(x.doc, s, x.start, x.end);
  }

  lemma NameIsRead(m: NamedElement, s: text, p: nat)
    requires WholeName(m, s, p)
    ensures p <= |s| && m.start == Skip(s, p) && ParseString(s, m.start) == Ok(StoredAll(m.name), m.end)
    ensures m.end <= |s| && m.colon == Skip(s, m.end)
  {
    hide ParseString, StringAt, StoredAll, Skip;
    StartsIs(s, p, m.start);
    StartsIs(s, m.end, m.colon);
    StringRead(m.name, s, m.start, m.end);
  }

  ghost predicate FailsAlike(r: Parsed<seq<Member>>, q: Parsed<seq<Member>>) {
    (r.Fail? <==> q.Fail?) && (r.Fail? ==> r.ep == q.ep)
  }

  /** How members go on behind a name. */
  lemma BehindName(m: NamedElement, s: text, p: nat)
    requires WholeName(m, s, p)
    ensures p < m.colon <= |s| && (At(s, m.colon) != COLON ==> ParseMembers(s, p) == Fail(m.colon))
    ensures At(s, m.colon) == COLON ==>
      var r := ParseValue(s, Skip(s, m.colon + 1));
      && (r.Fail? ==> ParseMembers(s, p) == Fail(r.ep)) && (r.Wild? ==> ParseMembers(s, p).Wild?)
      && (r.Ok? ==> FailsAlike(ParseMembers(s, p), MembersAfter(s, Skip(s, r.next))))
  {
    hide ParseValue, WholeName, ParseString, MembersAfter, Skip, StoredAll;
    NameIsRead(m, s, p);
  }

  lemma BehindValue(s: text, q: nat)
    requires q <= |s|
    ensures At(s, q) == COMMA ==> MembersAfter(s, q) == ParseMembers(s, q + 1)
    ensures At(s, q) != COMMA ==> MembersAfter(s, q) == if At(s, q) == RBRACE then Ok([], q + 1) else Fail(q)
  {
    hide ParseMembers;
  }

  lemma BehindMemberIs(m: NamedElement, s: text, p: nat)
    requires WholeMember(m, s, p)
    ensures p <= |s| && m.item.stop <= |s|
    ensures At(s, m.item.stop) == COMMA ==> FailsAlike(ParseMembers(s, p), ParseMembers(s, m.item.stop + 1))
    ensures At(s, m.item.stop) != COMMA && At(s, m.item.stop) != RBRACE ==> ParseMembers(s, p) == Fail(m.item.stop)
  {
    hide ParseValue, ParseMembers, MembersAfter, WholeItem, WholeName, Starts, Skip;
    BehindName(m, s, p);
    ItemIsRead(m.item, s, m.colon + 1);
    BehindValue(s, m.item.stop);
  }

  lemma NoNameFails(s: text, p: nat)
    requires p <= |s|
    ensures ParseString(s, Skip(s, p)).Fail? <==> At(s, Skip(s, p)) != QUOTE
    ensures At(s, Skip(s, p)) != QUOTE ==> ParseMembers(s, p) == Fail(Skip(s, p))
    ensures ParseString(s, Skip(s, p)).Wild? ==> ParseMembers(s, p).Wild?
  {
    hide ParseValue, MembersAfter, Skip;
  }

  // ---- an error that is described is reported ----

  lemma {:induction false} FailureReported(f: Failure, s: text, i: nat, ep: nat)
    requires i <= |s| && FailsAt(f, s, i, ep)
    ensures ParseValue(s, i) == Fail(ep)
    decreases f
  {
    hide ParseItems, ParseMembers, ParseString, ParseNumber, CountersFit, ItemsFailAt, MembersFailAt, IsEmpty, Skip;
    match f
    case NoValue =>
    case InArray(t) =>
      Dispatch(s, i);
      EmptyIs(s, i + 1, RBRACKET);
      ItemsFailureReported(t, s, i + 1, ep);
      FromSkip(s, i + 1);
    case InObject(t) =>
      Dispatch(s, i);
      EmptyIs(s, i + 1, RBRACE);
      MembersFailureReported(t, s, i + 1, ep);
      MembersFromSkip(s, i + 1);
  }

  lemma {:induction false} ItemsFailureReported(t: ItemsFailure, s: text, p: nat, ep: nat)
    requires p <= |s| && ItemsFailAt(t, s, p, ep)
    ensures ParseItems(s, p) == Fail(ep)
    decreases t
  {
    hide ParseValue, FailsAt, WholeItem, Starts, Skip;
    match t
    case Inside(start, f) =>
      StartsIs(s, p, start);
      FailureReported(f, s, start, ep);
    case Behind(x) =>
      ItemIsRead(x, s, p);
    case Later(x, rest) =>
      ItemIsRead(x, s, p);
      ItemsFailureReported(rest, s, x.stop + 1, ep);
  }

  lemma {:induction false} MembersFailureReported(t: MembersFailure, s: text, p: nat, ep: nat)
    requires p <= |s| && MembersFailAt(t, s, p, ep)
    ensures ParseMembers(s, p) == Fail(ep)
    decreases t
  {
    hide ParseValue, ParseMembers, FailsAt, WholeItem, WholeName, Starts, Skip;
    match t
    case NoName(start) =>
      StartsIs(s, p, start);
      NoNameFails(s, p);
    case NoColon(m) =>
      BehindName(m, s, p);
    case InsideMember(m, f) =>
      BehindName(m, s, p);
      StartsIs(s, m.colon + 1, m.item.start);
      FailureReported(f, s, m.item.start, ep);
    case BehindMember(m) =>
      BehindMemberIs(m, s, p);
    case LaterMember(m, rest) =>
      BehindMemberIs(m, s, p);
      MembersFailureReported(rest, s, m.item.stop + 1, ep);
  }

  // ---- a reported error is described ----

  lemma {:induction false} FailureDescribed(s: text, i: nat) returns (f: Failure)
    requires i <= |s| && ParseValue(s, i).Fail?
    ensures FailsAt(f, s, i, ParseValue(s, i).ep)
    decreases |s| - i, 1
  {
    hide ParseItems, ParseMembers, ParseString, ParseNumber, CountersFit, ItemsFailAt, MembersFailAt, IsEmpty, Skip;
    var ep := ParseValue(s, i).ep;
    if At(s, i) == LBRACKET {
      Dispatch(s, i);
      EmptyIs(s, i + 1, RBRACKET);
      FromSkip(s, i + 1);
      var t := ItemsFailureDescribed(s, i + 1);
      f := InArray(t);
    } else if At(s, i) == LBRACE {
      Dispatch(s, i);
      EmptyIs(s, i + 1, RBRACE);
      MembersFromSkip(s, i + 1);
      var t := MembersFailureDescribed(s, i + 1);
      f := InObject(t);
    } else {
      f := NoValue;
      StringsDoNotFail(s, i);
    }
  }

  lemma StringsDoNotFail(s: text, i: nat)
    requires i <= |s|
    ensures At(s, i) == QUOTE <==> !ParseString(s, i).Fail?
  {
  }

  lemma {:induction false} ItemsFailureDescribed(s: text, p: nat) returns (t: ItemsFailure)
    requires p <= |s| && ParseItems(s, p).Fail?
    ensures ItemsFailAt(t, s, p, ParseItems(s, p).ep)
    decreases |s| - p, 2
  {
    hide ParseValue, FailsAt, Derives, NumbersFit, ValueOf, Skip;
    var start := Skip(s, p);
    StartsIs(s, p, start);
    if ParseValue(s, start).Fail? {
      var f := FailureDescribed(s, start);
      t := Inside(start, f);
    } else {
      var d := ValueDerived(s, start);
      var end := ParseValue(s, start).next;
      var x := Element(start, d, end, Skip(s, end));
      StartsIs(s, end, x.stop);
      if At(s, x.stop) == COMMA {
        var rest := ItemsFailureDescribed(s, x.stop + 1);
        t := Later(x, rest);
      } else {
        t := Behind(x);
      }
    }
  }

  lemma {:induction false} MembersFailureDescribed(s: text, p: nat) returns (t: MembersFailure)
    requires p <= |s| && ParseMembers(s, p).Fail?
    ensures MembersFailAt(t, s, p, ParseMembers(s, p).ep)
    decreases |s| - p, 3
  {
    hide ParseValue, ParseMembers, FailsAt, Skip, ParseString, StringAt, StoredAll, Legible;
    var start := Skip(s, p);
    StartsIs(s, p, start);
    NoNameFails(s, p);
    if At(s, start) != QUOTE {
      t := NoName(start);
    } else {
      StringsDoNotFail(s, start);
      var name, end := LiteralDerived(s, start);
      var m := NamedElement(start, name, end, Skip(s, end), Element(0, IsNull, 0, 0));
      StartsIs(s, end, m.colon);
      BehindName(m, s, p);
      if At(s, m.colon) != COLON {
        t := NoColon(m);
      } else {
        t := ValueFailureDescribed(s, p, m);
      }
    }
  }

  lemma WithItem(m: NamedElement, x: Element, s: text, p: nat)
    requires WholeName(m, s, p)
    ensures WholeName(m.(item := x), s, p)
  {
    hide StringAt;
  }

  /** The same behind a name and its colon. */
  lemma {:induction false} ValueFailureDescribed(s: text, p: nat, m: NamedElement) returns (t: MembersFailure)
    requires p <= |s| && ParseMembers(s, p).Fail?
    requires WholeName(m, s, p) && At(s, m.colon) == COLON
    ensures MembersFailAt(t, s, p, ParseMembers(s, p).ep)
    decreases |s| - p, 2
  {
    hide ParseValue, ParseMembers, MembersAfter, FailsAt, Derives, NumbersFit, ValueOf, Skip, WholeName, Legible;
    BehindName(m, s, p);
    var start := Skip(s, m.colon + 1);
    StartsIs(s, m.colon + 1, start);
    if ParseValue(s, start).Fail? {
      var f := FailureDescribed(s, start);
      WithItem(m, Element(start, IsNull, 0, 0), s, p);
      t := InsideMember(m.(item := Element(start, IsNull, 0, 0)), f);
    } else {
      var d := ValueDerived(s, start);
      var end := ParseValue(s, start).next;
      var x := Element(start, d, end, Skip(s, end));
      StartsIs(s, end, x.stop);
      BehindValue(s, x.stop);
      WithItem(m, x, s, p);
      if At(s, x.stop) == COMMA {
        var rest := MembersFailureDescribed(s, x.stop + 1);
        t := LaterMember(m.(item := x), rest);
      } else {
        t := BehindMember(m.(item := x));
      }
    }
  }

  /** `cJSON_Parse` fails and sets `ep` to a position exactly if what stands from the first value on up to there is
      derived and its numbers are held, and at that position no value begins, or no name, or no colon, or neither a
      comma nor a closing bracket stands, whichever would have to. */
  lemma FailedIff(s: text, ep: nat)
    ensures Parse(s) == Fail(ep) <==> exists f, i :: Starts(s, 0, i) && FailsAt(f, s, i, ep)
  {
    hide ParseValue, FailsAt;
    StartsIs(s, 0, Skip(s, 0));
    if Parse(s) == Fail(ep) {
      var f := FailureDescribed(s, Skip(s, 0));
      assert FailsAt(f, s, Skip(s, 0), ep);
    }
    forall f, i | Starts(s, 0, i) && FailsAt(f, s, i, ep) ensures Parse(s) == Fail(ep) {
      StartsIs(s, 0, i);
      FailureReported(f, s, i, ep);
    }
  }
}
