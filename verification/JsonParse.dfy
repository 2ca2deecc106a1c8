/** What the recursive-descent parser of json/cJSON.c computes when no allocation fails. */
module JsonParse {
  import opened CText
  import opened JsonString
  import opened JsonNumber
  import opened JsonValue

  /** A parsed value with the position behind it; or the error position `ep` of a failure; or the start of a
      token for which the behaviour of the C code is left open. */
  datatype Parsed<+T> = Ok(value: T, next: nat) | Fail(ep: nat) | Wild(at: nat)

  /** Such a token: a literal with an incomplete escape, or a number that overflows a counter. */
  ghost predicate IsWild(s: text, at: nat) {
    at < |s| &&
    if s[at] == QUOTE then !Complete(s, at + 1) else (s[at] == MINUS || IsDigit(s[at])) && !CountersFit(s, at)
  }

  /** Successful parsing makes progress; an error lies inside the input or at its terminator. */
  ghost predicate Within<T>(r: Parsed<T>, s: text, i: nat) {
    match r
    case Ok(_, next) => i < next <= |s|
    case Fail(ep) => i <= ep <= |s|
    case Wild(at) => i <= at && IsWild(s, at)
  }

  /** `parse_string`. A literal that the input leaves open is accepted. */
  function ParseString(s: text, i: nat): (r: Parsed<text>)
    requires i <= |s|
    ensures Within(r, s, i)
  {
    if At(s, i) != QUOTE then Fail(i)
    else if !Complete(s, i + 1) then Wild(i)
    else
      var u := Unescape(s, i + 1);
      if At(s, u.next) == QUOTE then Ok(u.out, u.next + 1) else Ok(u.out, u.next)
  }

  /** `parse_value`. */
  function ParseValue(s: text, i: nat): (r: Parsed<Value>)
    requires i <= |s|
    ensures Within(r, s, i)
    decreases |s| - i, 1
  {
    if Matches(s, i, NULL_TEXT) then Ok(Null, i + 4)
    else if Matches(s, i, FALSE_TEXT) then Ok(False, i + 5)
    else if Matches(s, i, TRUE_TEXT) then Ok(True, i + 4)
    else if At(s, i) == QUOTE then
      match ParseString(s, i)
      case Ok(t, next) => Ok(String(Str(t)), next)
      case Fail(ep) => Fail(ep)
      case Wild(at) => Wild(at)
    else if At(s, i) == MINUS || IsDigit(At(s, i)) then
      if !CountersFit(s, i) then Wild(i)
      else
        var n := ParseNumber(s, i);
        Ok(Num(n.value), n.next)
    else if At(s, i) == LBRACKET then ParseArray(s, i)
    else if At(s, i) == LBRACE then ParseObject(s, i)
    else Fail(i)
  }

  /** `parse_array`. */
  function ParseArray(s: text, i: nat): (r: Parsed<Value>)
    requires At(s, i) == LBRACKET
    ensures Within(r, s, i)
    decreases |s| - i, 0
  {
    var j := Skip(s, i + 1);
    if At(s, j) == RBRACKET then Ok(Array([]), j + 1)
    else
      match ParseItems(s, j)
      case Ok(items, next) => Ok(Array(items), next)
      case Fail(ep) => Fail(ep)
      case Wild(at) => Wild(at)
  }

  /** The items from position j on, through the closing bracket. */
  function ParseItems(s: text, j: nat): (r: Parsed<seq<Value>>)
    requires j <= |s|
    ensures Within(r, s, j)
    decreases |s| - j, 2
  {
    match ParseValue(s, Skip(s, j))
    case Fail(ep) => Fail(ep)
    case Wild(at) => Wild(at)
    case Ok(v, next) =>
      match ItemsAfter(s, Skip(s, next))
      case Fail(ep) => Fail(ep)
      case Wild(at) => Wild(at)
      case Ok(rest, end) => Ok([v] + rest, end)
  }

  /** What follows an item: a comma and more items, or the closing bracket. */
  function ItemsAfter(s: text, p: nat): (r: Parsed<seq<Value>>)
    requires p <= |s|
    ensures Within(r, s, p)
    decreases |s| - p, 0
  {
    if At(s, p) == COMMA then ParseItems(s, p + 1)
    else if At(s, p) == RBRACKET then Ok([], p + 1)
    else Fail(p)
  }

  /** A result with what was parsed before it. */
  function Prepend<T>(front: seq<T>, r: Parsed<seq<T>>): Parsed<seq<T>> {
    match r
    case Ok(rest, end) => Ok(front + rest, end)
    case Fail(ep) => Fail(ep)
    case Wild(at) => Wild(at)
  }

  /** One more item, parsed from p on: the whole is known up to what follows it. */
  lemma ItemParsed(s: text, whole: Parsed<seq<Value>>, front: seq<Value>, p: nat)
    requires p <= |s| && whole == Prepend(front, ParseItems(s, p))
    ensures match ParseValue(s, Skip(s, p))
            case Fail(ep) => whole == Fail(ep)
            case Wild(at) => whole == Wild(at)
            case Ok(v, next) => p < next <= |s|
                                && whole == Prepend(front + [v], ItemsAfter(s, Skip(s, next)))
  {
    hide ParseValue, ItemsAfter;
    match ParseValue(s, Skip(s, p))
    case Fail(_) =>
    case Wild(_) =>
    case Ok(v, next) =>
      match ItemsAfter(s, Skip(s, next))
      case Fail(_) =>
      case Wild(_) =>
      case Ok(rest, end) => assert front + ([v] + rest) == front + [v] + rest;
  }

  lemma PrependNothing<T>(r: Parsed<seq<T>>)
    ensures r == Prepend([], r)
  {
    if r.Ok? { assert [] + r.value == r.value; }
  }

  lemma NextItems(s: text, p: nat)
    requires p <= |s| && At(s, p) == COMMA
    ensures ItemsAfter(s, p) == ParseItems(s, p + 1)
  {
  }

  lemma LastItems(s: text, p: nat, front: seq<Value>)
    requires p <= |s| && At(s, p) != COMMA
    ensures Prepend(front, ItemsAfter(s, p)) == if At(s, p) == RBRACKET then Ok(front, p + 1) else Fail(p)
  {
    assert front + [] == front;
  }

  /** `parse_object`. */
  function ParseObject(s: text, i: nat): (r: Parsed<Value>)
    requires At(s, i) == LBRACE
    ensures Within(r, s, i)
    decreases |s| - i, 0
  {
    var j := Skip(s, i + 1);
    if At(s, j) == RBRACE then Ok(Object([]), j + 1)
    else
      match ParseMembers(s, j)
      case Ok(members, next) => Ok(Object(members), next)
      case Fail(ep) => Fail(ep)
      case Wild(at) => Wild(at)
  }

  /** One `name : value` from position j on. */
  function ParseMember(s: text, j: nat): (r: Parsed<Member>)
    requires j <= |s|
    ensures Within(r, s, j)
    decreases |s| - j, 2
  {
    match ParseString(s, Skip(s, j))
    case Fail(ep) => Fail(ep)
    case Wild(at) => Wild(at)
    case Ok(name, next) =>
      var p := Skip(s, next);
      if At(s, p) != COLON then Fail(p)
      else
        match ParseValue(s, Skip(s, p + 1))
        case Fail(ep) => Fail(ep)
        case Wild(at) => Wild(at)
        case Ok(v, end) => Ok(Member(Str(name), v), end)
  }

  function ParseMembers(s: text, j: nat): (r: Parsed<seq<Member>>)
    requires j <= |s|
    ensures Within(r, s, j)
    decreases |s| - j, 3
  {
    match ParseMember(s, j)
    case Fail(ep) => Fail(ep)
    case Wild(at) => Wild(at)
    case Ok(m, next) =>
      match MembersAfter(s, Skip(s, next))
      case Fail(ep) => Fail(ep)
      case Wild(at) => Wild(at)
      case Ok(rest, end) => Ok([m] + rest, end)
  }

  function MembersAfter(s: text, p: nat): (r: Parsed<seq<Member>>)
    requires p <= |s|
    ensures Within(r, s, p)
    decreases |s| - p, 0
  {
    if At(s, p) == COMMA then ParseMembers(s, p + 1)
    else if At(s, p) == RBRACE then Ok([], p + 1)
    else Fail(p)
  }

  /** One more member, parsed from p on. */
  lemma MemberParsed(s: text, whole: Parsed<seq<Member>>, front: seq<Member>, p: nat)
    requires p <= |s| && whole == Prepend(front, ParseMembers(s, p))
    ensures match ParseMember(s, p)
            case Fail(ep) => whole == Fail(ep)
            case Wild(at) => whole == Wild(at)
            case Ok(m, next) => p < next <= |s|
                                && whole == Prepend(front + [m], MembersAfter(s, Skip(s, next)))
  {
    hide ParseMember, MembersAfter;
    match ParseMember(s, p)
    case Fail(_) =>
    case Wild(_) =>
    case Ok(m, next) =>
      match MembersAfter(s, Skip(s, next))
      case Fail(_) =>
      case Wild(_) =>
      case Ok(rest, end) => assert front + ([m] + rest) == front + [m] + rest;
  }

  lemma NextMembers(s: text, p: nat)
    requires p <= |s| && At(s, p) == COMMA
    ensures MembersAfter(s, p) == ParseMembers(s, p + 1)
  {
  }

  lemma LastMembers(s: text, p: nat, front: seq<Member>)
    requires p <= |s| && At(s, p) != COMMA
    ensures Prepend(front, MembersAfter(s, p)) == if At(s, p) == RBRACE then Ok(front, p + 1) else Fail(p)
  {
    assert front + [] == front;
  }

  /** `cJSON_Parse`: white space, then a value; what follows the value is not looked at. */
  function Parse(s: text): (r: Parsed<Value>)
    ensures r.Ok? ==> 0 < r.next <= |s|
    ensures r.Fail? ==> r.ep <= |s|
    ensures r.Wild? ==> IsWild(s, r.at)
  {
    ParseValue(s, Skip(s, 0))
  }
}
