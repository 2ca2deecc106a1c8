/** JSON trees as values, and the text that json/cJSON.c prints for them. */
module JsonValue {
  import opened CText
  import opened JsonString
  import opened JsonNumber

  datatype Value =
    | Null
    | False
    | True
    | Num(d: real)
    | String(s: CStr)
    | Array(items: seq<Value>)
    | Object(members: seq<Member>)

  /** A child of an object: its name (`string`, null only if a duplication failed) and its value. */
  datatype Member = Member(name: CStr, value: Value)

  /** Every number is an integer whose text fits in the buffer of `print_number`. */
  predicate Printable(v: Value) {
    match v
    case Num(d) => FitsBuffer(d)
    case Array(items) => forall x | x in items :: Printable(x)
    case Object(members) => forall m | m in members :: Printable(m.value)
    case _ => true
  }

  /** Every number is an integer that a `long` can hold, so that `parse_number` can read it. */
  predicate InLong(v: Value) {
    match v
    case Num(d) => IsLong(d)
    case Array(items) => forall k | 0 <= k < |items| :: InLong(items[k])
    case Object(members) => forall k | 0 <= k < |members| :: InLong(members[k].value)
    case _ => true
  }

  /** No string or name is null. */
  predicate NoNulls(v: Value) {
    match v
    case String(s) => s.Str?
    case Array(items) => forall x | x in items :: NoNulls(x)
    case Object(members) => forall m | m in members :: m.name.Str? && NoNulls(m.value)
    case _ => true
  }

  const NULL_TEXT: bytes := [0x6E, 0x75, 0x6C, 0x6C]
  const FALSE_TEXT: bytes := [0x66, 0x61, 0x6C, 0x73, 0x65]
  const TRUE_TEXT: bytes := [0x74, 0x72, 0x75, 0x65]

  function Tabs(n: nat): (t: bytes)
    ensures |t| == n && forall k | 0 <= k < n :: t[k] == TAB
  {
    if n == 0 then [] else [TAB] + Tabs(n - 1)
  }

  /** The separators of formatted output; empty in unformatted output. */
  function If(fmt: bool, t: bytes): bytes { if fmt then t else [] }

  function InBrackets(body: bytes): bytes { [LBRACKET] + body + [RBRACKET] }

  function InBraces(line: bytes, body: bytes, tabs: bytes): bytes { [LBRACE] + line + body + tabs + [RBRACE] }

  function Pair(tabs: bytes, name: bytes, tab: bytes, value: bytes, comma: bytes, line: bytes): bytes {
    tabs + name + ([COLON] + tab) + value + (comma + line)
  }

  /** `print_value`. */
  function PrintValue(v: Value, depth: nat, fmt: bool): (t: bytes)
    requires Printable(v)
    decreases v, 1
  {
    match v
    case Null => NULL_TEXT
    case False => FALSE_TEXT
    case True => TRUE_TEXT
    case Num(d) => PrintInt(Trunc(d))
    case String(s) => PrintString(s)
    case Array(items) => InBrackets(PrintItems(items, depth + 1, fmt))
    case Object(members) => InBraces(If(fmt, [NEWLINE]), PrintMembers(members, depth + 1, fmt), If(fmt, Tabs(depth)))
  }

  /** The entries of an array, comma separated, from the given one on. */
  function PrintItems(items: seq<Value>, depth: nat, fmt: bool): (t: bytes)
    requires forall x | x in items :: Printable(x)
    decreases items, 0
  {
    if items == [] then []
    else
      var first := PrintValue(items[0], depth, fmt);
      if |items| == 1 then first
      else first + ([COMMA] + If(fmt, [SPACE])) + PrintItems(items[1..], depth, fmt)
  }

  /** One member of an object, up to and including what separates it from the next one. */
  function PrintMember(m: Member, last: bool, depth: nat, fmt: bool): (t: bytes)
    requires Printable(m.value)
    decreases m, 2
  {
    Pair(If(fmt, Tabs(depth)), PrintString(m.name), If(fmt, [TAB]), PrintValue(m.value, depth, fmt),
         If(!last, [COMMA]), If(fmt, [NEWLINE]))
  }

  function PrintMembers(members: seq<Member>, depth: nat, fmt: bool): (t: bytes)
    requires forall m | m in members :: Printable(m.value)
    decreases members, 0
  {
    if members == [] then []
    else PrintMember(members[0], |members| == 1, depth, fmt) + PrintMembers(members[1..], depth, fmt)
  }

  lemma NothingPrinted(depth: nat, fmt: bool)
    ensures PrintItems([], depth, fmt) == [] && PrintMembers([], depth, fmt) == []
  {
  }

  /** The text of an array and of an object, without the definition of PrintValue. */
  lemma ContainerText(items: seq<Value>, members: seq<Member>, depth: nat, fmt: bool)
    requires (forall x | x in items :: Printable(x)) && forall m | m in members :: Printable(m.value)
    ensures PrintValue(Array(items), depth, fmt) == InBrackets(PrintItems(items, depth + 1, fmt))
    ensures PrintValue(Object(members), depth, fmt) ==
            InBraces(If(fmt, [NEWLINE]), PrintMembers(members, depth + 1, fmt), If(fmt, Tabs(depth)))
  {
  }

  // ---- the sizes that print_array and print_object compute ----

  /** The contribution of one entry to `len` in `print_array`. */
  function ItemSize(v: Value, depth: nat, fmt: bool): nat
    requires Printable(v)
  {
    |PrintValue(v, depth, fmt)| + 2 + (if fmt then 1 else 0)
  }

  function ItemsSize(items: seq<Value>, depth: nat, fmt: bool): nat
    requires forall x | x in items :: Printable(x)
  {
    if items == [] then 0 else ItemSize(items[0], depth, fmt) + ItemsSize(items[1..], depth, fmt)
  }

  /** The contribution of one entry to `len` in `print_object`. */
  function MemberSize(m: Member, depth: nat, fmt: bool): nat
    requires Printable(m.value)
  {
    |PrintValue(m.value, depth, fmt)| + |PrintString(m.name)| + 2 + (if fmt then 2 + depth else 0)
  }

  function MembersSize(members: seq<Member>, depth: nat, fmt: bool): nat
    requires forall m | m in members :: Printable(m.value)
  {
    if members == [] then 0 else MemberSize(members[0], depth, fmt) + MembersSize(members[1..], depth, fmt)
  }

  lemma {:induction false} ItemsFit(items: seq<Value>, depth: nat, fmt: bool)
    requires forall x | x in items :: Printable(x)
    ensures |PrintItems(items, depth, fmt)| <= ItemsSize(items, depth, fmt)
  {
    if items != [] { ItemsFit(items[1..], depth, fmt); }
  }

  lemma {:induction false} MembersFit(members: seq<Member>, depth: nat, fmt: bool)
    requires forall m | m in members :: Printable(m.value)
    ensures |PrintMembers(members, depth, fmt)| <= MembersSize(members, depth, fmt)
  {
    if members != [] { MembersFit(members[1..], depth, fmt); }
  }

  /** The buffer of `print_array` holds its text and the terminator. */
  lemma ArrayFits(items: seq<Value>, depth: nat, fmt: bool)
    requires forall x | x in items :: Printable(x)
    ensures |PrintValue(Array(items), depth, fmt)| + 1 <= 5 + ItemsSize(items, depth + 1, fmt)
  {
    ItemsFit(items, depth + 1, fmt);
  }

  /** The buffer of `print_object` holds its text and the terminator. */
  lemma ObjectFits(members: seq<Member>, depth: nat, fmt: bool)
    requires forall m | m in members :: Printable(m.value)
    ensures |PrintValue(Object(members), depth, fmt)| + 1
         <= 7 + (if fmt then depth + 1 else 0) + MembersSize(members, depth + 1, fmt)
  {
    MembersFit(members, depth + 1, fmt);
  }

  // ---- printed text is a C string ----

  lemma {:induction false} EscapeIsText(t: text)
    ensures NUL !in Escape(t)
  {
    if t != [] { EscapeIsText(t[1..]); }
  }

  lemma {:induction false} PrintedIsText(v: Value, depth: nat, fmt: bool)
    requires Printable(v)
    ensures NUL !in PrintValue(v, depth, fmt)
    decreases v, 1
  {
    match v
    case Null =>
    case False =>
    case True =>
    case Num(d) =>
    case String(c) => if c.Str? { EscapeIsText(c.bytes); }
    case Array(items) => ItemsAreText(items, depth + 1, fmt);
    case Object(members) => MembersAreText(members, depth + 1, fmt);
  }

  lemma {:induction false} ItemsAreText(items: seq<Value>, depth: nat, fmt: bool)
    requires forall x | x in items :: Printable(x)
    ensures NUL !in PrintItems(items, depth, fmt)
    decreases items, 0
  {
    hide PrintValue, Printable;
    if items != [] {
      PrintedIsText(items[0], depth, fmt);
      ItemsAreText(items[1..], depth, fmt);
    }
  }

  lemma {:induction false} MemberIsText(m: Member, last: bool, depth: nat, fmt: bool)
    requires Printable(m.value)
    ensures NUL !in PrintMember(m, last, depth, fmt)
    decreases m, 2
  {
    hide PrintValue, Printable, Escape;
    if m.name.Str? { EscapeIsText(m.name.bytes); }
    PrintedIsText(m.value, depth, fmt);
  }

  lemma {:induction false} MembersAreText(members: seq<Member>, depth: nat, fmt: bool)
    requires forall m | m in members :: Printable(m.value)
    ensures NUL !in PrintMembers(members, depth, fmt)
    decreases members, 0
  {
    hide PrintMember, Printable;
    if members != [] {
      MemberIsText(members[0], |members| == 1, depth, fmt);
      MembersAreText(members[1..], depth, fmt);
    }
  }
}
