/** How json/cJSON.c lays out arrays and objects, formatted and unformatted: the texts of the children, joined. */
module JsonLayout {
  import opened CText
  import opened JsonString
  import opened JsonNumber
  import opened JsonValue

  /** The texts with a separator between each two. */
  function Joined(ts: seq<bytes>, sep: bytes): bytes {
    if ts == [] then [] else if |ts| == 1 then ts[0] else ts[0] + sep + Joined(ts[1..], sep)
  }

  function Indent(depth: nat): bytes { seq(depth, _ => 0x09) }

  function Texts(items: seq<Value>, depth: nat, fmt: bool): seq<bytes>
    requires forall x | x in items :: Printable(x)
  {
    seq(|items|, k requires 0 <= k < |items| => PrintValue(items[k], depth, fmt))
  }

  /** Formatted, a member stands in a line of its own, with a tab for every level and one behind the colon. */
  function Line(m: Member, depth: nat, fmt: bool): bytes
    requires Printable(m.value)
  {
    if fmt then Indent(depth) + PrintString(m.name) + [0x3A, 0x09] + PrintValue(m.value, depth, fmt)
    else PrintString(m.name) + [0x3A] + PrintValue(m.value, depth, fmt)
  }

  function Lines(members: seq<Member>, depth: nat, fmt: bool): seq<bytes>
    requires forall m | m in members :: Printable(m.value)
  {
    seq(|members|, k requires 0 <= k < |members| => Line(members[k], depth, fmt))
  }

  lemma {:induction false} ItemsJoined(items: seq<Value>, depth: nat, fmt: bool)
    requires forall x | x in items :: Printable(x)
    ensures PrintItems(items, depth, fmt) == Joined(Texts(items, depth, fmt), if fmt then [0x2C, 0x20] else [0x2C])
  {
    hide PrintValue, Printable;
    if items != [] {
      ItemsJoined(items[1..], depth, fmt);
      assert Texts(items, depth, fmt)[1..] == Texts(items[1..], depth, fmt);
    }
  }

  /** An array: the items in brackets, separated by a comma, and formatted by a comma and a space. */
  lemma ArrayText(items: seq<Value>, depth: nat, fmt: bool)
    requires forall x | x in items :: Printable(x)
    ensures PrintValue(Array(items), depth, fmt) ==
      [0x5B] + Joined(Texts(items, depth + 1, fmt), if fmt then [0x2C, 0x20] else [0x2C]) + [0x5D]
  {
    hide PrintItems, PrintValue, Printable;
    ContainerText(items, [], depth, fmt);
    ItemsJoined(items, depth + 1, fmt);
  }

  lemma TabsAre(depth: nat)
    ensures Tabs(depth) == Indent(depth)
  {
  }

  lemma MemberIs(m: Member, last: bool, depth: nat, fmt: bool)
    requires Printable(m.value)
    ensures PrintMember(m, last, depth, fmt) ==
      Line(m, depth, fmt) + (if last then [] else [0x2C]) + (if fmt then [0x0A] else [])
  {
    hide PrintValue, Printable, PrintString, Tabs, Indent;
    TabsAre(depth);
  }

  lemma {:induction false} MembersJoined(members: seq<Member>, depth: nat, fmt: bool)
    requires members != [] && forall m | m in members :: Printable(m.value)
    ensures PrintMembers(members, depth, fmt) ==
      Joined(Lines(members, depth, fmt), if fmt then [0x2C, 0x0A] else [0x2C]) + (if fmt then [0x0A] else [])
    decreases members
  {
    hide Line, PrintMember, Printable;
    MemberIs(members[0], |members| == 1, depth, fmt);
    var lines := Lines(members, depth, fmt);
    if |members| == 1 {
      assert PrintMembers(members[1..], depth, fmt) == [] by { NothingPrinted(depth, fmt); }
    } else {
      MembersJoined(members[1..], depth, fmt);
      assert lines[1..] == Lines(members[1..], depth, fmt);
    }
  }

  /** An object, unformatted: the members in braces, separated by a comma. */
  lemma ObjectText(members: seq<Member>, depth: nat)
    requires forall m | m in members :: Printable(m.value)
    ensures PrintValue(Object(members), depth, false) ==
      [0x7B] + Joined(Lines(members, depth + 1, false), [0x2C]) + [0x7D]
  {
    hide PrintMembers, PrintValue, Printable, Lines;
    ContainerText([], members, depth, false);
    if members == [] { NoLines(depth + 1, false); } else { MembersJoined(members, depth + 1, false); }
  }

  /** An object, formatted: a line for every member, between the line of the opening brace and the closing brace,
      which is indented as the object is. */
  lemma ObjectLines(members: seq<Member>, depth: nat)
    requires forall m | m in members :: Printable(m.value)
    ensures PrintValue(Object(members), depth, true) ==
      [0x7B, 0x0A] + Joined(Lines(members, depth + 1, true), [0x2C, 0x0A]) + (if members == [] then [] else [0x0A])
      + Indent(depth) + [0x7D]
  {
    hide PrintMembers, PrintValue, Printable, Lines, Tabs, Indent;
    ContainerText([], members, depth, true);
    TabsAre(depth);
    if members == [] { NoLines(depth + 1, true); } else { MembersJoined(members, depth + 1, true); }
  }

  lemma NoLines(depth: nat, fmt: bool)
    ensures Lines([], depth, fmt) == [] && PrintMembers([], depth, fmt) == []
  {
  }
}
