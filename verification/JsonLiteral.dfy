/** String literals by the grammar of section 7 of RFC 8259 and by the wider one of `parse_string` in
    json/cJSON.c, what they mean, and when `parse_string` agrees. */
module JsonLiteral {
  import opened CText
  import opened JsonString
  import JsonParse
  import Bits
  import Utf8

  /** A character of a literal: a byte as it is, an escape of two bytes, or a `\u` escape with its digits as
      they are written. */
  datatype Char = Plain(b: byte) | Short(e: byte) | Unicode(d: bytes)

  /** The grammar. */
  predicate WellFormed(c: Char) {
    match c
    case Plain(b) => b >= 0x20 && b != QUOTE && b != BACKSLASH
    case Short(e) => e in {QUOTE, BACKSLASH, 0x2F, 0x62, 0x66, 0x6E, 0x72, 0x74}
    case Unicode(d) => |d| == 4 && Hex4At(d, 0)
  }

  /** What `parse_string` takes for a character: besides those of the grammar, a control byte as it is, any other
      byte behind a backslash, and four bytes behind `\u` of which `sscanf` reads a number. */
  predicate Legible(c: Char) {
    match c
    case Plain(b) => b != NUL && b != QUOTE && b != BACKSLASH
    case Short(e) => e != NUL && e != LOWER_U
    case Unicode(d) => |d| == 4 && ScanAt(d, 0)
  }

  lemma WellFormedIsLegible(c: Char)
    requires WellFormed(c)
    ensures Legible(c) && (c.Unicode? ==> Code(c) == Hex4(c.d, 0))
  {
    if c.Unicode? { FourDigits(c.d, 0); }
  }

  type Literal = cs: seq<Char> | forall c | c in cs :: Legible(c)

  /** Only characters of the grammar. */
  ghost predicate WellFormedAll(cs: Literal) { forall c | c in cs :: WellFormed(c) }

  function Written(c: Char): bytes {
    match c
    case Plain(b) => [b]
    case Short(e) => [BACKSLASH, e]
    case Unicode(d) => [BACKSLASH, LOWER_U] + d
  }

  function WrittenAll(cs: seq<Char>): bytes { if cs == [] then [] else Written(cs[0]) + WrittenAll(cs[1..]) }

  /** The number that a `\u` escape writes. */
  function Code(c: Char): nat
    requires Legible(c) && c.Unicode?
  {
    ScanHex(c.d, 0)
  }

  predicate IsHighEscape(c: Char) { Legible(c) && c.Unicode? && Utf8.IsHigh(Code(c)) }

  predicate IsLowEscape(c: Char) { Legible(c) && c.Unicode? && Utf8.IsLow(Code(c)) }

  predicate EscapesNul(c: Char) { Legible(c) && c.Unicode? && Code(c) == 0 }

  // ---- what a literal means ----

  /** Surrogates occur in pairs only. A single one has no meaning. */
  predicate Paired(cs: Literal) {
    if cs == [] then true
    else if IsLowEscape(cs[0]) then false
    else if IsHighEscape(cs[0]) then |cs| > 1 && IsLowEscape(cs[1]) && Paired(cs[2..])
    else Paired(cs[1..])
  }

  /** What a short escape stands for. */
  function Escaped(e: byte): (b: byte)
    ensures e !in {0x62, 0x66, 0x6E, 0x72, 0x74} ==> b == e
  {
    if e == 0x62 then 0x08 else if e == 0x66 then 0x0C else if e == 0x6E then 0x0A
    else if e == 0x72 then 0x0D else if e == 0x74 then 0x09 else e
  }

  /** The UTF-8 bytes that a literal stands for. */
  function MeaningOf(cs: Literal): bytes
    requires Paired(cs)
  {
    if cs == [] then []
    else if IsHighEscape(cs[0]) then
      Utf8.Encode(Utf8.RequiredCodePoint(Code(cs[0]), Code(cs[1]))) + MeaningOf(cs[2..])
    else Single(cs[0]) + MeaningOf(cs[1..])
  }

  /** What a character means that is no surrogate. */
  function Single(c: Char): bytes
    requires Legible(c) && !IsHighEscape(c) && !IsLowEscape(c)
  {
    match c
    case Plain(b) => [b]
    case Short(e) => [Escaped(e)]
    case Unicode(_) => if Code(c) == 0 then [NUL] else Utf8.Encode(Code(c))
  }

  // ---- what the parser stores ----

  /** How many characters a turn of the parser reads: a high surrogate takes a `\u` escape behind it along,
      whatever that is. */
  function Width(cs: Literal): (w: nat)
    requires cs != []
    ensures 1 <= w <= 2 && w <= |cs|
  {
    if IsHighEscape(cs[0]) && |cs| > 1 && cs[1].Unicode? then 2 else 1
  }

  /** What a turn stores: nothing for a NUL or a surrogate that is not one of a pair. */
  function StoredFirst(cs: Literal): text
    requires cs != []
  {
    match cs[0]
    case Plain(b) => [b]
    case Short(e) => [Escaped(e)]
    case Unicode(_) =>
      if IsLowEscape(cs[0]) || Code(cs[0]) == 0 then []
      else if !IsHighEscape(cs[0]) then Utf8.Encode(Code(cs[0]))
      else if Width(cs) == 1 || !IsLowEscape(cs[1]) then []
      else
        Utf8.CombineRange(Code(cs[0]), Code(cs[1]));
        Utf8.Encode(Utf8.Combine(Code(cs[0]), Code(cs[1])))
  }

  function StoredAll(cs: Literal): text
    decreases |cs|
  {
    if cs == [] then [] else StoredFirst(cs) + StoredAll(cs[Width(cs)..])
  }

  // ---- every literal is read to its end ----

  /** Inside the text s, from i, a literal, and its closing quote or the end of the text. */
  ghost predicate Stands(cs: Literal, s: text, i: nat) {
    Matches(s, i, WrittenAll(cs)) && Ends(s, i + |WrittenAll(cs)|)
  }

  predicate Ends(s: text, e: nat) { At(s, e) == QUOTE || e == |s| }

  lemma StandsNext(cs: Literal, s: text, i: nat)
    requires cs != [] && Stands(cs, s, i)
    ensures Matches(s, i, Written(cs[0])) && Stands(cs[1..], s, i + |Written(cs[0])|)
    ensures i + |WrittenAll(cs)| == i + |Written(cs[0])| + |WrittenAll(cs[1..])|
  {
    hide Legible, Written, Matches;
    MatchesSplit(s, i, Written(cs[0]), WrittenAll(cs[1..]));
  }

  /** The first bytes of a literal, or what stands behind it. */
  lemma FirstBytes(cs: Literal, s: text, i: nat)
    requires Stands(cs, s, i)
    ensures i <= |s| && (Ends(s, i) <==> cs == [])
    ensures At(s, i) == BACKSLASH && At(s, i + 1) == LOWER_U <==> cs != [] && cs[0].Unicode?
    ensures cs != [] && cs[0].Unicode? ==> ScanAt(s, i + 2) && ScanHex(s, i + 2) == Code(cs[0])
    ensures cs != [] && cs[0].Short? ==> At(s, i) == BACKSLASH && At(s, i + 1) == cs[0].e
    ensures cs != [] && cs[0].Plain? ==> At(s, i) == cs[0].b
  {
    hide Hex4, ScanHex, ScanAt;
    if cs != [] {
      StandsNext(cs, s, i);
      var w := Written(cs[0]);
      assert cs[0] in cs;
      MatchesByte(s, i, w, 0);
      if |w| > 1 { MatchesByte(s, i, w, 1); }
      if cs[0].Unicode? { SameHex(s, i, cs[0].d); }
    }
  }

  lemma SameHex(s: text, i: nat, d: bytes)
    requires |d| == 4 && ScanAt(d, 0) && Matches(s, i, [BACKSLASH, LOWER_U] + d)
    ensures ScanAt(s, i + 2) && ScanHex(s, i + 2) == ScanHex(d, 0)
  {
    MatchesSplit(s, i, [BACKSLASH, LOWER_U], d);
    forall j | 0 <= j < 4 ensures s[i + 2 + j] == d[j] { MatchesByte(s, i + 2, d, j); }
    assert s[i + 3..i + 6] == d[1..4];
  }

  /** The escapes of a literal are complete. */
  lemma {:induction false} LiteralComplete(cs: Literal, s: text, i: nat)
    requires Stands(cs, s, i)
    ensures Complete(s, i)
    decreases |cs|
  {
    hide Stands, Written, Legible, Hex4, ScanHex, ScanAt;
    FirstBytes(cs, s, i);
    if cs != [] {
      StandsNext(cs, s, i);
      LiteralComplete(cs[1..], s, i + |Written(cs[0])|);
      WrittenIs(cs[0]);
      assert cs[0] in cs && Legible(cs[0]);
    }
  }

  lemma WrittenIs(c: Char)
    requires Legible(c)
    ensures |Written(c)| == if c.Plain? then 1 else if c.Short? then 2 else 6
    ensures c.Plain? ==> c.b != QUOTE && c.b != BACKSLASH
    ensures c.Short? ==> c.e != LOWER_U && c.e != NUL
  {
  }

  lemma NothingWritten(cs: Literal)
    requires cs == []
    ensures WrittenAll(cs) == [] && Paired(cs) && MeaningOf(cs) == []
  {
  }

  lemma UnicodeStores(cs: Literal, s: text, i: nat)
    requires cs != [] && cs[0].Unicode? && Stands(cs, s, i) && Complete(s, i)
    ensures i + 1 < |s| && s[i] == BACKSLASH && s[i + 1] == LOWER_U
    ensures ReadUnicode(s, i) == Turn(StoredFirst(cs), if Width(cs) == 2 then i + 12 else i + 6)
  {
    hide Utf8.Encode, Utf8.Combine, Hex4, ScanHex, ScanAt, Stands, Written, Legible, Complete;
    FirstBytes(cs, s, i);
    WrittenIs(cs[0]);
    StandsNext(cs, s, i);
    FirstBytes(cs[1..], s, i + 6);
  }

  /** One turn of the second pass. */
  lemma TurnStores(cs: Literal, s: text, i: nat)
    requires cs != [] && Stands(cs, s, i) && Complete(s, i)
    ensures i < |s| && s[i] != QUOTE
    ensures ReadTurn(s, i) == Turn(StoredFirst(cs), i + |Written(cs[0])| + if Width(cs) == 2 then 6 else 0)
  {
    hide Hex4, ScanHex, ScanAt, Stands, Written, Legible, Complete, ReadUnicode;
    FirstBytes(cs, s, i);
    WrittenIs(cs[0]);
    assert cs[0] in cs && Legible(cs[0]);
    if cs[0].Unicode? { UnicodeStores(cs, s, i); }
  }

  /** For the parser a literal ends at its own closing quote, whatever its surrogates are. */
  lemma {:induction false} LiteralStores(cs: Literal, s: text, i: nat)
    requires Stands(cs, s, i) && Complete(s, i)
    ensures Unescape(s, i) == Turn(StoredAll(cs), i + |WrittenAll(cs)|)
    decreases |cs|
  {
    hide ReadTurn, Stands, Written, WrittenAll, StoredFirst, Legible, Complete;
    FirstBytes(cs, s, i);
    if cs == [] {
      NothingWritten(cs);
    } else {
      TurnStores(cs, s, i);
      StandsNext(cs, s, i);
      var j := i + |Written(cs[0])|;
      if Width(cs) == 2 {
        StandsNext(cs[1..], s, j);
        assert cs[1] in cs;
        WrittenIs(cs[1]);
        assert cs[1..][1..] == cs[2..];
        LiteralStores(cs[2..], s, j + 6);
      } else {
        LiteralStores(cs[1..], s, j);
      }
    }
  }

  // ---- when it is stored as what it means ----

  /** No escaped NUL, and bit 6 of a high surrogate is clear. */
  predicate Faithful(c: Char) {
    !EscapesNul(c) && (IsHighEscape(c) ==> Bits.And(Code(c), 0x40) == 0)
  }

  ghost predicate FaithfulAll(cs: Literal) { Paired(cs) && forall c | c in cs :: Faithful(c) }

  /** What the first turn of the meaning is. */
  function MeaningFirst(cs: Literal): bytes
    requires cs != [] && Paired(cs)
  {
    if IsHighEscape(cs[0]) then Utf8.Encode(Utf8.RequiredCodePoint(Code(cs[0]), Code(cs[1]))) else Single(cs[0])
  }

  lemma MeaningStep(cs: Literal)
    requires cs != [] && Paired(cs)
    ensures Paired(cs[Width(cs)..]) && MeaningOf(cs) == MeaningFirst(cs) + MeaningOf(cs[Width(cs)..])
    ensures Width(cs) == 2 <==> IsHighEscape(cs[0])
  {
  }

  /** Storing a character, or a pair, is what it means exactly when it is faithful. */
  lemma FirstIsMeaning(cs: Literal)
    requires cs != [] && Paired(cs)
    ensures StoredFirst(cs) == MeaningFirst(cs) <==> Faithful(cs[0])
    ensures !EscapesNul(cs[0]) ==> |StoredFirst(cs)| == |MeaningFirst(cs)|
    ensures EscapesNul(cs[0]) ==> NUL in MeaningFirst(cs)
    ensures Width(cs) == 2 ==> Faithful(cs[1])
  {
    hide Hex4, Utf8.Encode, Utf8.Decode, Utf8.Combine, Bits.And, Bits.Or, MeaningOf;
    if IsHighEscape(cs[0]) {
      var hi, lo := Code(cs[0]), Code(cs[1]);
      Utf8.CombineRange(hi, lo);
      Utf8.PairIsRightIff(hi, lo);
      Utf8.EncodeDecodes(Utf8.Combine(hi, lo));
      Utf8.EncodeDecodes(Utf8.RequiredCodePoint(hi, lo));
    }
  }

  /** What the parser stores for a literal without single surrogates is what the literal means exactly when
      no NUL is escaped in it and bit 6 of every high surrogate is clear. */
  lemma {:induction false} LiteralFaithful(cs: Literal)
    requires Paired(cs)
    ensures StoredAll(cs) == MeaningOf(cs) <==> forall c | c in cs :: Faithful(c)
    ensures NUL !in MeaningOf(cs) ==> |StoredAll(cs)| == |MeaningOf(cs)|
    decreases |cs|
  {
    hide StoredFirst, MeaningFirst, Faithful, Legible, IsHighEscape, EscapesNul, MeaningOf;
    if cs == [] {
      NothingWritten(cs);
    } else {
      var rest := cs[Width(cs)..];
      FirstIsMeaning(cs);
      MeaningStep(cs);
      LiteralFaithful(rest);
      assert cs == (if Width(cs) == 2 then [cs[0], cs[1]] else [cs[0]]) + rest;
      assert EscapesNul(cs[0]) ==> !Faithful(cs[0]);
      if NUL !in MeaningOf(cs) { Halves(StoredFirst(cs), StoredAll(rest), MeaningFirst(cs), MeaningOf(rest)); }
    }
  }

  lemma Halves(a: bytes, b: bytes, c: bytes, d: bytes)
    requires |a| == |c|
    ensures a + b == c + d <==> a == c && b == d
  {
    if a + b == c + d {
      assert a == (a + b)[..|a|] == (c + d)[..|a|] == c;
      assert b == (a + b)[|a|..] == (c + d)[|a|..] == d;
    }
  }

  // ---- what is stored of any literal ----

  /** The literal without escaped NULs and single surrogates; a high surrogate takes a `\u` escape behind it along. */
  function Kept(cs: Literal): Literal {
    if cs == [] then []
    else if EscapesNul(cs[0]) || IsLowEscape(cs[0]) then Kept(cs[1..])
    else if !IsHighEscape(cs[0]) then [cs[0]] + Kept(cs[1..])
    else if |cs| == 1 || !cs[1].Unicode? then Kept(cs[1..])
    else if IsLowEscape(cs[1]) then cs[..2] + Kept(cs[2..])
    else Kept(cs[2..])
  }

  /** What the first turn reads has a meaning. */
  predicate HasMeaning(cs: Literal)
    requires cs != []
  {
    !EscapesNul(cs[0]) && !IsLowEscape(cs[0]) && (IsHighEscape(cs[0]) ==> |cs| > 1 && IsLowEscape(cs[1]))
  }

  lemma KeptStep(cs: Literal)
    requires cs != []
    ensures var rest := Kept(cs[Width(cs)..]);
      if HasMeaning(cs) then
        && Kept(cs) != [] && Kept(cs)[0] == cs[0] && Width(Kept(cs)) == Width(cs) && Kept(cs)[Width(cs)..] == rest
        && StoredFirst(Kept(cs)) == StoredFirst(cs) && (Paired(rest) ==> Paired(Kept(cs)))
      else
        Kept(cs) == rest && StoredFirst(cs) == []
  {
    hide Legible, Utf8.Encode, Utf8.Combine, ScanHex;
    var rest := Kept(cs[Width(cs)..]);
    if HasMeaning(cs) {
      var kept := Kept(cs);
      assert kept == (if Width(cs) == 2 then cs[..2] else [cs[0]]) + rest;
      assert kept[0] == cs[0] && kept[Width(cs)..] == rest;
      if Width(cs) == 2 { assert kept[1] == cs[1] && kept[2..] == rest; } else { assert kept[1..] == rest; }
    }
  }

  /** Of any literal whatever, that is stored which the characters with a meaning mean, exactly when bit 6 of every
      high surrogate of a pair is clear. */
  lemma {:induction false} StoredIsKept(cs: Literal)
    ensures Paired(Kept(cs)) && StoredAll(cs) == StoredAll(Kept(cs))
    ensures StoredAll(cs) == MeaningOf(Kept(cs)) <==> forall c | c in Kept(cs) :: Faithful(c)
    decreases |cs|
  {
    hide StoredFirst, HasMeaning, Faithful, Legible, IsHighEscape, IsLowEscape, EscapesNul, Width;
    if cs != [] {
      StoredIsKept(cs[Width(cs)..]);
      KeptStep(cs);
    }
    LiteralFaithful(Kept(cs));
  }

  // ---- whole literals ----

  /** A literal from i to e; the input may leave it open. */
  ghost predicate StringAt(cs: Literal, s: text, i: nat, e: nat) {
    var end := i + 1 + |WrittenAll(cs)|;
    At(s, i) == QUOTE && Stands(cs, s, i + 1) && e == if end < |s| then end + 1 else end
  }

  function Quoted(cs: Literal): bytes { [QUOTE] + WrittenAll(cs) + [QUOTE] }

  /** A closed literal. */
  lemma QuotedIsString(cs: Literal, s: text, i: nat)
    requires Matches(s, i, Quoted(cs))
    ensures StringAt(cs, s, i, i + |Quoted(cs)|)
  {
    var q: bytes := [QUOTE];
    MatchesSplit3(s, i, q, WrittenAll(cs), q);
    MatchesByte(s, i, q, 0);
    MatchesByte(s, i + 1 + |WrittenAll(cs)|, q, 0);
  }

  /** Wherever a literal stands, with whatever around it, both passes end at its own closing quote, or at the end
      of the input that leaves it open; and what `parse_string` returns is what the literal means exactly when its
      surrogates are paired, no NUL is escaped in it and bit 6 of every high surrogate is clear. */
  lemma LiteralParsed(cs: Literal, s: text, i: nat, e: nat)
    requires StringAt(cs, s, i, e)
    ensures i < |s| && s[i] == QUOTE && Complete(s, i + 1)
    ensures CountTurns(s, i + 1).next == Unescape(s, i + 1).next == i + 1 + |WrittenAll(cs)|
    ensures JsonParse.ParseString(s, i) == JsonParse.Ok(StoredAll(cs), e)
    ensures Paired(cs) && StoredAll(cs) == MeaningOf(cs) <==> FaithfulAll(cs)
  {
    hide WrittenAll, StoredAll, MeaningOf, Legible, Faithful, Paired, Complete, CountTurns, Unescape, Matches;
    LiteralComplete(cs, s, i + 1);
    LiteralStores(cs, s, i + 1);
    PassesAgree(s, i + 1);
    if Paired(cs) { LiteralFaithful(cs); }
  }

  /** What the first pass counts: one for a byte or a short escape, five for a `\u` escape. */
  function Counted(cs: Literal): nat {
    if cs == [] then 0 else (if cs[0].Unicode? then 5 else 1) + Counted(cs[1..])
  }

  lemma {:induction false} LiteralCounted(cs: Literal, s: text, i: nat)
    requires Stands(cs, s, i) && Complete(s, i)
    ensures CountTurns(s, i).len == Counted(cs)
    decreases |cs|
  {
    hide Stands, Written, WrittenAll, Legible, ScanHex, ScanAt;
    FirstBytes(cs, s, i);
    if cs != [] {
      StandsNext(cs, s, i);
      WrittenIs(cs[0]);
      assert cs[0] in cs && Legible(cs[0]);
      LiteralComplete(cs[1..], s, i + |Written(cs[0])|);
      LiteralCounted(cs[1..], s, i + |Written(cs[0])|);
      if cs[0].Unicode? { CountEscape(s, i); }
    }
  }

  /** The character that stands at i. */
  function CharAt(s: text, i: nat): (c: Char)
    requires i < |s| && s[i] != QUOTE && Complete(s, i)
    ensures Legible(c) && Matches(s, i, Written(c)) && Complete(s, i + |Written(c)|)
  {
    if s[i] != BACKSLASH then Plain(s[i])
    else if s[i + 1] != LOWER_U then Short(s[i + 1])
    else
      assert s[i + 3..i + 6] == s[i + 2..i + 6][1..4];
      Unicode(s[i + 2..i + 6])
  }

  /** Where the escapes are complete, a literal stands. */
  lemma {:induction false} LiteralExists(s: text, i: nat) returns (cs: Literal)
    requires i <= |s| && Complete(s, i)
    ensures Stands(cs, s, i)
    decreases |s| - i
  {
    hide Legible, Written, WrittenAll, Complete, Matches;
    if Ends(s, i) {
      cs := [];
      NothingStands(s, i);
    } else {
      var c := CharAt(s, i);
      Longer(c);
      var rest := LiteralExists(s, i + |Written(c)|);
      cs := [c] + rest;
      MatchesJoin(s, i, Written(c), WrittenAll(rest));
      WrittenCons(c, rest);
    }
  }

  lemma NothingStands(s: text, i: nat)
    requires i <= |s| && Ends(s, i)
    ensures Stands([], s, i)
  {
  }

  lemma Longer(c: Char)
    ensures |Written(c)| > 0
    ensures forall s: text, i: nat | Matches(s, i, Written(c)) :: i + |Written(c)| <= |s|
  {
  }

  lemma WrittenCons(c: Char, cs: Literal)
    requires Legible(c)
    ensures WrittenAll([c] + cs) == Written(c) + WrittenAll(cs)
  {
    hide Written, Legible;
    assert ([c] + cs)[1..] == cs;
  }
}
