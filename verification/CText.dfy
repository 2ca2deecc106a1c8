/** C text: bytes, NUL-free strings with an implicit terminator, and the scanning helpers of json/cJSON.c. */
module CText {

  type byte = x: int | 0 <= x < 256

  const NUL: byte := 0x00
  const TAB: byte := 0x09
  const NEWLINE: byte := 0x0A
  const SPACE: byte := 0x20
  const QUOTE: byte := 0x22
  const COMMA: byte := 0x2C
  const MINUS: byte := 0x2D
  const DOT: byte := 0x2E
  const COLON: byte := 0x3A
  const LBRACKET: byte := 0x5B
  const BACKSLASH: byte := 0x5C
  const RBRACKET: byte := 0x5D
  const LOWER_U: byte := 0x75
  const LBRACE: byte := 0x7B
  const RBRACE: byte := 0x7D

  type bytes = seq<byte>

  /** The bytes of a C string before its terminator. */
  type text = s: seq<byte> | NUL !in s

  /** A `char *` that may be null. */
  datatype CStr = NoStr | Str(bytes: text)

  /** Reading the string at an index: the terminator stands at the end. */
  function At(s: text, i: nat): (c: byte)
    ensures c == NUL <==> i >= |s|
  {
    if i < |s| then s[i] else NUL
  }

  predicate IsHex(c: byte) {
    0x30 <= c <= 0x39 || 0x41 <= c <= 0x46 || 0x61 <= c <= 0x66
  }

  function HexValue(c: byte): (v: nat)
    requires IsHex(c)
    ensures v < 16
  {
    if c <= 0x39 then c - 0x30 else if c <= 0x46 then c - 0x37 else c - 0x57
  }

  predicate Hex4At(s: bytes, i: nat) {
    i + 4 <= |s| && IsHex(s[i]) && IsHex(s[i + 1]) && IsHex(s[i + 2]) && IsHex(s[i + 3])
  }

  function Hex4(s: bytes, i: nat): (v: nat)
    requires Hex4At(s, i)
    ensures v < 0x10000
  {
    ((HexValue(s[i]) * 16 + HexValue(s[i + 1])) * 16 + HexValue(s[i + 2])) * 16 + HexValue(s[i + 3])
  }

  /** Four bytes of a literal that start with a hexadecimal digit, but not with `0x`. */
  predicate ScanAt(s: bytes, i: nat) {
    && i + 4 <= |s| && IsHex(s[i]) && !(s[i] == 0x30 && s[i + 1] in {0x58, 0x78})
    && QUOTE !in s[i + 1..i + 4] && BACKSLASH !in s[i + 1..i + 4]
  }

  /** What `sscanf(p, "%4x", &uc)` stores for them: the number of their leading digits. */
  function ScanHex(s: bytes, i: nat): (v: nat)
    requires ScanAt(s, i)
    ensures v < 0x10000
  {
    var v := HexValue(s[i]);
    if !IsHex(s[i + 1]) then v
    else
      var w := v * 16 + HexValue(s[i + 1]);
      if !IsHex(s[i + 2]) then w
      else
        var x := w * 16 + HexValue(s[i + 2]);
        if !IsHex(s[i + 3]) then x else x * 16 + HexValue(s[i + 3])
  }

  lemma FourDigits(s: bytes, i: nat)
    requires Hex4At(s, i)
    ensures ScanAt(s, i) && ScanHex(s, i) == Hex4(s, i)
  {
    assert s[i + 1..i + 4] == [s[i + 1], s[i + 2], s[i + 3]];
  }

  /** From i, inside a string literal, up to its closing quote or the terminator: every backslash is followed
      by a byte, and every `\u` by four bytes of which `sscanf` reads a number. */
  predicate Complete(s: bytes, i: nat)
    decreases |s| - i
  {
    if i >= |s| || s[i] == QUOTE then true
    else if s[i] != BACKSLASH then Complete(s, i + 1)
    else if i + 1 >= |s| then false
    else if s[i + 1] != LOWER_U then Complete(s, i + 2)
    else ScanAt(s, i + 2) && Complete(s, i + 6)
  }

  /** `skip`: the first position from i on that holds no white space. */
  function Skip(s: text, i: nat): (j: nat)
    requires i <= |s|
    ensures i <= j <= |s|
    ensures forall k | i <= k < j :: s[k] <= SPACE
    ensures j < |s| ==> s[j] > SPACE
    decreases |s| - i
  {
    if i < |s| && s[i] <= SPACE then Skip(s, i + 1) else i
  }

  /** t stands in s at position i. */
  predicate Matches(s: bytes, i: nat, t: bytes) {
    i + |t| <= |s| && s[i..i + |t|] == t
  }

  lemma MatchesByte(s: bytes, i: nat, t: bytes, k: nat)
    requires Matches(s, i, t) && k < |t|
    ensures s[i + k] == t[k]
  {
    assert s[i..i + |t|][k] == t[k];
  }

  lemma MatchesSplit(s: bytes, i: nat, a: bytes, b: bytes)
    requires Matches(s, i, a + b)
    ensures Matches(s, i, a) && Matches(s, i + |a|, b)
  {
    var w := s[i..i + |a + b|];
    assert s[i..i + |a|] == w[..|a|] == a;
    assert s[i + |a|..i + |a| + |b|] == w[|a|..] == b;
  }

  lemma MatchesJoin(s: bytes, i: nat, a: bytes, b: bytes)
    requires Matches(s, i, a) && Matches(s, i + |a|, b)
    ensures Matches(s, i, a + b)
  {
    assert s[i..i + |a + b|] == s[i..i + |a|] + s[i + |a|..i + |a| + |b|];
  }

  lemma MatchesSplit3(s: bytes, i: nat, a: bytes, b: bytes, c: bytes)
    requires Matches(s, i, a + b + c)
    ensures Matches(s, i, a) && Matches(s, i + |a|, b) && Matches(s, i + |a| + |b|, c)
  {
    MatchesSplit(s, i, a + b, c);
    MatchesSplit(s, i, a, b);
  }

  lemma MatchesSplit5(s: bytes, i: nat, a: bytes, b: bytes, c: bytes, d: bytes, e: bytes)
    requires Matches(s, i, a + b + c + d + e)
    ensures Matches(s, i, a) && Matches(s, i + |a|, b) && Matches(s, i + |a| + |b|, c)
    ensures Matches(s, i + |a| + |b| + |c|, d) && Matches(s, i + |a| + |b| + |c| + |d|, e)
  {
    MatchesSplit3(s, i, a + b + c, d, e);
    MatchesSplit3(s, i, a, b, c);
  }

  /** Only white space from i up to j. */
  predicate Blank(s: bytes, i: nat, j: nat) {
    i <= j <= |s| && forall k | i <= k < j :: s[k] <= SPACE
  }

  lemma MatchesBlank(s: bytes, i: nat, t: bytes)
    requires Matches(s, i, t) && forall k | 0 <= k < |t| :: t[k] <= SPACE
    ensures Blank(s, i, i + |t|)
  {
    forall k | i <= k < i + |t| ensures s[k] <= SPACE { MatchesByte(s, i, t, k - i); }
  }
}
