/** String literals of json/cJSON.c: what its two-pass reader and two-pass writer compute. */
module JsonString {
  import opened CText
  import Utf8

  // ---- reading ----

  /** One turn of the second pass of `parse_string`: the bytes it stores and where it stops. */
  datatype Turn = Turn(out: text, next: nat)

  function ReadUnicode(s: text, i: nat): (u: Turn)
    requires i + 1 < |s| && s[i] == BACKSLASH && s[i + 1] == LOWER_U && Complete(s, i)
    ensures i + 6 <= u.next <= |s| && Complete(s, u.next)
    ensures |u.out| <= 3 || (|u.out| == 4 && u.next == i + 12)
    ensures u.next == i + 6 || (u.next == i + 12 && s[i + 6] == BACKSLASH && s[i + 7] == LOWER_U)
  {
    assert ScanAt(s, i + 2) && Complete(s, i + 6);
    var uc := ScanHex(s, i + 2);
    if Utf8.IsLow(uc) || uc == 0 then Turn([], i + 6)
    else if Utf8.IsHigh(uc) then
      if At(s, i + 6) != BACKSLASH || At(s, i + 7) != LOWER_U then Turn([], i + 6)
      else
        assert ScanAt(s, i + 8) && Complete(s, i + 12);
        var uc2 := ScanHex(s, i + 8);
        if !Utf8.IsLow(uc2) then Turn([], i + 12)
        else
          Utf8.CombineRange(uc, uc2);
          Turn(Utf8.Encode(Utf8.Combine(uc, uc2)), i + 12)
    else Turn(Utf8.Encode(uc), i + 6)
  }

  function ReadTurn(s: text, i: nat): (u: Turn)
    requires i < |s| && s[i] != QUOTE && Complete(s, i)
    ensures i < u.next <= |s| && Complete(s, u.next)
  {
    if s[i] != BACKSLASH then Turn([s[i]], i + 1)
    else
      var c := s[i + 1];
      if c == 0x62 then Turn([0x08], i + 2)
      else if c == 0x66 then Turn([0x0C], i + 2)
      else if c == 0x6E then Turn([0x0A], i + 2)
      else if c == 0x72 then Turn([0x0D], i + 2)
      else if c == 0x74 then Turn([0x09], i + 2)
      else if c == LOWER_U then ReadUnicode(s, i)
      else Turn([c], i + 2)
  }

  /** The whole second pass: the decoded bytes, and the position of the closing quote or terminator. */
  function Unescape(s: text, i: nat): (u: Turn)
    requires i <= |s| && Complete(s, i)
    ensures i <= u.next <= |s| && Complete(s, u.next)
    ensures At(s, u.next) == QUOTE || u.next == |s|
    decreases |s| - i
  {
    if At(s, i) == QUOTE || i >= |s| then Turn([], i)
    else
      var t := ReadTurn(s, i);
      var rest := Unescape(s, t.next);
      Turn(t.out + rest.out, rest.next)
  }

  /** The first pass: how much it counts, and where it stops. */
  datatype Count = Count(len: nat, next: nat)

  function CountTurns(s: text, i: nat): (c: Count)
    requires i <= |s| && Complete(s, i)
    ensures i <= c.next <= |s|
    decreases |s| - i
  {
    if At(s, i) == QUOTE || i >= |s| then Count(0, i)
    else if s[i] != BACKSLASH then
      var c := CountTurns(s, i + 1);
      Count(c.len + 1, c.next)
    else
      assert s[i + 1] == LOWER_U ==> Complete(s, i + 2) by { if s[i + 1] == LOWER_U { HexThenComplete(s, i + 2); } }
      var c := CountTurns(s, i + 2);
      Count(c.len + 1, c.next)
  }

  lemma HexThenComplete(s: text, i: nat)
    requires ScanAt(s, i) && Complete(s, i + 4)
    ensures Complete(s, i)
  {
    assert Complete(s, i + 3);
    assert Complete(s, i + 2);
    assert Complete(s, i + 1);
  }

  /** The four bytes of an escape count four and contain nothing that stops the first pass. */
  lemma CountHex(s: text, i: nat)
    requires ScanAt(s, i) && Complete(s, i + 4)
    ensures Complete(s, i)
    ensures CountTurns(s, i) == Count(CountTurns(s, i + 4).len + 4, CountTurns(s, i + 4).next)
  {
    HexThenComplete(s, i);
    assert Complete(s, i + 1) && Complete(s, i + 2) && Complete(s, i + 3);
    var c := CountTurns(s, i + 4);
    assert CountTurns(s, i + 3) == Count(c.len + 1, c.next);
    assert CountTurns(s, i + 2) == Count(c.len + 2, c.next);
    assert CountTurns(s, i + 1) == Count(c.len + 3, c.next);
  }

  lemma CountEscape(s: text, i: nat)
    requires i + 1 < |s| && s[i] == BACKSLASH && s[i + 1] == LOWER_U && Complete(s, i)
    ensures CountTurns(s, i) == Count(CountTurns(s, i + 6).len + 5, CountTurns(s, i + 6).next)
  {
    CountHex(s, i + 2);
  }

  lemma CountUnicode(s: text, i: nat)
    requires i + 1 < |s| && s[i] == BACKSLASH && s[i + 1] == LOWER_U && Complete(s, i)
    ensures var t := ReadUnicode(s, i);
      CountTurns(s, i).next == CountTurns(s, t.next).next && CountTurns(s, i).len >= CountTurns(s, t.next).len + |t.out|
  {
    var t := ReadUnicode(s, i);
    CountEscape(s, i);
    if t.next == i + 12 { CountEscape(s, i + 6); }
  }

  /** Both passes stop at the same place, and the buffer counted by the first one holds what the
      second one stores. */
  lemma {:induction false} PassesAgree(s: text, i: nat)
    requires i <= |s| && Complete(s, i)
    ensures CountTurns(s, i).next == Unescape(s, i).next
    ensures |Unescape(s, i).out| <= CountTurns(s, i).len
    decreases |s| - i
  {
    if At(s, i) != QUOTE && i < |s| {
      var t := ReadTurn(s, i);
      PassesAgree(s, t.next);
      if s[i] == BACKSLASH && s[i + 1] == LOWER_U { CountUnicode(s, i); }
    }
  }

  // ---- writing ----

  function HexDigit(v: nat): byte
    requires v < 16
  {
    if v < 10 then 0x30 + v else 0x57 + v
  }

  /** What the second pass of `print_string_ptr` stores for one byte. */
  function EscapeByte(c: byte): (t: bytes)
    requires c != NUL
  {
    if c > 31 && c != QUOTE && c != BACKSLASH then [c]
    else if c == BACKSLASH then [BACKSLASH, BACKSLASH]
    else if c == QUOTE then [BACKSLASH, QUOTE]
    else if c == 0x08 then [BACKSLASH, 0x62]
    else if c == 0x0C then [BACKSLASH, 0x66]
    else if c == 0x0A then [BACKSLASH, 0x6E]
    else if c == 0x0D then [BACKSLASH, 0x72]
    else if c == 0x09 then [BACKSLASH, 0x74]
    else [BACKSLASH, LOWER_U, 0x30, 0x30, HexDigit(c / 16), HexDigit(c % 16)]
  }

  function Escape(t: text): (e: bytes) {
    if t == [] then [] else EscapeByte(t[0]) + Escape(t[1..])
  }

  /** What the first pass of `print_string_ptr` counts for one byte: 1, plus 1 for a short escape or
      5 for another control character. */
  function CountByte(c: byte): nat {
    1 + (if c == QUOTE || c == BACKSLASH || c == 0x08 || c == 0x0C || c == 0x0A || c == 0x0D || c == 0x09 then 1
         else if c < 32 then 5 else 0)
  }

  function CountBytes(t: text): nat {
    if t == [] then 0 else CountByte(t[0]) + CountBytes(t[1..])
  }

  /** The first pass counts exactly the bytes that the second one writes. */
  lemma {:induction false} CountIsExact(t: text)
    ensures CountBytes(t) == |Escape(t)|
  {
    if t != [] { CountIsExact(t[1..]); }
  }

  /** `print_string_ptr`; a null pointer is rendered as the empty text. */
  function PrintString(c: CStr): (t: bytes) {
    match c
    case NoStr => []
    case Str(bytes) => [QUOTE] + Escape(bytes) + [QUOTE]
  }
}
