/** The loops of `parse_string` of json/cJSON.c that fill the output buffer. */
module JsonScanner {
  import opened CText
  import opened Bits
  import opened CHeap
  import opened JsonString
  import Utf8

  /** The fall-through switch: it steps back from the end of the sequence, then forward again. */
  method EncodeInto(out: array<byte>, at: nat, code: nat) returns (end: nat)
    requires 0 < code < 0x110000 && at + |Utf8.Encode(code)| <= out.Length
    modifies out
    ensures end == at + |Utf8.Encode(code)|
    ensures out[..at] == old(out[..at]) && out[at..end] == Utf8.Encode(code)
  {
    hide Utf8.EncodedByte, Or, And;
    var len := Utf8.EncodedLength(code);
    var uc := code;
    end := at + len;
    var p := end;
    if len >= 4 { p := PutTail(out, at, p, code, uc, len); uc := uc / 64; }
    if len >= 3 { p := PutTail(out, at, p, code, uc, len); uc := uc / 64; }
    if len >= 2 { p := PutTail(out, at, p, code, uc, len); uc := uc / 64; }
    p := p - 1;
    assert Utf8.Encode(code)[0] == Or(uc, Utf8.FirstByteMark(len)) by { LeadByte(code, uc, len); }
    out[p] := Or(uc, Utf8.FirstByteMark(len));
  }

  lemma LeadByte(code: nat, uc: nat, len: nat)
    requires 0 < code < 0x110000 && len == Utf8.EncodedLength(code) && uc == Utf8.Shift6(code, len - 1)
    ensures Utf8.Encode(code)[0] == Or(uc, Utf8.FirstByteMark(len))
  {
  }

  /** `*--ptr2 = ((uc | 0x80) & 0xBF)`. */
  method PutTail(out: array<byte>, ghost at: nat, p: nat, ghost code: nat, uc: nat, ghost len: nat) returns (q: nat)
    requires 0 < code < 0x110000 && len == Utf8.EncodedLength(code) && at + len <= out.Length
    requires at + 1 < p <= at + len && uc == Utf8.Shift6(code, at + len - p)
    modifies out
    ensures q == p - 1 && out[q] == Utf8.Encode(code)[q - at]
    ensures forall k | 0 <= k < out.Length && k != q :: out[k] == old(out[k])
  {
    q := p - 1;
    Utf8.EncodedByteValue(code, q - at);
    out[q] := Utf8.Continuation(uc);
  }

  /** `case 'u'`: ptr stands at the letter u on entry and at the last consumed byte on return. */
  method Transcode(s: text, ptr: nat, out: array<byte>, at: nat) returns (p: nat, end: nat)
    requires 1 <= ptr < |s| && s[ptr - 1] == BACKSLASH && s[ptr] == LOWER_U && Complete(s, ptr - 1)
    requires at + |ReadUnicode(s, ptr - 1).out| <= out.Length
    modifies out
    ensures p + 1 == ReadUnicode(s, ptr - 1).next && end == at + |ReadUnicode(s, ptr - 1).out|
    ensures out[..at] == old(out[..at]) && out[at..end] == ReadUnicode(s, ptr - 1).out
  {
    hide Utf8.Combine, Utf8.Encode, ScanHex;
    assert Complete(s, ptr + 5);
    var uc := ScanHex(s, ptr + 1);
    p, end := ptr + 4, at;
    if 0xDC00 <= uc <= 0xDFFF || uc == 0 { return; }
    if 0xD800 <= uc <= 0xDBFF {
      if At(s, p + 1) != BACKSLASH || At(s, p + 2) != LOWER_U { return; }
      var uc2 := ScanHex(s, p + 3);
      p := p + 6;
      if uc2 < 0xDC00 || uc2 > 0xDFFF { return; }
      Utf8.CombineRange(uc, uc2);
      uc := Utf8.Combine(uc, uc2);
    }
    end := EncodeInto(out, at, uc);
  }

  /** The first pass. */
  method CountPass(s: text, start: nat) returns (len: nat, ptr: nat)
    requires start <= |s| && Complete(s, start)
    ensures Count(len, ptr) == CountTurns(s, start)
  {
    len, ptr := 0, start;
    while At(s, ptr) != QUOTE && At(s, ptr) != NUL
      invariant ptr <= |s| && Complete(s, ptr)
      invariant CountTurns(s, start) == Count(len + CountTurns(s, ptr).len, CountTurns(s, ptr).next)
      decreases |s| - ptr
    {
      len := len + 1;
      if s[ptr] == BACKSLASH {
        if s[ptr + 1] == LOWER_U { HexThenComplete(s, ptr + 2); }
        ptr := ptr + 2;
      } else {
        ptr := ptr + 1;
      }
    }
  }

  /** The second pass, into a buffer of the size counted by the first one. */
  method FillPass(s: text, start: nat, out: array<byte>) returns (ptr: nat)
    requires start <= |s| && Complete(s, start) && out.Length == CountTurns(s, start).len + 1
    modifies out
    ensures ptr == Unescape(s, start).next && CString(out, Unescape(s, start).out)
  {
    hide CountTurns, Unescape, ReadTurn, Complete;
    PassesAgree(s, start);
    ghost var whole := Unescape(s, start);
    var at := 0;
    ptr := start;
    while At(s, ptr) != QUOTE && At(s, ptr) != NUL
      invariant ptr <= |s| && Complete(s, ptr) && at <= |whole.out|
      invariant whole.out == out[..at] + Unescape(s, ptr).out && whole.next == Unescape(s, ptr).next
      decreases |s| - ptr
    {
      ghost var before := out[..at];
      NextTurn(s, ptr, before);
      ptr, at := FillTurn(s, ptr, out, at);
      assert out[..at] == out[..|before|] + out[|before|..at];
    }
    Finished(s, ptr);
    assert out[..at] == whole.out;
    out[at] := NUL;
    assert out[..at] == whole.out;
    forall k | 0 <= k < at ensures out[k] == whole.out[k] && out[k] != NUL { assert out[..at][k] == whole.out[k]; }
  }

  lemma Finished(s: text, ptr: nat)
    requires ptr <= |s| && Complete(s, ptr) && (At(s, ptr) == QUOTE || At(s, ptr) == NUL)
    ensures Unescape(s, ptr) == Turn([], ptr)
  {
  }

  /** What a turn contributes to the whole. */
  lemma NextTurn(s: text, ptr: nat, before: bytes)
    requires ptr < |s| && Complete(s, ptr) && s[ptr] != QUOTE
    ensures var t := ReadTurn(s, ptr);
      Unescape(s, ptr).next == Unescape(s, t.next).next
      && before + Unescape(s, ptr).out == before + t.out + Unescape(s, t.next).out
  {
    var t := ReadTurn(s, ptr);
    assert before + (t.out + Unescape(s, t.next).out) == before + t.out + Unescape(s, t.next).out;
  }

  /** One turn of the second pass. */
  method FillTurn(s: text, start: nat, out: array<byte>, at: nat) returns (ptr: nat, end: nat)
    requires start < |s| && s[start] != QUOTE && Complete(s, start)
    requires at + |ReadTurn(s, start).out| <= out.Length
    modifies out
    ensures ptr == ReadTurn(s, start).next && end == at + |ReadTurn(s, start).out|
    ensures out[..at] == old(out[..at]) && out[at..end] == ReadTurn(s, start).out
  {
    hide ReadUnicode;
    ptr, end := start, at;
    if s[ptr] != BACKSLASH {
      out[end] := s[ptr];
      ptr, end := ptr + 1, end + 1;
    } else {
      ptr := ptr + 1;
      var c := s[ptr];
      if c == LOWER_U {
        ptr, end := Transcode(s, ptr, out, at);
      } else {
        out[end] := if c == 0x62 then 0x08 else if c == 0x66 then 0x0C else if c == 0x6E then 0x0A
                    else if c == 0x72 then 0x0D else if c == 0x74 then 0x09 else c;
        end := end + 1;
      }
      ptr := ptr + 1;
    }
  }
}
