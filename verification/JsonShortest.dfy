/** What `print_string_ptr` of json/cJSON.c writes is the shortest literal of RFC 8259 that means the string, and the
    only one of that length whose hexadecimal digits are lower case. */
module JsonShortest {
  import opened CText
  import opened JsonString
  import opened JsonLiteral
  import Utf8

  predicate LowerHex(c: Char) { c.Unicode? ==> forall k | 0 <= k < |c.d| :: !(0x41 <= c.d[k] <= 0x46) }

  ghost predicate LowerHexAll(cs: Literal) { forall c | c in cs :: LowerHex(c) }

  lemma {:induction false} EscapeConcat(a: text, b: text)
    ensures Escape(a + b) == Escape(a) + Escape(b)
  {
    if a == [] {
      assert a + b == b;
    } else {
      EscapeConcat(a[1..], b);
      assert (a + b)[1..] == a[1..] + b;
    }
  }

  lemma EscapeOne(c: byte)
    requires c != NUL
    ensures Escape([c]) == EscapeByte(c)
  {
    assert Escape([c]) == EscapeByte(c) + Escape([]);
  }

  /** Bytes of longer UTF-8 sequences are not escaped. */
  lemma {:induction false} NotEscaped(t: text)
    requires forall k | 0 <= k < |t| :: t[k] >= 0x80
    ensures Escape(t) == t
  {
    if t != [] { NotEscaped(t[1..]); }
  }

  lemma LongEncoding(uc: nat)
    requires 0x80 <= uc < 0x110000
    ensures Escape(Utf8.Encode(uc)) == Utf8.Encode(uc)
  {
    var t := Utf8.Encode(uc);
    forall k | 0 <= k < |t| ensures t[k] >= 0x80 { Utf8.EncodedByteValue(uc, k); }
    NotEscaped(t);
  }

  lemma ShortEncoding(uc: nat)
    requires 0 < uc < 0x80
    ensures Utf8.Encode(uc) == [uc]
  {
    Utf8.EncodedByteValue(uc, 0);
  }

  /** The text of the first character, or of the first pair. */
  function WrittenFirst(cs: Literal): bytes
    requires cs != []
  {
    if Width(cs) == 2 then Written(cs[0]) + Written(cs[1]) else Written(cs[0])
  }

  /** e is no longer than t; and if it is as long and the digits in t are lower case, it is t. */
  predicate NoLonger(e: bytes, t: bytes, lower: bool) { |e| <= |t| && (|e| == |t| && lower ==> e == t) }

  lemma PlainOrShort(c: Char)
    requires WellFormed(c) && Legible(c) && !c.Unicode?
    ensures NUL !in Single(c) && NoLonger(Escape(Single(c)), Written(c), true)
  {
    EscapeOne(Single(c)[0]);
  }

  lemma OneEscape(c: Char)
    requires WellFormed(c) && Legible(c) && c.Unicode? && !IsHighEscape(c) && !IsLowEscape(c) && Code(c) != 0
    ensures NoLonger(Escape(Single(c)), Written(c), LowerHex(c))
  {
    hide Utf8.Encode, Escape;
    WellFormedIsLegible(c);
    if Code(c) < 0x80 {
      ShortEncoding(Code(c));
      EscapeOne(Code(c));
      if LowerHex(c) && Code(c) < 0x20 { DigitsOf(c.d); }
    } else {
      LongEncoding(Code(c));
    }
  }

  /** The lower-case digits of a number below 256. */
  lemma DigitsOf(d: bytes)
    requires |d| == 4 && Hex4At(d, 0) && Hex4(d, 0) < 0x100 && forall k | 0 <= k < 4 :: !(0x41 <= d[k] <= 0x46)
    ensures d == [0x30, 0x30, HexDigit(Hex4(d, 0) / 16), HexDigit(Hex4(d, 0) % 16)]
  {
    var a, b, v, w := HexValue(d[0]), HexValue(d[1]), HexValue(d[2]), HexValue(d[3]);
    assert a == 0 && b == 0 && Hex4(d, 0) == v * 16 + w;
  }

  lemma FirstNoLonger(cs: Literal)
    requires cs != [] && Paired(cs) && WellFormedAll(cs) && NUL !in MeaningFirst(cs)
    ensures NoLonger(Escape(MeaningFirst(cs)), WrittenFirst(cs), LowerHexAll(cs))
  {
    hide Utf8.Encode, Escape;
    assert WellFormed(cs[0]) && Legible(cs[0]);
    if IsHighEscape(cs[0]) {
      assert WellFormed(cs[1]) && Legible(cs[1]);
      LongEncoding(Utf8.RequiredCodePoint(Code(cs[0]), Code(cs[1])));
    } else if cs[0].Unicode? {
      OneEscape(cs[0]);
    } else {
      PlainOrShort(cs[0]);
    }
  }

  lemma Together(a: bytes, b: bytes, c: bytes, d: bytes, lower: bool)
    requires NoLonger(a, c, lower) && NoLonger(b, d, lower)
    ensures NoLonger(a + b, c + d, lower)
  {
  }

  lemma WrittenStep(cs: Literal)
    requires cs != []
    ensures WrittenAll(cs) == WrittenFirst(cs) + WrittenAll(cs[Width(cs)..])
  {
    if Width(cs) == 2 {
      assert cs[1..][1..] == cs[2..];
      assert WrittenAll(cs) == Written(cs[0]) + (Written(cs[1]) + WrittenAll(cs[2..]));
    }
  }

  /** No literal of the grammar that means t is shorter than what is printed for t; and one that is as long is what
      is printed, up to the case of hexadecimal digits. */
  lemma {:induction false} Shortest(t: text, cs: Literal)
    requires WellFormedAll(cs) && Paired(cs) && MeaningOf(cs) == t
    ensures |Escape(t)| <= |WrittenAll(cs)|
    ensures |Escape(t)| == |WrittenAll(cs)| && LowerHexAll(cs) ==> Escape(t) == WrittenAll(cs)
    decreases |cs|
  {
    hide Escape, WrittenFirst, MeaningFirst, WellFormed, LowerHex, Legible;
    if cs == [] {
      NothingWritten(cs);
      NotEscaped([]);
    } else {
      var rest := cs[Width(cs)..];
      MeaningStep(cs);
      WrittenStep(cs);
      FirstNoLonger(cs);
      Shortest(MeaningOf(rest), rest);
      EscapeConcat(MeaningFirst(cs), MeaningOf(rest));
      assert LowerHexAll(cs) ==> LowerHexAll(rest);
      Together(Escape(MeaningFirst(cs)), Escape(MeaningOf(rest)), WrittenFirst(cs), WrittenAll(rest), LowerHexAll(cs));
    }
  }
}
