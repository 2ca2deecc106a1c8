/** The UTF-16 to UTF-8 transcoder inside `parse_string` of json/cJSON.c. */
module Utf8 {
  import opened Bits
  import opened CText

  /** Low 6 bits behind a continuation mark: `(uc | 0x80) & 0xBF`. */
  function Continuation(uc: nat): nat {
    And(Or(uc, 0x80), 0xBF)
  }

  lemma SecondBit(a: nat)
    ensures And(Or(a, 2), 2) == 2
  {
    var p := Or(a / 2, 1);
    assert p % 2 == 1 by { Step(a / 2 / 2, 0, a / 2 % 2, 1); }
    assert Or(a, 2) == 2 * p + a % 2 by { Step(a / 2, 1, a % 2, 0); }
    assert And(p, 1) == 1 by { Step(p / 2, 0, 1, 1); }
    Step(p, 1, a % 2, 0);
  }

  lemma ContinuationIsLowBits(uc: nat)
    ensures Continuation(uc) == 0x80 + uc % 64
  {
    var a, c := uc / 64, uc % 64;
    var o := Or(a, 2);
    assert Or(uc, 0x80) == o * 64 + c by { Powers(); SplitOr(6, a, 2, c, 0); }
    assert And(o * 64 + c, 0xBF) == And(o, 2) * 64 + And(c, 63) by { Powers(); SplitAnd(6, o, 2, c, 63); }
    assert And(c, 63) == c by { Powers(); Mask(6, c); }
    SecondBit(a);
  }

  /** How many bytes the encoder chooses for a code point. */
  function EncodedLength(uc: nat): (n: nat) {
    if uc < 0x80 then 1 else if uc < 0x800 then 2 else if uc < 0x10000 then 3 else 4
  }

  /** `firstByteMark[len]` of the lengths in use. */
  function FirstByteMark(len: nat): byte {
    if len == 2 then 0xC0 else if len == 3 then 0xE0 else if len == 4 then 0xF0 else 0x00
  }

  /** `uc >>= 6`, n times. */
  function Shift6(uc: nat, n: nat): nat
    requires n <= 3
  {
    if n == 0 then uc else if n == 1 then uc / 64 else if n == 2 then uc / 64 / 64 else uc / 64 / 64 / 64
  }

  /** The byte that the fall-through switch leaves at offset k of a sequence of len bytes. */
  function EncodedByte(uc: nat, len: nat, k: nat): nat
    requires 1 <= len <= 4 && k < len
  {
    if k == 0 then Or(Shift6(uc, len - 1), FirstByteMark(len)) else Continuation(Shift6(uc, len - 1 - k))
  }

  /** The numeric value of each byte the encoder emits; in particular each fits in one byte. */
  lemma EncodedByteValue(uc: nat, k: nat)
    requires 0 < uc < 0x110000 && k < EncodedLength(uc)
    ensures var len := EncodedLength(uc);
      EncodedByte(uc, len, k) ==
      if k > 0 then 0x80 + Shift6(uc, len - 1 - k) % 64
      else if len == 1 then uc
      else FirstByteMark(len) + Shift6(uc, len - 1)
    ensures 0 < EncodedByte(uc, EncodedLength(uc), k) < 256
  {
    var len := EncodedLength(uc);
    if k > 0 {
      ContinuationIsLowBits(Shift6(uc, len - 1 - k));
    } else if len > 1 {
      Powers();
      var top := Shift6(uc, len - 1);
      if len == 2 { OrIsSum(5, 6, top); }
      else if len == 3 { OrIsSum(4, 14, top); }
      else { OrIsSum(4, 15, top); }
    }
  }

  /** The bytes emitted for a code point. */
  function Encode(uc: nat): (t: text)
    requires 0 < uc < 0x110000
    ensures |t| == EncodedLength(uc)
    ensures forall k | 0 <= k < |t| :: t[k] == EncodedByte(uc, EncodedLength(uc), k)
  {
    var len := EncodedLength(uc);
    assert forall k | 0 <= k < len :: 0 < EncodedByte(uc, len, k) < 256 by {
      forall k | 0 <= k < len ensures 0 < EncodedByte(uc, len, k) < 256 { EncodedByteValue(uc, k); }
    }
    seq(len, k requires 0 <= k < len => EncodedByte(uc, len, k))
  }

  // ---- an independent decoder, from section 3 of RFC 3629 ----

  predicate Tail(b: byte) { 0x80 <= b < 0xC0 }

  /** The number that lead byte a (whose mark is m) and tail bytes stand for. */
  function Value(a: int, m: int, tail: seq<byte>): int {
    var b := seq(|tail|, k requires 0 <= k < |tail| => tail[k] as int - 0x80);
    if |b| == 0 then a - m
    else if |b| == 1 then (a - m) * 64 + b[0]
    else if |b| == 2 then ((a - m) * 64 + b[0]) * 64 + b[1]
    else if |b| == 3 then (((a - m) * 64 + b[0]) * 64 + b[1]) * 64 + b[2]
    else -1
  }

  /** The number encoded by a UTF-8 sequence of the table in section 3 of RFC 3629, of any length form. */
  function Decode(t: seq<byte>): (r: int)
  {
    if |t| == 1 && t[0] < 0x80 then Value(t[0], 0, [])
    else if |t| == 2 && 0xC0 <= t[0] < 0xE0 && Tail(t[1]) then Value(t[0], 0xC0, t[1..])
    else if |t| == 3 && 0xE0 <= t[0] < 0xF0 && Tail(t[1]) && Tail(t[2]) then Value(t[0], 0xE0, t[1..])
    else if |t| == 4 && 0xF0 <= t[0] < 0xF8 && Tail(t[1]) && Tail(t[2]) && Tail(t[3]) then
      Value(t[0], 0xF0, t[1..])
    else -1
  }

  /** The encoder is a right inverse of decoding... */
  lemma EncodeDecodes(uc: nat)
    requires 0 < uc < 0x110000
    ensures Decode(Encode(uc)) == uc
  {
    var t, len := Encode(uc), EncodedLength(uc);
    forall k | 0 <= k < len
      ensures t[k] == if k > 0 then 0x80 + Shift6(uc, len - 1 - k) % 64
                      else if len == 1 then uc else FirstByteMark(len) + Shift6(uc, len - 1)
    {
      EncodedByteValue(uc, k);
    }
  }

  /** ...and every other sequence that decodes to the same number is at least as long. */
  lemma EncodeIsShortest(uc: nat, t: seq<byte>)
    requires 0 < uc < 0x110000 && Decode(t) == uc
    ensures |Encode(uc)| <= |t|
    ensures |Encode(uc)| == |t| ==> t == Encode(uc)
  {
    EncodeDecodes(uc);
    var e := Encode(uc);
    if |e| == |t| {
      assert Decode(e) == Decode(t);
      if |t| == 1 { assert t[0] == e[0]; }
      else if |t| == 2 { assert t[0] == e[0] && t[1] == e[1]; }
      else if |t| == 3 { assert t[0] == e[0] && t[1] == e[1] && t[2] == e[2]; }
      else { assert t[0] == e[0] && t[1] == e[1] && t[2] == e[2] && t[3] == e[3]; }
    }
  }

  // ---- surrogate pairs ----

  predicate IsHigh(u: nat) { 0xD800 <= u <= 0xDBFF }

  predicate IsLow(u: nat) { 0xDC00 <= u <= 0xDFFF }

  /** `0x10000 | ((uc & 0x3FF) << 10) | (uc2 & 0x3FF)`. */
  function Combine(hi: nat, lo: nat): nat {
    Or(Or(0x10000, And(hi, 0x3FF) * 1024), And(lo, 0x3FF))
  }

  /** The code point that section 2.2 of RFC 2781 requires for a surrogate pair. */
  function RequiredCodePoint(hi: nat, lo: nat): nat
    requires IsHigh(hi) && IsLow(lo)
  {
    0x10000 + (hi - 0xD800) * 1024 + (lo - 0xDC00)
  }

  /** Or-ing 1 sets the lowest bit: it adds 1 exactly to even numbers. */
  lemma OrOne(w: nat)
    ensures Or(1, w) == if w % 2 == 1 then w else w + 1
  {
    Step(0, w / 2, 1, w % 2);
  }

  lemma OrSixtyFour(v: nat)
    ensures Or(64, v) == if v / 64 % 2 == 1 then v else v + 64
  {
    Powers();
    SplitOr(6, 1, v / 64, 0, v % 64);
    OrOne(v / 64);
  }

  lemma CombineParts(hi: nat, lo: nat, v: nat, l: nat) returns (q: nat)
    requires v == hi % 1024 && l == lo % 1024
    ensures q == if v / 64 % 2 == 1 then v else v + 64
    ensures Combine(hi, lo) == q * 1024 + l
  {
    assert And(hi, 0x3FF) == v by { Powers(); MaskIsRemainder(10, hi); }
    assert And(lo, 0x3FF) == l by { Powers(); MaskIsRemainder(10, lo); }
    q := Or(64, v);
    assert Or(64 * 1024, v * 1024) == q * 1024 by { Powers(); SplitOr(10, 64, v, 0, 0); }
    assert Or(q * 1024, l) == q * 1024 + l by { Powers(); OrIsSum(10, q, l); }
    OrSixtyFour(v);
  }

  lemma CombineArithmetic(hi: nat, lo: nat, q: nat, c: nat)
    requires IsHigh(hi) && IsLow(lo)
    requires q == if hi % 1024 / 64 % 2 == 1 then hi % 1024 else hi % 1024 + 64
    requires c == q * 1024 + lo % 1024
    ensures c == RequiredCodePoint(hi, lo) - (if hi / 64 % 2 == 1 then 0x10000 else 0)
    ensures 0x10000 <= c < 0x110000
  {
    var v := hi - 0xD800;
    assert hi / 64 == 864 + v / 64;
  }

  /** What the OR computes: bit 6 of the high surrogate lands on the bit that is already set. */
  lemma CombineValue(hi: nat, lo: nat) returns (c: nat)
    requires IsHigh(hi) && IsLow(lo)
    ensures c == Combine(hi, lo) == RequiredCodePoint(hi, lo) - (if hi / 64 % 2 == 1 then 0x10000 else 0)
    ensures 0x10000 <= Combine(hi, lo) < 0x110000
  {
    var q := CombineParts(hi, lo, hi % 1024, lo % 1024);
    c := q * 1024 + lo % 1024;
    CombineArithmetic(hi, lo, q, c);
  }

  lemma CombineRange(hi: nat, lo: nat)
    requires IsHigh(hi) && IsLow(lo)
    ensures 0x10000 <= Combine(hi, lo) < 0x110000
  {
    var c := CombineValue(hi, lo);
  }

  /** `hi & 0x40`: bit 6. */
  lemma BitSix(hi: nat)
    ensures And(hi, 0x40) == hi / 64 % 2 * 64
  {
    Powers();
    assert And(hi / 64 * 64 + hi % 64, 1 * 64 + 0) == And(hi / 64, 1) * 64 by { SplitAnd(6, hi / 64, 1, hi % 64, 0); }
    Step(hi / 64 / 2, 0, hi / 64 % 2, 1);
  }

  /** A pair is combined to the right code point exactly when bit 6 of the high surrogate is clear. */
  lemma PairIsRightIff(hi: nat, lo: nat)
    requires IsHigh(hi) && IsLow(lo)
    ensures 0 < Combine(hi, lo) < 0x110000
    ensures Decode(Encode(Combine(hi, lo))) == RequiredCodePoint(hi, lo) <==> And(hi, 0x40) == 0
  {
    var c := CombineValue(hi, lo);
    EncodeDecodes(c);
    BitSix(hi);
  }

  /** One such pair is D841 DC01: the code point U+20401 becomes U+10401. */
  lemma PairThatIsWrong(hi: nat, lo: nat)
    requires hi == 0xD841 && lo == 0xDC01
    ensures IsHigh(hi) && IsLow(lo) && RequiredCodePoint(hi, lo) == 0x20401
    ensures Combine(hi, lo) == 0x10401 && Decode(Encode(Combine(hi, lo))) == 0x10401
  {
    hide Combine, Encode, Decode, Or, And;
    assert hi / 64 % 2 == 1;
    var c := CombineValue(hi, lo);
    EncodeDecodes(c);
  }
}
