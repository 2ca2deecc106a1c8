/** Numbers of json/cJSON.c, over exact reals. */
module JsonNumber {
  import opened CText

  predicate IsDigit(c: byte) { 0x30 <= c <= 0x39 }

  function Pow10(e: int): (r: real)
    ensures r > 0.0
    decreases if e < 0 then -e else e
  {
    if e == 0 then 1.0 else if e > 0 then 10.0 * Pow10(e - 1) else Pow10(e + 1) / 10.0
  }

  /** `(int)n`: truncation toward zero. */
  function Trunc(n: real): int {
    if n < 0.0 then -((-n).Floor) else n.Floor
  }

  /** What `long m` and `int subscale` cannot hold any more. */
  const LONG_LIMIT: nat := 0x8000_0000_0000_0000
  const INT_LIMIT: nat := 0x8000_0000

  /** The conversion to `int` is defined. */
  predicate FitsInt(n: real) { 0 - INT_LIMIT <= Trunc(n) < INT_LIMIT }

  /** v is what `(int)n` gives: the truncated number if `int` can hold it, and anything otherwise. */
  predicate IntOf(v: int, n: real) { FitsInt(n) ==> v == Trunc(n) }

  /** An integer, by its digits, that `parse_number` can add up in a `long`. */
  predicate IsLong(n: real) {
    n == n.Floor as real && 0 - LONG_LIMIT < n.Floor < LONG_LIMIT
  }

  /** An integer whose text and terminator fit in the 64 bytes of `print_number`. */
  predicate FitsBuffer(n: real) {
    n == n.Floor as real && 0 < n.Floor + Pow(62) && n.Floor < Pow(63)
  }

  lemma TruncIs(d: real)
    requires d == d.Floor as real
    ensures Trunc(d) as real == d && Trunc(d) == d.Floor
  {
    if d < 0.0 {
      var m := d.Floor;
      assert -d == (-m) as real;
      assert (-d).Floor == -m;
    }
  }

  // ---- reading ----

  /** A digit loop: the number read so far, and the position. */
  datatype Digits = Digits(m: nat, next: nat)

  function ScanInt(s: text, i: nat, m: nat): (d: Digits)
    requires i <= |s|
    ensures i <= d.next <= |s| && d.m >= m
    ensures !IsDigit(At(s, d.next))
    decreases |s| - i
  {
    if IsDigit(At(s, i)) then ScanInt(s, i + 1, m * 10 + (s[i] - 0x30)) else Digits(m, i)
  }

  /** The digit loop behind a decimal point: value and (negative) scale accumulate. */
  datatype Fraction = Fraction(n: real, scale: int, next: nat)

  function ScanFraction(s: text, i: nat, n: real, scale: int): (f: Fraction)
    requires i <= |s|
    ensures i <= f.next <= |s|
    decreases |s| - i
  {
    if IsDigit(At(s, i)) then ScanFraction(s, i + 1, n * 10.0 + (s[i] - 0x30) as real, scale - 1)
    else Fraction(n, scale, i)
  }

  /** The exponent: its signed value and the position behind it. */
  datatype Exponent = Exponent(e: int, next: nat)

  function ScanExponent(s: text, i: nat): (x: Exponent)
    requires i <= |s|
    ensures i <= x.next <= |s|
  {
    if At(s, i) != 0x65 && At(s, i) != 0x45 then Exponent(0, i)
    else if At(s, i + 1) == 0x2B then var d := ScanInt(s, i + 2, 0); Exponent(d.m, d.next)
    else if At(s, i + 1) == MINUS then var d := ScanInt(s, i + 2, 0); Exponent(0 - d.m as int, d.next)
    else var d := ScanInt(s, i + 1, 0); Exponent(d.m, d.next)
  }

  /** An optional leading zero, then digits that start with another one. */
  function ScanWhole(s: text, i: nat): (d: Digits)
    requires i <= |s|
    ensures i <= d.next <= |s|
    ensures IsDigit(At(s, i)) ==> i < d.next
  {
    var p := if At(s, i) == 0x30 then i + 1 else i;
    if 0x31 <= At(s, p) <= 0x39 then ScanInt(s, p, 0) else Digits(0, p)
  }

  /** The fraction, if a digit follows the point. */
  function ScanRest(s: text, d: Digits): (f: Fraction)
    requires d.next <= |s|
    ensures d.next <= f.next <= |s|
  {
    if At(s, d.next) == DOT && IsDigit(At(s, d.next + 1)) then ScanFraction(s, d.next + 1, d.m as real, 0)
    else Fraction(d.m as real, 0, d.next)
  }

  /** Neither `long m` nor `int subscale` overflows. */
  predicate CountersFit(s: text, i: nat)
    requires i < |s| && (s[i] == MINUS || IsDigit(s[i]))
  {
    var d := ScanWhole(s, if s[i] == MINUS then i + 1 else i);
    var x := ScanExponent(s, ScanRest(s, d).next);
    d.m < LONG_LIMIT && 0 - INT_LIMIT < x.e < INT_LIMIT
  }

  datatype Number = Number(value: real, next: nat)

  /** `parse_number`. */
  function ParseNumber(s: text, i: nat): (r: Number)
    requires i < |s| && (s[i] == MINUS || IsDigit(s[i])) && CountersFit(s, i)
    ensures i < r.next <= |s|
  {
    var d := ScanWhole(s, if s[i] == MINUS then i + 1 else i);
    var f := ScanRest(s, d);
    var x := ScanExponent(s, f.next);
    Number((if s[i] == MINUS then -1.0 else 1.0) * f.n * Pow10(f.scale + x.e), x.next)
  }

  // ---- writing ----

  /** `%d` of a non-negative number. */
  function Decimal(n: nat): (t: bytes)
    ensures |t| > 0 && forall k | 0 <= k < |t| :: IsDigit(t[k])
  {
    if n < 10 then [0x30 + n] else Decimal(n / 10) + [0x30 + n % 10]
  }

  /** `print_number` of an integer: `%d`, or `%.0f` for one that `int` cannot hold. */
  function PrintInt(n: int): (t: bytes)
    ensures |t| > 0 && forall k | 0 <= k < |t| :: IsDigit(t[k]) || t[k] == MINUS
  {
    if n < 0 then [MINUS] + Decimal(-n) else Decimal(n)
  }

  function Pow(k: nat): nat { if k == 0 then 1 else 10 * Pow(k - 1) }

  lemma {:induction false} DecimalFitsIff(n: nat, k: nat)
    requires k > 0
    ensures |Decimal(n)| <= k <==> n < Pow(k)
    ensures Pow(k) >= 10
  {
    if k > 1 { DecimalFitsIff(n / 10, k - 1); }
  }

  /** Every `int` and its terminator fit in the 21 bytes that `print_number` allocates for them. */
  lemma PrintIntFits(n: int)
    requires 0 - INT_LIMIT <= n < INT_LIMIT
    ensures |PrintInt(n)| <= 11
  {
    assert Pow(5) == 100000 && Pow(10) == 100000 * Pow(5);
    DecimalFitsIff(if n < 0 then -n else n, 10);
  }

  /** The text that `%.0f` makes of an integer, and its terminator, fit in 64 bytes if and only if the integer
      has at most 63 digits, or 62 and a sign. */
  lemma FixedFitsIff(n: int)
    ensures |PrintInt(n)| + 1 <= 64 <==> 0 < n + Pow(62) && n < Pow(63)
  {
    hide Pow, Decimal;
    DecimalFitsIff(if n < 0 then -n else n, if n < 0 then 62 else 63);
    DecimalFitsIff(0, 62);
    DecimalFitsIff(0, 63);
  }

  /** A character that would make the reader go on behind an integer. */
  predicate ExtendsNumber(c: byte) { IsDigit(c) || c == DOT || c == 0x65 || c == 0x45 }
}
