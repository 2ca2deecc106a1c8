/** Numbers by the grammar of section 6 of RFC 8259 and by the wider one of `parse_number` in json/cJSON.c, what
    they mean, and that `parse_number` reads the longest one. */
module JsonNumeral {
  import opened CText
  import opened JsonNumber

  /** The exponent as it is written: nothing, or a letter, perhaps a sign, and digits. */
  datatype Power = NoPower | Power(letter: byte, sign: bytes, digits: bytes)

  datatype Numeral = Numeral(minus: bool, whole: bytes, fraction: bytes, power: Power)

  predicate AllDigits(ds: bytes) { forall k | 0 <= k < |ds| :: IsDigit(ds[k]) }

  /** The grammar: no leading zeros, and at least one digit wherever digits may stand. */
  predicate WellFormed(n: Numeral) {
    && AllDigits(n.whole) && (n.whole == [0x30] || (n.whole != [] && n.whole[0] != 0x30))
    && AllDigits(n.fraction)
    && (n.power.Power? ==>
          && n.power.letter in {0x65, 0x45} && n.power.sign in {[], [0x2B], [MINUS]}
          && n.power.digits != [] && AllDigits(n.power.digits))
  }

  /** What `parse_number` takes for a number: besides those of the grammar, a zero in front of other digits, a minus
      sign without digits, and an exponent without digits. */
  predicate Legible(n: Numeral) {
    && (n.minus || n.whole != []) && AllDigits(n.whole) && !(|n.whole| > 1 && n.whole[0] == n.whole[1] == 0x30)
    && AllDigits(n.fraction) && LegiblePower(n.power)
  }

  predicate LegiblePower(p: Power) {
    p.Power? ==> p.letter in {0x65, 0x45} && p.sign in {[], [0x2B], [MINUS]} && AllDigits(p.digits)
  }

  lemma WellFormedIsLegible(n: Numeral)
    requires WellFormed(n)
    ensures Legible(n)
  {
  }

  function WrittenPower(p: Power): bytes {
    if p.NoPower? then [] else [p.letter] + p.sign + p.digits
  }

  function WrittenFraction(f: bytes): bytes { if f == [] then [] else [DOT] + f }

  function Written(n: Numeral): bytes {
    (if n.minus then [MINUS] else []) + n.whole + WrittenFraction(n.fraction) + WrittenPower(n.power)
  }

  /** The number behind m, continued by digits. */
  function Continued(m: nat, ds: bytes): nat
    requires AllDigits(ds)
    decreases |ds|
  {
    if ds == [] then m else Continued(m * 10 + (ds[0] - 0x30), ds[1..])
  }

  function PowerOf(p: Power): int
    requires p.Power? ==> AllDigits(p.digits)
  {
    if p.NoPower? then 0 else if p.sign == [MINUS] then 0 - Continued(0, p.digits) as int else Continued(0, p.digits)
  }

  /** sign * (whole + fraction / 10^digits) * 10^power. */
  function Meaning(n: Numeral): real
    requires Legible(n)
  {
    (if n.minus then -1.0 else 1.0)
    * (Continued(0, n.whole) as real + Continued(0, n.fraction) as real / Pow10(|n.fraction|))
    * Pow10(PowerOf(n.power))
  }

  /** n is the longest number that stands at i. */
  ghost predicate Longest(n: Numeral, s: text, i: nat) {
    Matches(s, i, Written(n)) && forall m | Legible(m) && Matches(s, i, Written(m)) :: |Written(m)| <= |Written(n)|
  }

  // ---- powers of ten ----

  lemma Pow10Turn(x: int)
    ensures Pow10(x + 1) == 10.0 * Pow10(x) && Pow10(0) == 1.0
  {
  }

  lemma {:induction false} Pow10Sum(a: int, k: nat)
    ensures Pow10(a + k) == Pow10(a) * Pow10(k)
  {
    hide Pow10;
    if k == 0 {
      Pow10Turn(0);
    } else {
      Pow10Sum(a, k - 1);
      Pow10Turn(a + k - 1);
      Pow10Turn(k - 1);
    }
  }

  /** w with k more digits behind it. */
  function Shifted(w: real, k: nat): real { w * Pow10(k) }

  lemma ShiftedNext(w: real, k: nat)
    requires k > 0
    ensures Shifted(w * 10.0, k - 1) == Shifted(w, k)
  {
    hide Pow10;
    Pow10Turn(k - 1);
  }

  lemma ShiftedZero(w: real)
    ensures Shifted(w, 0) == w
  {
    Pow10Turn(0);
  }

  // ---- the loops ----

  lemma {:induction false} ScanDigits(s: text, i: nat, ds: bytes, m: nat)
    requires AllDigits(ds) && Matches(s, i, ds) && !IsDigit(At(s, i + |ds|))
    ensures ScanInt(s, i, m) == Digits(Continued(m, ds), i + |ds|)
    decreases |ds|
  {
    if ds != [] {
      MatchesByte(s, i, ds, 0);
      assert ds == [ds[0]] + ds[1..];
      MatchesSplit(s, i, [ds[0]], ds[1..]);
      ScanDigits(s, i + 1, ds[1..], m * 10 + (s[i] - 0x30));
    }
  }

  /** The fraction loop: n becomes n * 10^digits + fraction. */
  lemma {:induction false} ScanTenths(s: text, i: nat, ds: bytes, n: real, f: nat, w: real, scale: int)
    requires AllDigits(ds) && Matches(s, i, ds) && !IsDigit(At(s, i + |ds|)) && n == w + f as real
    ensures ScanFraction(s, i, n, scale) ==
      Fraction(Shifted(w, |ds|) + Continued(f, ds) as real, scale - |ds|, i + |ds|)
    decreases |ds|
  {
    hide Shifted, ScanFraction, Continued;
    LoopTurn(s, i, n, scale, f, ds);
    if ds == [] {
      ShiftedZero(w);
    } else {
      MatchesByte(s, i, ds, 0);
      assert ds == [ds[0]] + ds[1..];
      MatchesSplit(s, i, [ds[0]], ds[1..]);
      var d: nat := s[i] - 0x30;
      assert n * 10.0 + d as real == w * 10.0 + (f * 10 + d) as real;
      ScanTenths(s, i + 1, ds[1..], n * 10.0 + d as real, f * 10 + d, w * 10.0, scale - 1);
      ShiftedNext(w, |ds|);
    }
  }

  /** One turn of the loop, and of the value of digits. */
  lemma LoopTurn(s: text, i: nat, n: real, scale: int, f: nat, ds: bytes)
    requires i <= |s| && AllDigits(ds)
    ensures ScanFraction(s, i, n, scale) ==
      if IsDigit(At(s, i)) then ScanFraction(s, i + 1, n * 10.0 + (s[i] - 0x30) as real, scale - 1)
      else Fraction(n, scale, i)
    ensures Continued(f, ds) == if ds == [] then f else Continued(f * 10 + (ds[0] - 0x30), ds[1..])
  {
  }

  /** What the loops compute is what the text means. */
  lemma Scaled(w: real, f: real, k: nat, e: int)
    ensures (Shifted(w, k) + f) * Pow10(e - k) == (w + f / Pow10(k)) * Pow10(e)
  {
    hide Pow10;
    var p, q, x := Pow10(k), Pow10(e - k), w + f / Pow10(k);
    Pow10Sum(e - k, k);
  }

  // ---- the parts ----

  lemma WholeRead(s: text, i: nat, ds: bytes)
    requires AllDigits(ds) && !(|ds| > 1 && ds[0] == ds[1] == 0x30) && Matches(s, i, ds)
    requires IsDigit(At(s, i + |ds|)) ==> ds == [0x30] && At(s, i + |ds|) == 0x30
    ensures ScanWhole(s, i) == Digits(Continued(0, ds), i + |ds|)
  {
    hide Matches, Continued, ScanInt;
    NoDigits();
    if ds != [] {
      MatchesByte(s, i, ds, 0);
      if ds[0] == 0x30 {
        ZeroInFront(s, i, ds);
        if ds != [0x30] { ScanDigits(s, i + 1, ds[1..], 0); }
      } else {
        ScanDigits(s, i, ds, 0);
      }
    }
  }

  lemma ZeroInFront(s: text, i: nat, ds: bytes)
    requires AllDigits(ds) && ds != [] && ds[0] == 0x30 && Matches(s, i, ds)
    ensures Continued(0, ds) == Continued(0, ds[1..]) && Matches(s, i + 1, ds[1..])
    ensures ds != [0x30] ==> s[i + 1] == ds[1]
  {
    assert ds == [ds[0]] + ds[1..];
    MatchesSplit(s, i, [ds[0]], ds[1..]);
    if ds != [0x30] { MatchesByte(s, i, ds, 1); }
  }

  lemma FractionRead(s: text, d: Digits, ds: bytes)
    requires AllDigits(ds) && Matches(s, d.next, WrittenFraction(ds))
    requires if ds == [] then !(At(s, d.next) == DOT && IsDigit(At(s, d.next + 1)))
             else !IsDigit(At(s, d.next + |WrittenFraction(ds)|))
    ensures ScanRest(s, d) ==
      Fraction(Shifted(d.m as real, |ds|) + Continued(0, ds) as real, -|ds|, d.next + |WrittenFraction(ds)|)
  {
    hide Matches, ScanFraction, Shifted, Continued;
    NoDigits();
    ShiftedZero(d.m as real);
    if ds != [] {
      MatchesSplit(s, d.next, [DOT], ds);
      MatchesByte(s, d.next, [DOT], 0);
      MatchesByte(s, d.next + 1, ds, 0);
      ScanTenths(s, d.next + 1, ds, d.m as real, 0, d.m as real, 0);
    }
  }

  lemma NoDigits()
    ensures Continued(0, []) == 0
  {
  }

  /** What stands behind an exponent cannot belong to it. */
  predicate PowerStops(p: Power, s: text, e: nat) {
    if p.NoPower? then At(s, e) != 0x65 && At(s, e) != 0x45
    else !IsDigit(At(s, e)) && (p.sign == [] && p.digits == [] ==> At(s, e) != 0x2B && At(s, e) != MINUS)
  }

  lemma PowerRead(s: text, i: nat, p: Power)
    requires LegiblePower(p) && Matches(s, i, WrittenPower(p)) && PowerStops(p, s, i + |WrittenPower(p)|)
    ensures ScanExponent(s, i) == Exponent(PowerOf(p), i + |WrittenPower(p)|)
  {
    hide Matches, ScanInt, Continued;
    if p.Power? {
      MatchesSplit(s, i, [p.letter] + p.sign, p.digits);
      MatchesSplit(s, i, [p.letter], p.sign);
      MatchesByte(s, i, [p.letter], 0);
      var k := i + 1 + |p.sign|;
      if p.digits != [] { MatchesByte(s, k, p.digits, 0); }
      if p.sign != [] { MatchesByte(s, i + 1, p.sign, 0); }
      ScanDigits(s, k, p.digits, 0);
    }
  }

  /** The whole part is a `long`, and the digits of the exponent are an `int`. */
  predicate CountersHold(n: Numeral)
    requires Legible(n)
  {
    Continued(0, n.whole) < LONG_LIMIT && (n.power.Power? ==> Continued(0, n.power.digits) < INT_LIMIT)
  }

  /** `parse_number` on a number that nothing behind it extends: no counter overflows exactly if they can
      hold the whole part and the exponent; then it is read to its end, and its value is what it means. */
  lemma NumeralParsed(s: text, i: nat, n: Numeral)
    requires Legible(n) && Matches(s, i, Written(n)) && Stops(n, s, i + |Written(n)|)
    ensures i < |s| && (s[i] == MINUS || IsDigit(s[i]))
    ensures CountersFit(s, i) <==> CountersHold(n)
    ensures CountersHold(n) ==> ParseNumber(s, i) == Number(Meaning(n), i + |Written(n)|)
    ensures NumberEnd(s, i) == i + |Written(n)|
  {
    hide *;
    var j := Start(s, i, n);
    WholeOf(s, j, n);
    FractionOf(s, j, n);
    PowerIs(s, j, n);
    MeaningIs(n);
    CountersAre(n);
    ParseNumberIs(s, i);
  }

  /** Where `parse_number` stops, whether or not a counter overflows. */
  function NumberEnd(s: text, i: nat): nat
    requires i < |s|
  {
    ScanExponent(s, ScanRest(s, ScanWhole(s, if s[i] == MINUS then i + 1 else i)).next).next
  }

  lemma CountersAre(n: Numeral)
    requires Legible(n)
    ensures AllDigits(n.whole) && (n.power.Power? ==> AllDigits(n.power.digits))
    ensures CountersHold(n) <==> Continued(0, n.whole) < LONG_LIMIT && 0 - INT_LIMIT < PowerOf(n.power) < INT_LIMIT
  {
    hide Continued;
  }

  /** What stands behind a whole part cannot belong to it: no digit, or a zero behind a zero. */
  predicate WholeStops(whole: bytes, s: text, e: nat) {
    IsDigit(At(s, e)) ==> whole == [0x30] && At(s, e) == 0x30
  }

  predicate FractionStops(fraction: bytes, s: text, p: nat) {
    if fraction == [] then !(At(s, p) == DOT && IsDigit(At(s, p + 1)))
    else !IsDigit(At(s, p + |WrittenFraction(fraction)|))
  }

  /** What stands behind a number, at e, cannot belong to it. */
  predicate Stops(n: Numeral, s: text, e: nat) {
    && PowerStops(n.power, s, e)
    && (n.power.NoPower? ==>
          if n.fraction != [] then !IsDigit(At(s, e)) else FractionStops([], s, e) && WholeStops(n.whole, s, e))
  }

  /** The parts of the text and where they stand; j is the position of the first digit. */
  lemma Start(s: text, i: nat, n: Numeral) returns (j: nat)
    requires Legible(n) && Matches(s, i, Written(n)) && Stops(n, s, i + |Written(n)|)
    ensures i < |s| && (s[i] == MINUS || IsDigit(s[i])) && (s[i] == MINUS <==> n.minus)
    ensures j == if s[i] == MINUS then i + 1 else i
    ensures Stand(s, j, n) && End(j, n) == i + |Written(n)|
  {
    hide *;
    j := Parts(s, i, n);
    NextByte(s, j + |n.whole|, n);
    Assembled(s, i, j, n);
  }

  /** The parts stand one behind the other. */
  lemma Parts(s: text, i: nat, n: Numeral) returns (j: nat)
    requires Legible(n) && Matches(s, i, Written(n))
    ensures i < |s| && (s[i] == MINUS || IsDigit(s[i])) && (s[i] == MINUS <==> n.minus)
    ensures j == if s[i] == MINUS then i + 1 else i
    ensures var p := j + |n.whole|;
      var q := p + |WrittenFraction(n.fraction)|;
      && Matches(s, j, n.whole) && Matches(s, p, WrittenFraction(n.fraction)) && Matches(s, q, WrittenPower(n.power))
      && i + |Written(n)| == q + |WrittenPower(n.power)|
  {
    hide Matches, WrittenPower, WrittenFraction, LegiblePower;
    var sign := if n.minus then [MINUS] else [];
    MatchesSplit(s, i, sign + n.whole + WrittenFraction(n.fraction), WrittenPower(n.power));
    MatchesSplit(s, i, sign + n.whole, WrittenFraction(n.fraction));
    MatchesSplit(s, i, sign, n.whole);
    j := i + |sign|;
    if n.minus { MatchesByte(s, i, sign, 0); } else { MatchesByte(s, i, n.whole, 0); }
    Inside(s, i);
  }

  lemma Assembled(s: text, i: nat, j: nat, n: Numeral)
    requires Legible(n)
    requires var p := j + |n.whole|;
      var q := p + |WrittenFraction(n.fraction)|;
      && Matches(s, j, n.whole) && WholeStops(n.whole, s, p)
      && Matches(s, p, WrittenFraction(n.fraction)) && FractionStops(n.fraction, s, p)
      && Matches(s, q, WrittenPower(n.power)) && PowerStops(n.power, s, q + |WrittenPower(n.power)|)
      && i + |Written(n)| == q + |WrittenPower(n.power)|
    ensures Stand(s, j, n) && End(j, n) == i + |Written(n)|
  {
    hide Matches, Written, WrittenPower, WrittenFraction, WholeStops, FractionStops, PowerStops;
  }

  lemma Inside(s: text, i: nat)
    ensures Matches(s, i, []) ==> i <= |s|
  {
  }

  function End(j: nat, n: Numeral): nat { j + |n.whole| + |WrittenFraction(n.fraction)| + |WrittenPower(n.power)| }

  /** The whole part, the fraction and the exponent stand one behind the other, and nothing extends them. */
  ghost predicate Stand(s: text, j: nat, n: Numeral) {
    var p := j + |n.whole|;
    var q := p + |WrittenFraction(n.fraction)|;
    && Matches(s, j, n.whole) && WholeStops(n.whole, s, p)
    && Matches(s, p, WrittenFraction(n.fraction)) && FractionStops(n.fraction, s, p)
    && Matches(s, q, WrittenPower(n.power)) && PowerStops(n.power, s, End(j, n))
  }

  lemma WholeOf(s: text, j: nat, n: Numeral)
    requires Legible(n) && Stand(s, j, n)
    ensures AllDigits(n.whole) && j <= |s| && ScanWhole(s, j) == Digits(Continued(0, n.whole), j + |n.whole|)
  {
    hide ScanWhole, Continued, WrittenPower, WrittenFraction;
    WholeRead(s, j, n.whole);
  }

  lemma FractionOf(s: text, j: nat, n: Numeral)
    requires Legible(n) && Stand(s, j, n) && j <= |s|
    requires AllDigits(n.whole) && ScanWhole(s, j) == Digits(Continued(0, n.whole), j + |n.whole|)
    ensures AllDigits(n.fraction)
    ensures ScanRest(s, ScanWhole(s, j)) ==
      Fraction(Shifted(Continued(0, n.whole) as real, |n.fraction|) + Continued(0, n.fraction) as real, -|n.fraction|,
               j + |n.whole| + |WrittenFraction(n.fraction)|)
  {
    hide ScanWhole, ScanRest, Continued, WrittenPower, WrittenFraction, Matches, Shifted;
    FractionRead(s, ScanWhole(s, j), n.fraction);
  }

  lemma PowerIs(s: text, j: nat, n: Numeral)
    requires Legible(n) && Stand(s, j, n)
    ensures n.power.Power? ==> AllDigits(n.power.digits)
    ensures var q := j + |n.whole| + |WrittenFraction(n.fraction)|;
      q <= |s| && ScanExponent(s, q) == Exponent(PowerOf(n.power), End(j, n))
  {
    hide ScanExponent, PowerOf, WrittenPower, WrittenFraction;
    PowerRead(s, j + |n.whole| + |WrittenFraction(n.fraction)|, n.power);
  }

  /** `sign*n*pow(10.0,e)`. */
  function Computed(minus: bool, n: real, e: int): real { (if minus then -1.0 else 1.0) * n * Pow10(e) }

  lemma ParseNumberIs(s: text, i: nat)
    requires i < |s| && (s[i] == MINUS || IsDigit(s[i]))
    ensures var d := ScanWhole(s, if s[i] == MINUS then i + 1 else i);
      var f := ScanRest(s, d);
      var x := ScanExponent(s, f.next);
      && (CountersFit(s, i) <==> d.m < LONG_LIMIT && 0 - INT_LIMIT < x.e < INT_LIMIT)
      && (CountersFit(s, i) ==> ParseNumber(s, i) == Number(Computed(s[i] == MINUS, f.n, f.scale + x.e), x.next))
      && NumberEnd(s, i) == x.next
  {
    hide Pow10, ScanWhole, ScanRest, ScanExponent;
  }

  /** The meaning in the form that the code computes. */
  lemma MeaningIs(n: Numeral)
    requires Legible(n)
    ensures Meaning(n) ==
      Computed(n.minus, Shifted(Continued(0, n.whole) as real, |n.fraction|) + Continued(0, n.fraction) as real,
               -|n.fraction| + PowerOf(n.power))
  {
    hide Continued, Pow10, Shifted;
    var w, f, k, e := Continued(0, n.whole) as real, Continued(0, n.fraction) as real, |n.fraction|, PowerOf(n.power);
    var sign := if n.minus then -1.0 else 1.0;
    Scaled(w, f, k, e);
    assert -k + e == e - k;
  }

  /** Nothing extends a part of the number, because of what the next part begins with. */
  lemma NextByte(s: text, p: nat, n: Numeral)
    requires Legible(n) && Matches(s, p, WrittenFraction(n.fraction))
    requires Matches(s, p + |WrittenFraction(n.fraction)|, WrittenPower(n.power))
    requires Stops(n, s, p + |WrittenFraction(n.fraction)| + |WrittenPower(n.power)|)
    ensures WholeStops(n.whole, s, p) && FractionStops(n.fraction, s, p)
    ensures PowerStops(n.power, s, p + |WrittenFraction(n.fraction)| + |WrittenPower(n.power)|)
  {
    if n.fraction != [] { MatchesByte(s, p, WrittenFraction(n.fraction), 0); }
    if n.power.Power? { MatchesByte(s, p + |WrittenFraction(n.fraction)|, WrittenPower(n.power), 0); }
  }

  // ---- the longest number ----

  /** A number that may go on does go on. */
  lemma Extended(s: text, i: nat, n: Numeral) returns (m: Numeral)
    requires Legible(n) && Matches(s, i, Written(n)) && !Stops(n, s, i + |Written(n)|)
    ensures Legible(m) && Matches(s, i, Written(m)) && |Written(m)| > |Written(n)|
  {
    hide Matches, Written, Legible;
    var e := i + |Written(n)|;
    var more;
    m, more := Longer(n, At(s, e), At(s, e + 1));
    Behind(s, i, Written(n), more);
  }

  /** The number that goes on with c and perhaps d. */
  lemma Longer(n: Numeral, c: byte, d: byte) returns (m: Numeral, more: bytes)
    requires Legible(n)
    requires if n.power.Power? then
               IsDigit(c) || (n.power.sign == [] && n.power.digits == [] && (c == 0x2B || c == MINUS))
             else
               || c == 0x65 || c == 0x45
               || if n.fraction != [] then IsDigit(c)
                  else (c == DOT && IsDigit(d)) || (IsDigit(c) && !(n.whole == [0x30] && c == 0x30))
    ensures Legible(m) && Written(m) == Written(n) + more
    ensures more == [c] || (more == [c, d] && d != NUL)
  {
    hide Written;
    more := [c];
    if n.power.Power? {
      m := MorePower(n, c);
    } else if c == 0x65 || c == 0x45 {
      m := n.(power := Power(c, [], []));
      WrittenWith(n, c);
    } else if n.fraction != [] {
      m := n.(fraction := n.fraction + [c]);
      WrittenMore(n, [c]);
    } else if c == DOT {
      more := [c, d];
      m := n.(fraction := [] + [d]);
      WrittenMore(n, [d]);
    } else {
      m := n.(whole := n.whole + [c]);
      WrittenWhole(n, [c]);
    }
  }

  lemma MorePower(n: Numeral, c: byte) returns (m: Numeral)
    requires Legible(n) && n.power.Power?
    requires IsDigit(c) || (n.power.sign == [] && n.power.digits == [] && (c == 0x2B || c == MINUS))
    ensures Legible(m) && Written(m) == Written(n) + [c]
  {
    var p := n.power;
    m := n.(power := if IsDigit(c) then p.(digits := p.digits + [c]) else p.(sign := [c]));
    assert WrittenPower(m.power) == WrittenPower(p) + [c];
  }

  lemma WrittenWith(n: Numeral, c: byte)
    requires n.power.NoPower?
    ensures Written(n.(power := Power(c, [], []))) == Written(n) + [c]
  {
    assert WrittenPower(Power(c, [], [])) == [c];
  }

  lemma WrittenMore(n: Numeral, ds: bytes)
    requires n.power.NoPower? && ds != []
    ensures Written(n.(fraction := n.fraction + ds)) == Written(n) + (if n.fraction == [] then [DOT] + ds else ds)
  {
  }

  lemma WrittenWhole(n: Numeral, ds: bytes)
    requires n.power.NoPower? && n.fraction == []
    ensures Written(n.(whole := n.whole + ds)) == Written(n) + ds
  {
  }

  lemma Behind(s: text, i: nat, a: bytes, b: bytes)
    requires Matches(s, i, a) && forall k | 0 <= k < |b| :: At(s, i + |a| + k) == b[k] != NUL
    ensures Matches(s, i, a + b)
  {
    if b != [] { assert b[|b| - 1] != NUL; }
    var e := i + |a|;
    assert e + |b| <= |s|;
    forall k | 0 <= k < |b| ensures s[e..e + |b|][k] == b[k] { assert At(s, e + k) == b[k]; }
    assert s[e..e + |b|] == b;
    MatchesJoin(s, i, a, b);
  }

  lemma {:induction false} ExtendedToEnd(s: text, i: nat, n: Numeral) returns (m: Numeral)
    requires Legible(n) && Matches(s, i, Written(n))
    ensures Legible(m) && Matches(s, i, Written(m)) && Stops(m, s, i + |Written(m)|) && |Written(m)| >= |Written(n)|
    decreases |s| - |Written(n)|
  {
    hide Stops, Written, Legible;
    m := n;
    if !Stops(n, s, i + |Written(n)|) {
      m := Extended(s, i, n);
      m := ExtendedToEnd(s, i, m);
    }
  }

  /** A number is the longest one that stands there exactly if nothing behind it extends it. */
  lemma LongestIff(s: text, i: nat, n: Numeral)
    requires Legible(n) && Matches(s, i, Written(n))
    ensures Longest(n, s, i) <==> Stops(n, s, i + |Written(n)|)
  {
    hide Stops, Written, Legible, Matches, NumberEnd;
    if Stops(n, s, i + |Written(n)|) {
      NumeralParsed(s, i, n);
      forall m | Legible(m) && Matches(s, i, Written(m)) ensures |Written(m)| <= |Written(n)| {
        var l := ExtendedToEnd(s, i, m);
        NumeralParsed(s, i, l);
      }
    } else {
      var m := Extended(s, i, n);
    }
  }

  /** Where a minus sign or a digit stands, a longest number stands. */
  lemma LongestExists(s: text, i: nat) returns (n: Numeral)
    requires i < |s| && (s[i] == MINUS || IsDigit(s[i]))
    ensures Legible(n) && Longest(n, s, i)
  {
    hide Stops;
    n := Numeral(s[i] == MINUS, if s[i] == MINUS then [] else [s[i]], [], NoPower);
    assert Written(n) == [s[i]];
    n := ExtendedToEnd(s, i, n);
    LongestIff(s, i, n);
  }

  /** Bytes that extend no number, and a sign only behind a bare exponent. */
  lemma StopsAt(n: Numeral, s: text, e: nat)
    requires Legible(n) && !ExtendsNumber(At(s, e))
    requires WellFormed(n) || (At(s, e) != 0x2B && At(s, e) != MINUS)
    ensures Stops(n, s, e)
  {
  }
}
