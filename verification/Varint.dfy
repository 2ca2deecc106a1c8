/** Base 128 varints of the Protocol Buffers encoding, and the integers that fields store in them. */
module Varint {
  import opened CText

  const TWO_31: int := 0x8000_0000
  const TWO_32: int := 0x1_0000_0000
  const TWO_63: int := 0x8000_0000_0000_0000
  const TWO_64: int := 0x1_0000_0000_0000_0000

  type uint64 = x: int | 0 <= x < TWO_64
  type int64 = x: int | -TWO_63 <= x < TWO_63
  type int32 = x: int | -TWO_31 <= x < TWO_31

  /** Seven bits a byte, the lowest first; the high bit says that more bytes follow. */
  function Encode(n: nat): (e: bytes)
    ensures |e| > 0
  {
    if n < 128 then [n] else [128 + n % 128] + Encode(n / 128)
  }

  datatype Read = NoVarint | Varint(v: nat, n: nat)

  /** The number in at most max bytes at the front of s, and how many bytes it takes. */
  function DecodeMax(s: bytes, max: nat): (r: Read)
    ensures r.Varint? ==> 0 < r.n <= max && r.n <= |s|
  {
    if max == 0 || s == [] then NoVarint
    else if s[0] < 128 then Read.Varint(s[0], 1)
    else
      match DecodeMax(s[1..], max - 1)
      case NoVarint => NoVarint
      case Varint(v, n) => Read.Varint(s[0] - 128 + 128 * v, n + 1)
  }

  /** A varint of up to ten bytes; bits beyond the 64th are dropped. */
  function Decode(s: bytes): (r: Read)
    ensures r.Varint? ==> 0 < r.n <= |s| && r.v < TWO_64
  {
    match DecodeMax(s, 10)
    case NoVarint => NoVarint
    case Varint(v, n) => Read.Varint(v % TWO_64, n)
  }

  function Pow128(k: nat): (p: nat)
    ensures p > 0
  {
    if k == 0 then 1 else 128 * Pow128(k - 1)
  }

  /** The bytes of a varint: the i-th holds the i-th group of seven bits, and its high bit says that more follow;
      the last group is zero only for the number zero. */
  lemma {:induction false} EncodeAt(n: nat, i: nat)
    requires i < |Encode(n)|
    ensures Encode(n)[i] % 128 == n / Pow128(i) % 128
    ensures Encode(n)[i] >= 128 <==> i < |Encode(n)| - 1
    ensures n > 0 && i == |Encode(n)| - 1 ==> Encode(n)[i] > 0
  {
    if i > 0 {
      EncodeAt(n / 128, i - 1);
      DivDiv(n, Pow128(i - 1));
    }
  }

  lemma DivDiv(n: nat, b: nat)
    requires b > 0
    ensures n / 128 / b == n / (128 * b)
  {
    var q, r := n / 128 / b, n / 128 % b;
    assert n == 128 * (b * q + r) + n % 128;
    assert 128 * (b * q) == (128 * b) * q;
    Quotient(n, 128 * b, q, 128 * r + n % 128);
  }

  lemma Quotient(n: nat, m: nat, q: nat, rest: nat)
    requires rest < m && n == m * q + rest
    ensures n / m == q
  {
    SameQuotient(m, n / m, q, n % m, rest);
  }

  lemma SameQuotient(m: nat, p: int, q: int, s: nat, t: nat)
    requires s < m && t < m && m * p + s == m * q + t
    ensures p == q
  {
    var d := p - q;
    assert m * d == t - s;
    assert d >= 1 ==> m * (d - 1) >= 0;
    assert d <= -1 ==> m * (-1 - d) >= 0;
  }

  /** The first k groups of seven bits as a number, the lowest first. */
  function Groups(s: bytes, k: nat): (v: nat)
    requires k <= |s|
  {
    if k == 0 then 0 else Groups(s, k - 1) + s[k - 1] % 128 * Pow128(k - 1)
  }

  /** k bytes in front of the last one say that more follow. */
  predicate Continued(s: bytes, k: nat) { k <= |s| && forall i | 0 <= i < k :: s[i] >= 128 }

  /** A varint ends at the first byte without the high bit, which is one of the first ten, and its number is
      made of the groups up to there, modulo 2^64; without such a byte there is none. */
  lemma DecodeIs(s: bytes)
    ensures Decode(s).Varint? ==> var n := Decode(s).n;
      n <= 10 && s[n - 1] < 128 && Continued(s, n - 1) && Decode(s).v == Groups(s, n) % TWO_64
    ensures Decode(s).NoVarint? <==> Continued(s, if |s| < 10 then |s| else 10)
  {
    DecodeMaxIs(s, 10);
  }

  lemma {:induction false} DecodeMaxIs(s: bytes, max: nat)
    ensures var r := DecodeMax(s, max); r.Varint? ==>
      r.n <= max && s[r.n - 1] < 128 && Continued(s, r.n - 1) && r.v == Groups(s, r.n)
    ensures DecodeMax(s, max).NoVarint? <==> Continued(s, if |s| < max then |s| else max)
  {
    hide Pow128;
    if max > 0 && s != [] {
      FirstGroup(s);
      if s[0] >= 128 {
        var r := DecodeMax(s[1..], max - 1);
        DecodeMaxIs(s[1..], max - 1);
        if r.Varint? { GroupsBehind(s, r.n); }
      }
    }
  }

  lemma FirstGroup(s: bytes)
    requires s != []
    ensures Groups(s, 1) == s[0] % 128
  {
    assert Groups(s, 1) == Groups(s, 0) + s[0] % 128 * Pow128(0);
  }

  lemma {:induction false} GroupsBehind(s: bytes, k: nat)
    requires k < |s|
    ensures Groups(s, k + 1) == s[0] % 128 + 128 * Groups(s[1..], k)
  {
    if k > 0 { GroupsBehind(s, k - 1); }
  }

  lemma {:induction false} EncodeLength(n: nat, k: nat)
    requires n < Pow128(k) && k > 0
    ensures |Encode(n)| <= k
  {
    if n >= 128 { EncodeLength(n / 128, k - 1); }
  }

  lemma TenBytes(n: nat)
    requires n < TWO_64
    ensures |Encode(n)| <= 10
  {
    assert Pow128(5) == 128 * 128 * 128 * 128 * 128;
    assert Pow128(10) == 128 * 128 * 128 * 128 * 128 * Pow128(5);
    EncodeLength(n, 10);
  }

  lemma {:induction false} DecodeMaxEncode(n: nat, rest: bytes, max: nat)
    requires |Encode(n)| <= max
    ensures DecodeMax(Encode(n) + rest, max) == Read.Varint(n, |Encode(n)|)
  {
    if n >= 128 {
      DecodeMaxEncode(n / 128, rest, max - 1);
      assert (Encode(n) + rest)[1..] == Encode(n / 128) + rest;
    }
  }

  /** Every 64-bit number can be read back, whatever follows it. */
  lemma DecodeEncode(n: uint64, rest: bytes)
    ensures Decode(Encode(n) + rest) == Read.Varint(n, |Encode(n)|)
  {
    TenBytes(n);
    DecodeMaxEncode(n, rest, 10);
  }

  lemma {:induction false} DecodeMaxLocal(s: bytes, t: bytes, max: nat)
    requires DecodeMax(s, max).Varint? && DecodeMax(s, max).n <= |t|
      && s[..DecodeMax(s, max).n] == t[..DecodeMax(s, max).n]
    ensures DecodeMax(t, max) == DecodeMax(s, max)
  {
    var n := DecodeMax(s, max).n;
    assert s[0] == s[..n][0] && t[0] == t[..n][0];
    if s[0] >= 128 {
      assert s[1..][..n - 1] == s[..n][1..] && t[1..][..n - 1] == t[..n][1..];
      DecodeMaxLocal(s[1..], t[1..], max - 1);
    }
  }

  /** Reading a varint does not look past its last byte. */
  lemma DecodeLocal(s: bytes, t: bytes)
    requires Decode(s).Varint? && Decode(s).n <= |t| && s[..Decode(s).n] == t[..Decode(s).n]
    ensures Decode(t) == Decode(s)
  {
    DecodeMaxLocal(s, t, 10);
  }

  /** `VarintSize64`: the size by comparison with the powers of 128. */
  function Size(n: uint64): (k: nat) {
    if n < 0x80 then 1
    else if n < 0x4000 then 2
    else if n < 0x20_0000 then 3
    else if n < 0x1000_0000 then 4
    else if n < 0x8_0000_0000 then 5
    else if n < 0x400_0000_0000 then 6
    else if n < 0x2_0000_0000_0000 then 7
    else if n < 0x100_0000_0000_0000 then 8
    else if n < 0x8000_0000_0000_0000 then 9
    else 10
  }

  lemma {:induction false} SizeIs(n: uint64)
    ensures Size(n) == |Encode(n)|
  {
    if n >= 128 { SizeIs(n / 128); }
  }

  lemma {:induction false} DecodedBound(s: bytes, max: nat)
    requires DecodeMax(s, max).Varint?
    ensures DecodeMax(s, max).v < Pow128(DecodeMax(s, max).n)
  {
    if s[0] >= 128 { DecodedBound(s[1..], max - 1); }
  }

  /** A number that is read, or a smaller one, is written in no more bytes than were read. */
  lemma EncodeNoLonger(s: bytes, v: nat)
    requires Decode(s).Varint? && v <= Decode(s).v
    ensures |Encode(v)| <= Decode(s).n
  {
    DecodedBound(s, 10);
    EncodeLength(v, Decode(s).n);
  }

  // ---- what fields store ----

  /** The two's complement of a signed number in 64 bits; an `int32` is sign-extended. */
  function Unsigned(x: int64): (v: uint64) { if x < 0 then x + TWO_64 else x }

  function Signed(v: uint64): (x: int64) { if v >= TWO_63 then v - TWO_64 else v }

  /** The low 32 bits as a signed number. */
  function Signed32(v: uint64): (x: int32) {
    var w := v % TWO_32;
    if w >= TWO_31 then w - TWO_32 else w
  }

  /** What is read is congruent to the varint, modulo the width. */
  lemma SignedIs(v: uint64)
    ensures Signed(v) % TWO_64 == v && Signed32(v) % TWO_32 == v % TWO_32
  {
  }

  lemma SignedUnsigned(x: int64)
    ensures Signed(Unsigned(x)) == x
    ensures -TWO_31 <= x < TWO_31 ==> Signed32(Unsigned(x)) == x
    ensures x < 0 ==> Size(Unsigned(x)) == 10
  {
    if -TWO_31 <= x < 0 { assert (x + TWO_64) == (TWO_32 - 1) * TWO_32 + (x + TWO_32); }
  }
}
