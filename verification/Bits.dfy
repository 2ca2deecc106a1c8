/** Bitwise operators of C on non-negative integers, and the facts that turn them into arithmetic. */
module Bits {

  function Pow2(k: nat): (r: nat)
    ensures r > 0
  {
    if k == 0 then 1 else 2 * Pow2(k - 1)
  }

  function Or(a: nat, b: nat): nat {
    if a == 0 then b
    else if b == 0 then a
    else (if a % 2 == 1 || b % 2 == 1 then 1 else 0) + 2 * Or(a / 2, b / 2)
  }

  function And(a: nat, b: nat): nat {
    if a == 0 || b == 0 then 0
    else (if a % 2 == 1 && b % 2 == 1 then 1 else 0) + 2 * And(a / 2, b / 2)
  }

  /** The one-bit step of both operators, also for zero operands. */
  lemma Step(a: nat, b: nat, x: nat, y: nat)
    requires x < 2 && y < 2
    ensures Or(2 * a + x, 2 * b + y) == 2 * Or(a, b) + (if x == 1 || y == 1 then 1 else 0)
    ensures And(2 * a + x, 2 * b + y) == 2 * And(a, b) + (if x == 1 && y == 1 then 1 else 0)
  {
    assert (2 * a + x) / 2 == a && (2 * b + y) / 2 == b;
    assert (2 * a + x) % 2 == x && (2 * b + y) % 2 == y;
  }

  /** Doubling a split number: the arithmetic of the induction step below. */
  lemma Double(h: nat, k: nat, a: nat, c: nat, x: nat)
    requires k > 0 && h == a * Pow2(k - 1) + c
    ensures a * Pow2(k) + (2 * c + x) == 2 * h + x
  {
  }

  /** Both operators work on the high and the low k bits separately. */
  lemma {:induction false} SplitOr(k: nat, a: nat, b: nat, c: nat, d: nat)
    requires c < Pow2(k) && d < Pow2(k)
    ensures Or(a * Pow2(k) + c, b * Pow2(k) + d) == Or(a, b) * Pow2(k) + Or(c, d)
  {
    if k > 0 {
      var hi, lo, x, y := a * Pow2(k - 1) + c / 2, b * Pow2(k - 1) + d / 2, c % 2, d % 2;
      Double(hi, k, a, c / 2, x);
      Double(lo, k, b, d / 2, y);
      var z := if x == 1 || y == 1 then 1 else 0;
      assert Or(2 * hi + x, 2 * lo + y) == 2 * Or(hi, lo) + z by { Step(hi, lo, x, y); }
      assert Or(2 * (c / 2) + x, 2 * (d / 2) + y) == 2 * Or(c / 2, d / 2) + z by { Step(c / 2, d / 2, x, y); }
      SplitOr(k - 1, a, b, c / 2, d / 2);
      Double(Or(hi, lo), k, Or(a, b), Or(c / 2, d / 2), z);
    }
  }

  lemma {:induction false} SplitAnd(k: nat, a: nat, b: nat, c: nat, d: nat)
    requires c < Pow2(k) && d < Pow2(k)
    ensures And(a * Pow2(k) + c, b * Pow2(k) + d) == And(a, b) * Pow2(k) + And(c, d)
  {
    if k > 0 {
      var hi, lo, x, y := a * Pow2(k - 1) + c / 2, b * Pow2(k - 1) + d / 2, c % 2, d % 2;
      Double(hi, k, a, c / 2, x);
      Double(lo, k, b, d / 2, y);
      var z := if x == 1 && y == 1 then 1 else 0;
      assert And(2 * hi + x, 2 * lo + y) == 2 * And(hi, lo) + z by { Step(hi, lo, x, y); }
      assert And(2 * (c / 2) + x, 2 * (d / 2) + y) == 2 * And(c / 2, d / 2) + z by { Step(c / 2, d / 2, x, y); }
      SplitAnd(k - 1, a, b, c / 2, d / 2);
      Double(And(hi, lo), k, And(a, b), And(c / 2, d / 2), z);
    }
  }

  /** Masking with k ones keeps the low k bits. */
  lemma {:induction false} Mask(k: nat, c: nat)
    requires c < Pow2(k)
    ensures And(c, Pow2(k) - 1) == c
  {
    if k > 0 {
      Mask(k - 1, c / 2);
      Step(c / 2, Pow2(k - 1) - 1, c % 2, 1);
    }
  }

  lemma Quotient(x: nat, p: nat) returns (hi: nat, lo: nat)
    requires p > 0
    ensures x == hi * p + lo && lo < p && lo == x % p && hi == x / p
  {
    hi, lo := x / p, x % p;
  }

  /** `x & (2^k - 1)` is the remainder modulo 2^k. */
  lemma MaskIsRemainder(k: nat, x: nat)
    ensures And(x, Pow2(k) - 1) == x % Pow2(k)
  {
    var p := Pow2(k);
    var hi, lo := Quotient(x, p);
    SplitAnd(k, hi, 0, lo, p - 1);
    Mask(k, lo);
  }

  /** Or-ing disjoint bits is addition. */
  lemma OrIsSum(k: nat, hi: nat, lo: nat)
    requires lo < Pow2(k)
    ensures Or(hi * Pow2(k), lo) == hi * Pow2(k) + lo
    ensures Or(lo, hi * Pow2(k)) == hi * Pow2(k) + lo
  {
    SplitOr(k, hi, 0, 0, lo);
    SplitOr(k, 0, hi, lo, 0);
  }

  /** Or-ing words of k bits gives a word of k bits, and loses no bit. */
  lemma {:induction false} OrBounds(k: nat, a: nat, b: nat)
    requires a < Pow2(k) && b < Pow2(k)
    ensures a <= Or(a, b) < Pow2(k) && b <= Or(a, b)
  {
    if k > 0 {
      OrBounds(k - 1, a / 2, b / 2);
      assert a == 2 * (a / 2) + a % 2 && b == 2 * (b / 2) + b % 2;
    }
  }

  lemma Powers()
    ensures Pow2(1) == 2 && Pow2(4) == 16 && Pow2(6) == 64 && Pow2(8) == 256 && Pow2(10) == 1024
    ensures Pow2(16) == 0x10000 && Pow2(24) == 0x1000000 && Pow2(5) == 32
  {
  }

  lemma WordPower()
    ensures Pow2(32) == 0x1_0000_0000
  {
    Powers();
    assert Pow2(32) == 256 * Pow2(24);
  }
}
