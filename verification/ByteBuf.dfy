/** commons/ByteBuf.hpp: a growing byte buffer, and numbers with the highest octet first. Octets are
    numbers below 256. */
module ByteBuf {
  import opened CText
  import opened Varint
  import opened Bits

  type int16 = x: int | -0x8000 <= x < 0x8000

  // ---- numbers as octets ----

  /** What `writeShort`, `writeInt` and `writeLong` append; `>>` rounds down. */
  function Be16(x: int): (b: bytes)
    ensures |b| == 2
  {
    [x / 0x100 % 256, x % 256]
  }

  function Be32(x: int): (b: bytes)
    ensures |b| == 4
  {
    [x / 0x100_0000 % 256, x / 0x1_0000 % 256, x / 0x100 % 256, x % 256]
  }

  function Be64(x: int): (b: bytes)
    ensures |b| == 8
  {
    Be32(x / 0x1_0000_0000) + Be32(x)
  }

  /** The number that four octets stand for. */
  function FromOctets(c1: int, c2: int, c3: int, c4: int): int { c1 * 0x100_0000 + c2 * 0x1_0000 + c3 * 0x100 + c4 }

  /** The number of 32 bits that stands at an index, the highest octet first. */
  function WordAt(s: bytes, at: nat): int
    requires at + 4 <= |s|
  {
    FromOctets(s[at], s[at + 1], s[at + 2], s[at + 3])
  }

  /** `(c1<<24) | (c2<<16) | (c3<<8) | c4`. */
  function OrOctets(c1: byte, c2: byte, c3: byte, c4: byte): nat {
    Or(Or(Or(c1 * 0x100_0000, c2 * 0x1_0000), c3 * 0x100), c4)
  }

  lemma OrOctetsIsSum(c1: byte, c2: byte, c3: byte, c4: byte)
    ensures OrOctets(c1, c2, c3, c4) == FromOctets(c1, c2, c3, c4) < TWO_32
  {
    hide Or, Pow2;
    Powers();
    OrIsSum(24, c1, c2 * 0x1_0000);
    OrIsSum(16, c1 * 0x100 + c2, c3 * 0x100);
    OrIsSum(8, c1 * 0x1_0000 + c2 * 0x100 + c3, c4);
  }

  /** `readShort`. */
  function ReadShort(b: bytes): (x: int16)
    requires |b| >= 2
  {
    var u: int := (b[0] as int) * 256 + b[1];
    if u >= 0x8000 then u - 0x1_0000 else u
  }

  /** A word of 32 bits as an `int`. */
  function AsInt(u: nat): (x: int32)
    requires u < TWO_32
  {
    if u >= TWO_31 then u - TWO_32 else u
  }

  /** `readInt`. */
  function ReadInt(b: bytes): (x: int32)
    requires |b| >= 4
  {
    OrOctetsIsSum(b[0], b[1], b[2], b[3]);
    AsInt(OrOctets(b[0], b[1], b[2], b[3]))
  }

  /** `readInt` and `readShort` weigh the octets from the highest to the lowest, modulo the width. */
  lemma IntIs(b: bytes)
    requires |b| >= 4
    ensures var c1: int, c2: int, c3: int, c4: int := b[0], b[1], b[2], b[3];
      ReadInt(b) % TWO_32 == 0x100_0000 * c1 + 0x1_0000 * c2 + 0x100 * c3 + c4
  {
    hide OrOctets;
    OrOctetsIsSum(b[0], b[1], b[2], b[3]);
  }

  lemma ShortIs(b: bytes)
    requires |b| >= 2
    ensures var c1: int, c2: int := b[0], b[1]; ReadShort(b) % 0x1_0000 == 0x100 * c1 + c2
  {
  }

  lemma ShortRoundTrip(x: int16, rest: bytes)
    ensures ReadShort(Be16(x) + rest) == x
  {
  }

  lemma IntRoundTrip(x: int32, rest: bytes)
    ensures ReadInt(Be32(x) + rest) == x
  {
    hide OrOctets, FromOctets, Be32;
    var b := Be32(x) + rest;
    assert b[0] == Be32(x)[0] && b[1] == Be32(x)[1] && b[2] == Be32(x)[2] && b[3] == Be32(x)[3];
    OrOctetsIsSum(b[0], b[1], b[2], b[3]);
    FourOctets(x);
  }

  /** The octets of a number modulo 2^32. */
  lemma FourOctets(x: int)
    ensures var b := Be32(x); FromOctets(b[0], b[1], b[2], b[3]) == x % TWO_32
  {
    var q1 := x / 0x100;
    var q2 := q1 / 0x100;
    var q3 := q2 / 0x100;
    assert x / 0x1_0000 == q2 && x / 0x100_0000 == q3;
    assert x == 0x100 * q1 + x % 0x100 && q1 == 0x100 * q2 + q1 % 0x100 && q2 == 0x100 * q3 + q2 % 0x100;
    assert q3 == 0x100 * (q3 / 0x100) + q3 % 0x100;
    assert x / TWO_32 == q3 / 0x100;
  }

  lemma SameOctets(a: bytes, i: nat, b: bytes, j: nat)
    requires i + 4 <= |a| && j + 4 <= |b| && WordAt(a, i) == WordAt(b, j)
    ensures a[i] == b[j] && a[i + 1] == b[j + 1] && a[i + 2] == b[j + 2] && a[i + 3] == b[j + 3]
  {
  }

  /** A shift of a 32-bit word by 32 or more has no defined result: any function may describe it that
      sends zero to zero. */
  type shift = (byte, nat) -> nat

  ghost predicate Plausible(over: shift) {
    forall c: byte, k: nat :: over(c, k) < TWO_32 && over(0, k) == 0
  }

  /** The operands of `readLong`, which have 32 bits only. */
  function OrLong(b: bytes, over: shift): nat
    requires |b| >= 8
  {
    Or(Or(Or(Or(over(b[0], 56), over(b[1], 48)), over(b[2], 40)), over(b[3], 32)), OrOctets(b[4], b[5], b[6], b[7]))
  }

  /** What `readLong` returns has 32 bits. */
  lemma LongIsShort(b: bytes, over: shift)
    requires |b| >= 8 && Plausible(over)
    ensures OrLong(b, over) < TWO_32
    ensures b[0] == b[1] == b[2] == b[3] == 0 ==> OrLong(b, over) == OrOctets(b[4], b[5], b[6], b[7])
  {
    hide OrOctets, Pow2;
    WordPower();
    OrOctetsIsSum(b[4], b[5], b[6], b[7]);
    var a := Or(over(b[0], 56), over(b[1], 48));
    OrBounds(32, over(b[0], 56), over(b[1], 48));
    OrBounds(32, a, over(b[2], 40));
    OrBounds(32, Or(a, over(b[2], 40)), over(b[3], 32));
    OrBounds(32, Or(Or(a, over(b[2], 40)), over(b[3], 32)), OrOctets(b[4], b[5], b[6], b[7]));
  }

  /** `readLong`. */
  function ReadLong(b: bytes, over: shift): (x: nat)
    requires |b| >= 8 && Plausible(over)
    ensures x < TWO_32
  {
    LongIsShort(b, over);
    OrLong(b, over)
  }

  /** `readLong` reads back what `writeLong` wrote for the numbers of 32 bits without a sign, and for no
      others. */
  lemma LongRoundTrip(x: int64, rest: bytes, over: shift)
    requires Plausible(over)
    ensures ReadLong(Be64(x) + rest, over) == x <==> 0 <= x < TWO_32
  {
    hide OrOctets, Be32, FromOctets;
    var b, hi := Be64(x) + rest, Be32(x / 0x1_0000_0000);
    assert b[4] == Be32(x)[0] && b[5] == Be32(x)[1] && b[6] == Be32(x)[2] && b[7] == Be32(x)[3];
    assert b[0] == hi[0] && b[1] == hi[1] && b[2] == hi[2] && b[3] == hi[3];
    OrOctetsIsSum(b[4], b[5], b[6], b[7]);
    LongIsShort(b, over);
    FourOctets(x);
    if 0 <= x < TWO_32 {
      ZeroOctets(x / 0x1_0000_0000);
      assert b[0] == 0 && b[1] == 0 && b[2] == 0 && b[3] == 0;
      assert x % TWO_32 == x;
    }
  }

  lemma ZeroOctets(x: int)
    requires x == 0
    ensures Be32(x) == [0, 0, 0, 0]
  {
  }

  // ---- how a vector grows ----

  /** How much more room than necessary `reserve(n)`, and `push_back` at capacity n, make when there is too
      little, which the library leaves open. */
  datatype Growth = Growth(reserve: nat -> nat, push: nat -> nat)

  function Reserved(g: Growth, capacity: nat, n: nat): (c: nat)
    ensures c >= n && c >= capacity
  {
    if capacity < n then n + g.reserve(n) else capacity
  }

  /** The capacity after `push_back`. */
  function PushedOnce(g: Growth, capacity: nat, size: nat): nat {
    if size == capacity then capacity + 1 + g.push(capacity) else capacity
  }

  /** The capacity after k calls of `push_back`. */
  function Pushed(g: Growth, capacity: nat, size: nat, k: nat): (c: nat)
    requires size <= capacity
    ensures c >= capacity && c >= size + k
    decreases k
  {
    if k == 0 then capacity else Pushed(g, PushedOnce(g, capacity, size), size + 1, k - 1)
  }

  lemma {:induction false} PushedTwice(g: Growth, capacity: nat, size: nat, j: nat, k: nat)
    requires size <= capacity
    ensures Pushed(g, capacity, size, j + k) == Pushed(g, Pushed(g, capacity, size, j), size + j, k)
    decreases j
  {
    if j > 0 { PushedTwice(g, PushedOnce(g, capacity, size), size + 1, j - 1, k); }
  }

  lemma {:induction false} PushedInside(g: Growth, capacity: nat, size: nat, k: nat)
    requires size + k <= capacity
    ensures Pushed(g, capacity, size, k) == capacity
    decreases k
  {
    if k > 0 { PushedInside(g, capacity, size + 1, k - 1); }
  }

  // ---- the class ----

  class ByteBuf {
    var buff: bytes
    var capacity: nat
    var readerIndex: nat
    var writerIndex: nat
    const growth: Growth

    ghost predicate Valid()
      reads this
    {
      |buff| <= capacity && readerIndex <= |buff|
    }

    /** `ByteBuf()`. */
    constructor Empty (growth: Growth)
      ensures Valid() && buff == [] && readerIndex == 0 && writerIndex == 0 && capacity == 0 && this.growth == growth
    {
      buff, readerIndex, writerIndex, capacity := [], 0, 0, 0;
      this.growth := growth;
    }

    /** `ByteBuf(int size)`. */
    constructor (size: nat, growth: Growth)
      ensures Valid() && buff == [] && readerIndex == 0 && writerIndex == 0 && this.growth == growth
      ensures capacity == Reserved(growth, 0, size + 1)
    {
      buff, readerIndex, writerIndex, capacity := [], 0, 0, Reserved(growth, 0, size + 1);
      this.growth := growth;
    }

    /** k bytes were appended, one by one. */
    twostate predicate Grew(t: bytes)
      reads this
    {
      && Valid() && old(|buff| <= capacity) && buff == old(buff) + t
      && capacity == Pushed(growth, old(capacity), old(|buff|), |t|)
    }

    /** `vector::push_back`. */
    method PushBack(c: byte)
      requires Valid()
      modifies this`buff, this`capacity
      ensures Grew([c])
    {
      assert Pushed(growth, capacity, |buff|, 1) == PushedOnce(growth, capacity, |buff|);
      if |buff| == capacity { capacity := capacity + 1 + growth.push(capacity); }
      buff := buff + [c];
    }

    /** One more byte behind those that were appended. */
    lemma AnotherByte(before: nat, size: nat, k: nat)
      requires size <= before
      ensures Pushed(growth, before, size, k + 1) == Pushed(growth, Pushed(growth, before, size, k), size + k, 1)
    {
      PushedTwice(growth, before, size, k, 1);
    }

    /** `resize`, which is `vector::reserve`. */
    method Resize(size: nat)
      requires Valid()
      modifies this`capacity
      ensures Valid() && capacity == Reserved(growth, old(capacity), size + 1)
    {
      capacity := Reserved(growth, capacity, size + 1);
    }

    /** The bytes t, one `push_back` each. */
    method PushAll(t: bytes)
      requires Valid()
      modifies this`buff, this`capacity
      ensures Grew(t)
    {
      hide Pushed;
      var i := 0;
      NoneGrew(capacity, |buff|);
      while i < |t|
        invariant i <= |t| && Grew(t[..i])
      {
        AnotherByte(old(capacity), old(|buff|), i);
        PushBack(t[i]);
        assert t[..i + 1] == t[..i] + [t[i]];
        i := i + 1;
      }
      assert t[..i] == t;
    }

    lemma NoneGrew(before: nat, size: nat)
      requires size <= before
      ensures Pushed(growth, before, size, 0) == before
    {
    }

    method WriteByte(c: byte)
      requires Valid()
      modifies this`buff, this`capacity, this`writerIndex
      ensures Grew([c]) && writerIndex == old(writerIndex) + 1
    {
      PushBack(c);
      writerIndex := writerIndex + 1;
    }

    method WriteShort(i: int16)
      requires Valid()
      modifies this`buff, this`capacity, this`writerIndex
      ensures Grew(Be16(i)) && writerIndex == old(writerIndex) + 2
      ensures var n := old(|buff|); buff[n] == i / 256 % 256 && buff[n + 1] == i % 256
    {
      PushAll([i / 0x100 % 256, i % 256]);
      writerIndex := writerIndex + 2;
    }

    method WriteInt(i: int32)
      requires Valid()
      modifies this`buff, this`capacity, this`writerIndex
      ensures Grew(Be32(i)) && writerIndex == old(writerIndex) + 4
      ensures WordAt(buff, old(|buff|)) == i % TWO_32
    {
      FourOctets(i);
      PushAll([i / 0x100_0000 % 256, i / 0x1_0000 % 256, i / 0x100 % 256, i % 256]);
      writerIndex := writerIndex + 4;
    }

    method WriteLong(i: int64)
      requires Valid()
      modifies this`buff, this`capacity, this`writerIndex
      ensures Grew(Be64(i)) && writerIndex == old(writerIndex) + 8
      ensures WordAt(buff, old(|buff|)) == i / TWO_32 % TWO_32 && WordAt(buff, old(|buff|) + 4) == i % TWO_32
    {
      FourOctets(i);
      FourOctets(i / TWO_32);
      HighOctets(i);
      PushAll([i / 0x100_0000_0000_0000 % 256, i / 0x1_0000_0000_0000 % 256,
               i / 0x100_0000_0000 % 256, i / 0x1_0000_0000 % 256,
               i / 0x100_0000 % 256, i / 0x1_0000 % 256, i / 0x100 % 256, i % 256]);
      writerIndex := writerIndex + 8;
    }

    static lemma HighOctets(i: int)
      ensures Be32(i / 0x1_0000_0000) ==
        [i / 0x100_0000_0000_0000 % 256, i / 0x1_0000_0000_0000 % 256,
         i / 0x100_0000_0000 % 256, i / 0x1_0000_0000 % 256]
    {
    }

    method WriteBytes(b: bytes, num: int)
      requires Valid() && num <= |b|
      modifies this`buff, this`capacity, this`writerIndex
      ensures var n := if num < 0 then 0 else num; Grew(b[..n]) && writerIndex == old(writerIndex) + n
    {
      if num <= 0 { NoneGrew(capacity, |buff|); return; }
      PushAll(b[..num]);
      writerIndex := writerIndex + num;
    }

    method ReadByte() returns (c: byte)
      requires Valid() && readerIndex < |buff|
      modifies this`readerIndex
      ensures Valid() && c == buff[old(readerIndex)] && readerIndex == old(readerIndex) + 1
    {
      c := buff[readerIndex];
      readerIndex := readerIndex + 1;
    }

    /** The instance's `readInt`. */
    method NextInt() returns (x: int32)
      requires Valid() && readerIndex + 4 <= |buff|
      modifies this`readerIndex
      ensures Valid() && x == ReadInt(buff[old(readerIndex)..]) && readerIndex == old(readerIndex) + 4
    {
      var c1 := ReadByte();
      var c2 := ReadByte();
      var c3 := ReadByte();
      var c4 := ReadByte();
      OrOctetsIsSum(c1, c2, c3, c4);
      x := AsInt(OrOctets(c1, c2, c3, c4));
    }

    /** `getWritePtr`: whether there is room for len bytes behind the writer index; null otherwise. */
    function HasWritePtr(len: nat): bool
      reads this
    {
      capacity - writerIndex >= len
    }
  }
}
