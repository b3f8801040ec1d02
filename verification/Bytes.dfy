/** Numbers as little-endian bytes, the order in which x86 stores them. */
module Bytes {
  type Byte = x: int | 0 <= x < 256

  function LittleEndian(s: seq<Byte>): nat {
    if s == [] then 0 else (s[0] as int) + 256 * LittleEndian(s[1..])
  }

  // The k low bytes of n.
  function Digits(n: nat, k: nat): (s: seq<Byte>)
    ensures |s| == k
  {
    if k == 0 then [] else [n % 256] + Digits(n / 256, k - 1)
  }

  function Limit(k: nat): nat { if k == 0 then 1 else 256 * Limit(k - 1) }

  lemma {:induction false} DigitsBack(n: nat, k: nat)
    requires n < Limit(k)
    ensures LittleEndian(Digits(n, k)) == n
  {
    if k > 0 {
      DigitsBack(n / 256, k - 1);
      Prepend(n % 256, Digits(n / 256, k - 1));
    }
  }

  lemma Prepend(b: Byte, s: seq<Byte>)
    ensures LittleEndian([b] + s) == (b as int) + 256 * LittleEndian(s)
  {
    assert ([b] + s)[1..] == s;
  }

  lemma {:induction false} NumberBelow(s: seq<Byte>)
    ensures LittleEndian(s) < Limit(|s|)
  {
    if s != [] { NumberBelow(s[1..]); }
  }

  lemma {:induction false} DigitsStep(b: Byte, rest: nat, k: nat)
    ensures Digits((b as int) + 256 * rest, k + 1) == [b] + Digits(rest, k)
  {
    LowByte(b, rest);
  }

  lemma LowByte(b: Byte, rest: nat)
    ensures ((b as int) + 256 * rest) % 256 == b && ((b as int) + 256 * rest) / 256 == rest
  {
  }

  lemma {:induction false} NumberBack(s: seq<Byte>)
    ensures Digits(LittleEndian(s), |s|) == s
  {
    if s != [] {
      NumberBack(s[1..]);
      DigitsStep(s[0], LittleEndian(s[1..]), |s| - 1);
    }
  }

  // ---- bytes as bit-vectors

  function LowBit(b: bool): bv8 { if b then 1 else 0 }

  function One(b: bool): nat { if b then 1 else 0 }

  // The byte with these bits, lowest first, and its number.
  function Packed(a: bool, b: bool, c: bool, d: bool, e: bool, f: bool, g: bool, h: bool): bv8 {
    LowBit(a) | (LowBit(b) << 1) | (LowBit(c) << 2) | (LowBit(d) << 3)
      | (LowBit(e) << 4) | (LowBit(f) << 5) | (LowBit(g) << 6) | (LowBit(h) << 7)
  }

  function Summed(a: bool, b: bool, c: bool, d: bool, e: bool, f: bool, g: bool, h: bool): (n: nat)
    ensures n < 256
  {
    One(a) + 2 * One(b) + 4 * One(c) + 8 * One(d) + 16 * One(e) + 32 * One(f) + 64 * One(g) + 128 * One(h)
  }

  function ByteNumber(x: bv8): Byte {
    Summed(x & 1 != 0, x & 2 != 0, x & 4 != 0, x & 8 != 0, x & 16 != 0, x & 32 != 0, x & 64 != 0, x & 128 != 0)
  }

  predicate Odd(n: nat) { n % 2 == 1 }

  function ByteBits(n: nat): bv8 {
    var n1 := n / 2;
    var n2 := n1 / 2;
    var n3 := n2 / 2;
    var n4 := n3 / 2;
    var n5 := n4 / 2;
    var n6 := n5 / 2;
    Packed(Odd(n), Odd(n1), Odd(n2), Odd(n3), Odd(n4), Odd(n5), Odd(n6), Odd(n6 / 2))
  }

  lemma PackedBits(a: bool, b: bool, c: bool, d: bool, e: bool, f: bool, g: bool, h: bool)
    ensures var x := Packed(a, b, c, d, e, f, g, h);
      && (x & 1 != 0) == a && (x & 2 != 0) == b && (x & 4 != 0) == c && (x & 8 != 0) == d
      && (x & 16 != 0) == e && (x & 32 != 0) == f && (x & 64 != 0) == g && (x & 128 != 0) == h
  {
  }

  lemma BitsPacked(x: bv8)
    ensures x ==
      Packed(x & 1 != 0, x & 2 != 0, x & 4 != 0, x & 8 != 0, x & 16 != 0, x & 32 != 0, x & 64 != 0, x & 128 != 0)
  {
  }

  lemma NumberPacked(a: bool, b: bool, c: bool, d: bool, e: bool, f: bool, g: bool, h: bool)
    ensures ByteNumber(Packed(a, b, c, d, e, f, g, h)) == Summed(a, b, c, d, e, f, g, h)
  {
    PackedBits(a, b, c, d, e, f, g, h);
  }

  lemma HalfOf(n: nat, low: bool, rest: nat)
    ensures n == One(low) + 2 * rest <==> Odd(n) == low && n / 2 == rest
  {
  }

  // The bits of a number, when the number is the sum of these.
  lemma BitsOfSum(n: nat, a: bool, b: bool, c: bool, d: bool, e: bool, f: bool, g: bool, h: bool)
    requires n == Summed(a, b, c, d, e, f, g, h)
    ensures ByteBits(n) == Packed(a, b, c, d, e, f, g, h)
  {
    var n7 := One(h);
    var n6 := One(g) + 2 * n7;
    var n5 := One(f) + 2 * n6;
    var n4 := One(e) + 2 * n5;
    var n3 := One(d) + 2 * n4;
    var n2 := One(c) + 2 * n3;
    var n1 := One(b) + 2 * n2;
    HalfOf(n, a, n1);
    HalfOf(n1, b, n2);
    HalfOf(n2, c, n3);
    HalfOf(n3, d, n4);
    HalfOf(n4, e, n5);
    HalfOf(n5, f, n6);
    HalfOf(n6, g, n7);
  }

  lemma Halved(n: nat)
    ensures n == One(Odd(n)) + 2 * (n / 2)
  {
  }

  lemma BitsBack(x: bv8)
    ensures ByteBits(ByteNumber(x)) == x
  {
    BitsPacked(x);
    BitsOfSum(ByteNumber(x), x & 1 != 0, x & 2 != 0, x & 4 != 0, x & 8 != 0, x & 16 != 0, x & 32 != 0, x & 64 != 0,
      x & 128 != 0);
  }

  lemma SumOfBits(n: nat, n1: nat, n2: nat, n3: nat, n4: nat, n5: nat, n6: nat, n7: nat, n8: nat,
    a: bool, b: bool, c: bool, d: bool, e: bool, f: bool, g: bool, h: bool)
    requires n < 256 && n == One(a) + 2 * n1 && n1 == One(b) + 2 * n2 && n2 == One(c) + 2 * n3
    requires n3 == One(d) + 2 * n4 && n4 == One(e) + 2 * n5 && n5 == One(f) + 2 * n6 && n6 == One(g) + 2 * n7
    requires n7 == One(h) + 2 * n8
    ensures n == Summed(a, b, c, d, e, f, g, h)
  {
  }

  lemma SumOfHalves(n: nat, n1: nat, n2: nat, n3: nat, n4: nat, n5: nat, n6: nat, n7: nat)
    requires n < 256 && n1 == n / 2 && n2 == n1 / 2 && n3 == n2 / 2
    requires n4 == n3 / 2 && n5 == n4 / 2 && n6 == n5 / 2 && n7 == n6 / 2
    ensures n == Summed(Odd(n), Odd(n1), Odd(n2), Odd(n3), Odd(n4), Odd(n5), Odd(n6), Odd(n7))
  {
    Halved(n);
    Halved(n1);
    Halved(n2);
    Halved(n3);
    Halved(n4);
    Halved(n5);
    Halved(n6);
    Halved(n7);
    SumOfBits(n, n1, n2, n3, n4, n5, n6, n7, n7 / 2,
      Odd(n), Odd(n1), Odd(n2), Odd(n3), Odd(n4), Odd(n5), Odd(n6), Odd(n7));
  }

  lemma ByteBack(n: nat)
    requires n < 256
    ensures ByteNumber(ByteBits(n)) == n
  {
    var n1 := n / 2;
    var n2 := n1 / 2;
    var n3 := n2 / 2;
    var n4 := n3 / 2;
    var n5 := n4 / 2;
    var n6 := n5 / 2;
    var n7 := n6 / 2;
    SumOfHalves(n, n1, n2, n3, n4, n5, n6, n7);
    NumberPacked(Odd(n), Odd(n1), Odd(n2), Odd(n3), Odd(n4), Odd(n5), Odd(n6), Odd(n7));
  }

  // Counting in bytes is counting.
  lemma ZeroByte(x: bv8)
    requires ByteNumber(x) == 0
    ensures x == 0
  {
  }

  lemma PreviousByte(x: bv8, n: nat)
    requires ByteNumber(x) == n && 0 < n < 64
    ensures ByteNumber(x - 1) == n - 1 && x - 1 < 63
  {
  }

  function Octets(s: seq<Byte>): (t: seq<bv8>)
    ensures |t| == |s|
  {
    seq(|s|, i requires 0 <= i < |s| => ByteBits(s[i]))
  }

  function Numbers(t: seq<bv8>): (s: seq<Byte>)
    ensures |s| == |t|
  {
    seq(|t|, i requires 0 <= i < |t| => ByteNumber(t[i]))
  }

  lemma NumbersBack(s: seq<Byte>)
    ensures Numbers(Octets(s)) == s
  {
    forall i | 0 <= i < |s|
      ensures Numbers(Octets(s))[i] == s[i]
    {
      ByteBack(s[i]);
    }
  }

  lemma OctetsBack(t: seq<bv8>)
    ensures Octets(Numbers(t)) == t
  {
    forall i | 0 <= i < |t|
      ensures Octets(Numbers(t))[i] == t[i]
    {
      BitsBack(t[i]);
    }
  }
}
