/**
 * The header checksum of net/ipv4/ip.c: section 3.1 of RFC 791 (Internet Protocol), with the
 * arithmetic of sections 1 and 2 of RFC 1071 (Computing the Internet Checksum).
 */
module IpChecksum {
  import opened Bytes

  // The 20 bytes of struct iphdr; `check` is bytes 10 and 11, word 5.
  type Header = h: seq<Byte> | |h| == 20 witness seq(20, i => 0)

  // ---- the RFC's definition

  // The 16-bit one's complement sum: a carry out of bit 15 is added back at bit 0.
  function OnesAdd(a: nat, b: nat): nat { if a + b < 65536 then a + b else a + b - 65535 }

  // Word i in network byte order.
  function NetWord(h: Header, i: nat): nat
    requires i < 10
  {
    256 * (h[2 * i] as nat) + h[2 * i + 1] as nat
  }

  function OnesSum(h: Header, n: nat): (r: nat)
    requires n <= 10
    ensures r <= 65535
  {
    if n == 0 then 0 else OnesAdd(OnesSum(h, n - 1), NetWord(h, n - 1))
  }

  // The checksum of section 3.1 of RFC 791: the one's complement of the one's complement sum.
  function NetChecksum(h: Header): nat { 65535 - OnesSum(h, 10) }

  // ---- the code

  // Word i as an x86 uint16_t load sees it.
  function HostWord(h: Header, i: nat): nat
    requires i < 10
  {
    h[2 * i] as nat + 256 * (h[2 * i + 1] as nat)
  }

  function Sum(h: Header, n: nat): nat
    requires n <= 10
  {
    if n == 0 then 0 else Sum(h, n - 1) + HostWord(h, n - 1)
  }

  lemma {:induction false} SumBound(h: Header, n: nat)
    requires n <= 10
    ensures Sum(h, n) <= n * 65535
  {
    if n > 0 { SumBound(h, n - 1); }
  }

  // r represents s in one's complement: congruent modulo 65535, and 0 for nothing but 0.
  predicate Represents(r: nat, s: nat) {
    r <= 65535 && r % 65535 == s % 65535 && (r == 0 <==> s == 0)
  }

  lemma RepresentsOne(r: nat, t: nat, s: nat)
    requires Represents(r, s) && Represents(t, s)
    ensures r == t
  {
  }

  // ip_checksum.
  method Checksum(h: Header) returns (r: nat)
    ensures r == Value(h)
  {
    var sum: nat := 0;
    for i := 0 to 10
      invariant sum == Sum(h, i)
    {
      SumBound(h, i + 1);
      // No wrap-around: the 32-bit sum of ten 16-bit words is exact.
      assert sum + HostWord(h, i) < 0x1_0000_0000;
      sum := sum + HostWord(h, i);
    }
    while sum / 65536 != 0
      invariant sum % 65535 == Sum(h, 10) % 65535 && (sum == 0 <==> Sum(h, 10) == 0)
      decreases sum
    {
      FoldOnce(sum);
      sum := sum % 65536 + sum / 65536;
    }
    r := 65535 - sum;
    RepresentsOne(sum, 65535 - Value(h), Sum(h, 10));
  }

  // One turn of the folding loop shrinks the sum and keeps what it represents.
  lemma FoldOnce(s: nat)
    requires s >= 65536
    ensures var t := s % 65536 + s / 65536; 0 < t < s && t % 65535 == s % 65535
  {
    var t, q := s % 65536 + s / 65536, s / 65536;
    assert s == 65535 * q + t;
    Shift(t, q);
  }

  lemma Shift(x: int, k: int)
    ensures (65535 * k + x) % 65535 == x % 65535
  {
  }

  // The value the code computes, as a function.
  ghost function Value(h: Header): (r: nat)
    ensures r <= 65535 && Represents(65535 - r, Sum(h, 10))
  {
    var s := Sum(h, 10);
    if s == 0 then 65535 else if s % 65535 == 0 then 0 else 65535 - s % 65535
  }

  // ---- checking a header

  function Stamp(h: Header, c: nat): (g: Header)
    requires c <= 65535
  {
    h[10 := c % 256][11 := c / 256]
  }

  lemma {:induction false} SumOther(h: Header, g: Header, k: nat, n: nat)
    requires k < 10 && n <= 10
    requires forall i :: 0 <= i < 10 && i != k ==> HostWord(h, i) == HostWord(g, i)
    ensures Sum(g, n) == Sum(h, n) + (if k < n then HostWord(g, k) - HostWord(h, k) else 0)
  {
    if n > 0 { SumOther(h, g, k, n - 1); }
  }

  lemma StampSum(h: Header, c: nat)
    requires c <= 65535
    ensures Sum(Stamp(h, c), 10) == Sum(h, 10) - HostWord(h, 5) + c
  {
    var g := Stamp(h, c);
    assert HostWord(g, 5) == c;
    SumOther(h, g, 5, 10);
  }

  // Clearing the field, computing the checksum and storing it leaves a header that checks.
  lemma StampChecks(h: Header)
    ensures var cleared := Stamp(h, 0); Value(Stamp(cleared, Value(cleared))) == 0
  {
    var cleared := Stamp(h, 0);
    var c := Value(cleared);
    StampSum(cleared, c);
    assert HostWord(cleared, 5) == 0;
    Complement(65535 - c, Sum(cleared, 10));
  }

  lemma Complement(r: nat, s: nat)
    requires Represents(r, s)
    ensures 65535 - r + s > 0 && (65535 - r + s) % 65535 == 0
  {
    var q, p := s / 65535, r / 65535;
    assert 65535 - r + s == 65535 * (1 + q - p) + 0;
    Shift(0, 1 + q - p);
  }

  // Damage to one word of a header that checks goes unseen exactly when it turns 0 into 0xFFFF
  // or back without clearing the whole header.
  lemma OneWordDamage(h: Header, g: Header, k: nat)
    requires Value(h) == 0 && k < 10 && HostWord(h, k) != HostWord(g, k)
    requires forall i :: 0 <= i < 10 && i != k ==> HostWord(h, i) == HostWord(g, i)
    ensures Value(g) == 0 <==>
      {HostWord(h, k), HostWord(g, k)} == {0, 65535} && exists i :: 0 <= i < 10 && HostWord(g, i) != 0
  {
    SumOther(h, g, k, 10);
    ZeroSum(g, 10);
    var d := HostWord(g, k) - HostWord(h, k);
    assert -65535 <= d <= 65535;
    Multiple(Sum(h, 10), d);
  }

  lemma Multiple(s: nat, d: int)
    requires s % 65535 == 0 && s + d >= 0 && -65535 <= d <= 65535 && d != 0
    ensures (s + d) % 65535 == 0 <==> d == 65535 || d == -65535
  {
  }

  lemma {:induction false} ZeroSum(h: Header, n: nat)
    requires n <= 10
    ensures Sum(h, n) == 0 <==> forall i :: 0 <= i < n ==> HostWord(h, i) == 0
  {
    if n > 0 { ZeroSum(h, n - 1); }
  }

  // ---- byte order

  function Swap(x: nat): nat { x % 256 * 256 + x / 256 }

  // Swapping the bytes of a word is multiplying it by 256 modulo 65535.
  lemma SwapTimes(x: nat)
    requires x <= 65535
    ensures Swap(x) <= 65535 && Swap(x) % 65535 == (256 * x) % 65535 && (Swap(x) == 0 <==> x == 0)
  {
    var hi, lo := x / 256, x % 256;
    assert 256 * x == 65535 * hi + Swap(x);
    Shift(Swap(x), hi);
  }

  lemma AddMod(a: nat, b: nat, c: nat)
    requires a % 65535 == b % 65535
    ensures (a + c) % 65535 == (b + c) % 65535
  {
    var p, q := a / 65535, b / 65535;
    assert a + c == 65535 * (p - q) + (b + c);
    Shift(b + c, p - q);
  }

  lemma TimesMod(a: nat, b: nat)
    requires a % 65535 == b % 65535
    ensures (256 * a) % 65535 == (256 * b) % 65535
  {
    var p, q := a / 65535, b / 65535;
    assert 256 * a == 65535 * (256 * (p - q)) + 256 * b;
    Shift(256 * b, 256 * (p - q));
  }

  // The network-order one's complement sum represents 256 times the host-order sum.
  lemma {:induction false} OnesSumTimes(h: Header, n: nat)
    requires n <= 10
    ensures Represents(OnesSum(h, n), 256 * Sum(h, n))
  {
    if n > 0 {
      OnesSumTimes(h, n - 1);
      WordIsSwapped(h, n - 1);
      AddWord(OnesSum(h, n - 1), Sum(h, n - 1), HostWord(h, n - 1));
    }
  }

  lemma WordIsSwapped(h: Header, i: nat)
    requires i < 10
    ensures HostWord(h, i) <= 65535 && NetWord(h, i) == Swap(HostWord(h, i))
  {
  }

  lemma AddWord(a: nat, s: nat, w: nat)
    requires Represents(a, 256 * s) && w <= 65535
    ensures Represents(OnesAdd(a, Swap(w)), 256 * (s + w))
  {
    SwapTimes(w);
    AddMod(a, 256 * s, Swap(w));
    AddMod(Swap(w), 256 * w, 256 * s);
    assert 256 * s + 256 * w == 256 * (s + w);
    OnesAddRepresents(a, Swap(w));
  }

  lemma OnesAddRepresents(a: nat, b: nat)
    requires a <= 65535 && b <= 65535
    ensures Represents(OnesAdd(a, b), a + b)
  {
    if a + b >= 65536 { Shift(OnesAdd(a, b), 1); }
  }

  lemma SwapFlips(x: nat)
    requires x <= 65535
    ensures Swap(65535 - x) == 65535 - Swap(x)
  {
    var y := 65535 - x;
    assert y == 256 * (255 - x / 256) + (255 - x % 256);
    assert y % 256 == 255 - x % 256 && y / 256 == 255 - x / 256;
  }

  // On a little-endian machine, the code stores the very bytes RFC 791 asks for in network order.
  lemma ByteOrder(h: Header)
    ensures Value(h) == Swap(NetChecksum(h)) && NetChecksum(h) == Swap(Value(h))
    ensures Stamp(h, Value(h)) == h[10 := NetChecksum(h) / 256][11 := NetChecksum(h) % 256]
  {
    var f := 65535 - Value(h);
    var s := Sum(h, 10);
    OnesSumTimes(h, 10);
    SwapTimes(f);
    TimesMod(f, s);
    RepresentsOne(OnesSum(h, 10), Swap(f), 256 * s);
    SwapFlips(f);
    SwapSwap(Value(h));
  }

  lemma SwapSwap(x: nat)
    requires x <= 65535
    ensures Swap(x) <= 65535 && Swap(Swap(x)) == x
    ensures Swap(x) / 256 == x % 256 && Swap(x) % 256 == x / 256
  {
  }

  // ---- sending

  // The two assignments to hdr->check.
  method FillCheck(hdr: array<Byte>)
    requires hdr.Length == 20
    modifies hdr
    ensures hdr[..10] == old(hdr[..10]) && hdr[12..] == old(hdr[12..])
    ensures Value(hdr[..]) == 0
    ensures var cleared := Stamp(old(hdr[..]), 0); hdr[..] == Stamp(cleared, Swap(NetChecksum(cleared)))
  {
    ghost var h: Header := hdr[..];
    hdr[10], hdr[11] := 0, 0;
    ghost var cleared: Header := hdr[..];
    assert cleared == Stamp(h, 0);
    var c := Checksum(hdr[..]);
    hdr[10], hdr[11] := c % 256, c / 256;
    assert hdr[..] == Stamp(cleared, c);
    StampChecks(h);
    ByteOrder(cleared);
  }
}
