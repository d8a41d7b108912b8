/** Octets, as machine bytes and as numbers, and blocks of sixteen. */
module Bytes {
  import opened Arithmetic

  type byte = bv8

  /** An octet as a number, where it only takes part in arithmetic. */
  type octet = x: int | 0 <= x < 0x100

  /** A block of a 128-bit cipher. */
  type block = s: seq<byte> | |s| == 16 witness seq(16, i => 0)

  function Zeros(n: nat): (z: seq<byte>)
    ensures |z| == n
  {
    seq(n, i => 0)
  }

  /** The exclusive or of two octets. */
  function Xored(a: byte, b: byte): byte { a ^ b }

  /** The m-th group of 16 bytes. */
  function Group(data: seq<byte>, m: nat): (g: seq<byte>)
    requires 16 * m + 16 <= |data|
    ensures |g| == 16
  {
    data[16 * m..16 * m + 16]
  }

  lemma NextByte(b: byte)
    requires b as int < 0xff
    ensures (b + 1) as int == b as int + 1
  {
  }

  /** Every number below 256 is the value of an octet. */
  lemma {:induction false} OctetOf(n: nat) returns (b: byte)
    requires n < 0x100
    ensures b as int == n
  {
    if n == 0 {
      b := 0;
    } else {
      var before := OctetOf(n - 1);
      NextByte(before);
      b := before + 1;
    }
  }

  lemma ThereAndBack(b: byte)
    ensures b as int as byte == b
  {
  }

  lemma OctetValue(n: nat)
    requires n < 0x100
    ensures n as byte as int == n
  {
    var b := OctetOf(n);
    ThereAndBack(b);
  }

  function OctetFor(n: nat): byte
    requires n < 0x100
  {
    n as byte
  }

  lemma OctetForInjective(m: nat, n: nat)
    requires m < 0x100 && n < 0x100 && OctetFor(m) == OctetFor(n)
    ensures m == n
  {
    OctetValue(m);
    OctetValue(n);
  }

  /** The number n in k octets, highest first; what does not fit is cut off. */
  function NumberOctets(n: nat, k: nat): (s: seq<byte>)
    ensures |s| == k
  {
    if k == 0 then [] else NumberOctets(n / 0x100, k - 1) + [OctetFor(n % 0x100)]
  }

  lemma {:induction false} NumberOctetsInjective(m: nat, n: nat, k: nat)
    requires m < Pow256(k) && n < Pow256(k) && NumberOctets(m, k) == NumberOctets(n, k)
    ensures m == n
  {
    hide OctetFor;
    if k != 0 {
      SplitLast(NumberOctets(m / 0x100, k - 1), NumberOctets(n / 0x100, k - 1), OctetFor(m % 0x100),
        OctetFor(n % 0x100));
      NumberOctetsInjective(m / 0x100, n / 0x100, k - 1);
      OctetForInjective(m % 0x100, n % 0x100);
    }
  }

  lemma SplitLast(s: seq<byte>, t: seq<byte>, x: byte, y: byte)
    requires |s| == |t| && s + [x] == t + [y]
    ensures s == t && x == y
  {
    assert s == (s + [x])[..|s|] && t == (t + [y])[..|t|];
    assert x == (s + [x])[|s|] && y == (t + [y])[|t|];
  }

  lemma Pow256OfEight(k: nat)
    requires k == 8
    ensures Pow256(k) == 0x1_0000_0000_0000_0000
  {
    PowAdds(0x100, 1, 1);
    PowAdds(0x100, 2, 2);
    PowAdds(0x100, 4, 4);
    assert Pow(0x100, k) == Pow(0x100, 4) * Pow(0x100, 4);
  }
}
