/**
 gfMultBlock, ghashBlock and ghash of aes_gcm.cpp on 16-octet blocks, whose bits are the
 coefficients of field elements, the first bit being the constant term.
 */
module Ghash {
  import opened Bytes
  import opened Gf128
  import opened Polynomials

  /** Bit j of an octet, counted from the most significant: y & (1 << (7 - j)). */
  function ByteBit(v: byte, j: nat): bool {
    if j == 0 then v & 0x80 != 0 else if j == 1 then v & 0x40 != 0
    else if j == 2 then v & 0x20 != 0 else if j == 3 then v & 0x10 != 0
    else if j == 4 then v & 0x08 != 0 else if j == 5 then v & 0x04 != 0
    else if j == 6 then v & 0x02 != 0 else v & 0x01 != 0
  }

  ghost function Bits(b: block): element {
    seq(128, i requires 0 <= i < 128 => ByteBit(b[i / 8], i % 8))
  }

  lemma ByteBitXor(v: byte, w: byte, j: nat)
    ensures ByteBit(Xored(v, w), j) == (ByteBit(v, j) != ByteBit(w, j))
  {
    if j == 0 {
    } else if j == 1 {
    } else if j == 2 {
    } else if j == 3 {
    } else if j == 4 {
    } else if j == 5 {
    } else if j == 6 {
    }
  }

  /** A right shift by one moves bit j to bit j + 1, and the last bit of the octet before becomes bit 0. */
  lemma ByteBitShift(v: byte, before: byte, j: nat)
    requires j < 8
    ensures ByteBit((v >> 1) | (before << 7), j) == if j == 0 then ByteBit(before, 7) else ByteBit(v, j - 1)
    ensures ByteBit(v >> 1, j) == (j != 0 && ByteBit(v, j - 1))
  {
  }

  /** R: the low terms 1 + x + x^2 + x^7 in the first octet. */
  const R_POLY: byte := 0xe1

  lemma BitsOfR(j: nat)
    requires j < 8
    ensures ByteBit(R_POLY, j) == Low(j)
  {
  }

  function XorBlock(a: seq<byte>, b: seq<byte>): (c: seq<byte>)
    requires |a| == |b|
    ensures |c| == |a| && forall i :: 0 <= i < |a| ==> c[i] == Xored(a[i], b[i])
  {
    seq(|a|, i requires 0 <= i < |a| => Xored(a[i], b[i]))
  }

  lemma BitsOfXor(a: block, b: block)
    ensures Bits(XorBlock(a, b)) == Xor(Bits(a), Bits(b))
  {
    hide ByteBit;
    forall i | 0 <= i < 128
      ensures Bits(XorBlock(a, b))[i] == (Bits(a)[i] != Bits(b)[i])
    {
      ByteBitXor(a[i / 8], b[i / 8], i % 8);
    }
  }

  lemma BitsOfZeros()
    ensures Bits(Zeros(16)) == None(128)
  {
    forall i | 0 <= i < 128
      ensures !Bits(Zeros(16))[i]
    {
      ZeroBits(i % 8);
    }
  }

  lemma ZeroBits(j: nat)
    ensures !ByteBit(0, j)
  {
  }

  /** Blocks with the same bits are the same. */
  lemma BitsDetermine(a: block, b: block)
    requires Bits(a) == Bits(b)
    ensures a == b
  {
    hide ByteBit;
    forall i | 0 <= i < 16
      ensures a[i] == b[i]
    {
      forall j | 0 <= j < 8
        ensures ByteBit(a[i], j) == ByteBit(b[i], j)
      {
        assert (8 * i + j) / 8 == i && (8 * i + j) % 8 == j;
        assert Bits(a)[8 * i + j] == Bits(b)[8 * i + j];
      }
      BitsOfByte(a[i], b[i]);
    }
  }

  lemma BitsOfByte(v: byte, w: byte)
    requires forall j :: 0 <= j < 8 ==> ByteBit(v, j) == ByteBit(w, j)
    ensures v == w
  {
    assert ByteBit(v, 0) == ByteBit(w, 0) && ByteBit(v, 1) == ByteBit(w, 1) && ByteBit(v, 2) == ByteBit(w, 2)
      && ByteBit(v, 3) == ByteBit(w, 3);
    assert ByteBit(v, 4) == ByteBit(w, 4) && ByteBit(v, 5) == ByteBit(w, 5) && ByteBit(v, 6) == ByteBit(w, 6)
      && ByteBit(v, 7) == ByteBit(w, 7);
  }

  /** The block one place to the right. */
  ghost predicate IsShifted(a: seq<byte>, b: seq<byte>) {
    && |a| == |b| == 16
    && b[0] == a[0] >> 1
    && forall k :: 1 <= k < 16 ==> b[k] == (a[k] >> 1) | (a[k - 1] << 7)
  }

  method RightShiftBlock(a: array<byte>)
    requires a.Length == 16
    modifies a
    ensures IsShifted(old(a[..]), a[..])
  {
    for k := 16 downto 1
      invariant forall j :: 0 <= j < k ==> a[j] == old(a[j])
      invariant forall j :: k <= j < 16 ==> a[j] == (old(a[j]) >> 1) | (old(a[j - 1]) << 7)
    {
      a[k] := (a[k] >> 1) | (a[k - 1] << 7);
    }
    a[0] := a[0] >> 1;
  }

  lemma BitOfShift(a: block, b: block, i: nat, j: nat)
    requires IsShifted(a, b) && i < 16 && j < 8
    ensures ByteBit(b[i], j) == if j != 0 then ByteBit(a[i], j - 1) else i != 0 && ByteBit(a[i - 1], 7)
  {
    hide ByteBit;
    ByteBitShift(a[i], if i == 0 then 0 else a[i - 1], j);
  }

  lemma BitsOfShift(a: block, b: block)
    requires IsShifted(a, b)
    ensures Bits(b) == [false] + Bits(a)[..127]
  {
    hide ByteBit, IsShifted;
    forall i | 0 <= i < 128
      ensures Bits(b)[i] == (i != 0 && Bits(a)[i - 1])
    {
      BitOfShift(a, b, i / 8, i % 8);
      if i % 8 != 0 {
        assert (i - 1) / 8 == i / 8 && (i - 1) % 8 == i % 8 - 1;
      } else if i != 0 {
        assert (i - 1) / 8 == i / 8 - 1 && (i - 1) % 8 == 7;
      }
    }
  }

  lemma BitsOfReduced(a: block, b: block, carry: bool)
    requires b == if carry then a[0 := a[0] ^ R_POLY] else a
    ensures Bits(b) == Xor(Bits(a), When(carry, LowTerms()))
  {
    hide ByteBit;
    forall i | 0 <= i < 128
      ensures Bits(b)[i] == (Bits(a)[i] != (carry && Low(i)))
    {
      if i < 8 {
        ByteBitXor(a[0], R_POLY, i);
        BitsOfR(i);
      }
    }
  }

  /** V becomes V times x. */
  method TimesXInPlace(v: array<byte>)
    requires v.Length == 16
    modifies v
    ensures Bits(v[..]) == TimesX(old(Bits(v[..])))
  {
    hide ByteBit, Bits;
    ghost var a: block := v[..];
    var lsb := v[15] & 0x01 != 0;
    LastBit(a);
    RightShiftBlock(v);
    ghost var b: block := v[..];
    BitsOfShift(a, b);
    if lsb {
      v[0] := v[0] ^ R_POLY;
    }
    BitsOfReduced(b, v[..], lsb);
  }

  lemma LastBit(a: block)
    ensures Bits(a)[127] == (a[15] & 0x01 != 0)
  {
  }

  method XorInPlace(src: seq<byte>, dst: array<byte>)
    requires |src| == 16 && dst.Length == 16
    modifies dst
    ensures dst[..] == XorBlock(old(dst[..]), src)
  {
    for i := 0 to 16
      invariant forall j :: 0 <= j < i ==> dst[j] == Xored(old(dst[j]), src[j])
      invariant forall j :: i <= j < 16 ==> dst[j] == old(dst[j])
    {
      dst[i] := Xored(dst[i], src[i]);
    }
  }

  /** The eight bits of octet i of y: the product p grows, and v is multiplied by x each time. */
  method GfMultOctet(p: array<byte>, v: array<byte>, y: byte, i: nat, ghost f: element, ghost g: element)
    requires p.Length == v.Length == 16 && p != v && i < 16
    requires forall j :: 0 <= j < 8 ==> g[8 * i + j] == ByteBit(y, j)
    requires Bits(p[..]) == PartialMul(f, g, 8 * i) && Bits(v[..]) == Shifted(f, 8 * i)
    modifies p, v
    ensures Bits(p[..]) == PartialMul(f, g, 8 * i + 8) && Bits(v[..]) == Shifted(f, 8 * i + 8)
  {
    hide ByteBit, Bits, Shifted, TimesX, PartialMul;
    for j := 0 to 8
      invariant Bits(p[..]) == PartialMul(f, g, 8 * i + j)
      invariant Bits(v[..]) == Shifted(f, 8 * i + j)
    {
      PartialMulStep(f, g, 8 * i + j);
      if ByteBit(y, j) {
        BitsOfXor(p[..], v[..]);
        XorInPlace(v[..], p);
      }
      TimesXInPlace(v);
    }
  }

  /** z becomes the product of x and y; z may be x or y. */
  method GfMultBlock(x: array<byte>, y: array<byte>, z: array<byte>)
    requires x.Length == y.Length == z.Length == 16
    modifies z
    ensures Bits(z[..]) == Mul(old(Bits(x[..])), old(Bits(y[..])))
  {
    hide ByteBit, Bits, Shifted, TimesX;
    ghost var s, t := x[..], y[..];
    var p, v := new byte[16](i => 0), new byte[16];
    for i := 0 to 16
      invariant x[..] == s && y[..] == t
      invariant v[..i] == s[..i] && p[..] == Zeros(16)
    {
      v[i] := x[i];
    }
    assert v[..] == s;
    BitsOfZeros();
    ShiftedZero(Bits(s));
    for i := 0 to 16
      invariant y[..] == t
      invariant Bits(p[..]) == PartialMul(Bits(s), Bits(t), 8 * i)
      invariant Bits(v[..]) == Shifted(Bits(s), 8 * i)
    {
      BitsOfOctet(t, i);
      GfMultOctet(p, v, y[i], i, Bits(s), Bits(t));
    }
    ghost var r := p[..];
    for i := 0 to 16
      invariant p[..] == r
      invariant z[..i] == r[..i]
    {
      z[i] := p[i];
    }
    assert z[..] == r;
  }

  lemma ShiftedZero(p: element)
    ensures Shifted(p, 0) == p
  {
  }

  lemma BitsOfOctet(b: block, i: nat)
    requires i < 16
    ensures forall j :: 0 <= j < 8 ==> Bits(b)[8 * i + j] == ByteBit(b[i], j)
  {
    hide ByteBit;
    forall j | 0 <= j < 8
      ensures Bits(b)[8 * i + j] == ByteBit(b[i], j)
    {
      assert (8 * i + j) / 8 == i && (8 * i + j) % 8 == j;
    }
  }

  lemma PartialMulStep(p: element, q: element, n: nat)
    requires n < 128
    ensures PartialMul(p, q, n + 1) == if q[n] then Xor(PartialMul(p, q, n), Shifted(p, n)) else PartialMul(p, q, n)
    ensures Shifted(p, n + 1) == TimesX(Shifted(p, n))
  {
    XorNone(PartialMul(p, q, n));
  }

  /** Octets padded with zeros to whole blocks. */
  function Padded(data: seq<byte>): (s: seq<byte>)
    ensures |s| % 16 == 0 && |data| <= |s| < |data| + 16
  {
    data + Zeros((16 - |data| % 16) % 16)
  }

  /** The blocks of a whole number of blocks, as elements. */
  ghost function Elements(data: seq<byte>): (xs: seq<element>)
    requires |data| % 16 == 0
    ensures |xs| == |data| / 16
  {
    seq(|data| / 16, i requires 0 <= i < |data| / 16 => Bits(Group(data, i)))
  }

  /** GHASH, section 6.4 of NIST SP 800-38D: Y becomes (Y + X) * H for each block X. */
  ghost function Chain(h: element, y: element, xs: seq<element>): element
    decreases |xs|
  {
    if |xs| == 0 then y else Mul(Xor(Chain(h, y, xs[..|xs| - 1]), xs[|xs| - 1]), h)
  }

  lemma {:induction false} ChainAppend(h: element, y: element, xs: seq<element>, zs: seq<element>)
    ensures Chain(h, y, xs + zs) == Chain(h, Chain(h, y, xs), zs)
  {
    hide Mul, Xor;
    if |zs| == 0 {
      assert xs + zs == xs;
    } else {
      var n := |zs| - 1;
      ChainAppend(h, y, xs, zs[..n]);
      assert (xs + zs)[..|xs| + n] == xs + zs[..n];
    }
  }

  ghost function Power(h: element, n: nat): element
    requires 0 < n
  {
    if n == 1 then h else Mul(Power(h, n - 1), h)
  }

  /** The sum of X_i * H^(n - i + 1) over the first m of n blocks, counting i from 1. */
  ghost function PowerSum(h: element, xs: seq<element>, m: nat): element
    requires m <= |xs|
  {
    if m == 0 then None(128) else Xor(PowerSum(h, xs, m - 1), Mul(xs[m - 1], Power(h, |xs| - m + 1)))
  }

  /** One more block raises every power by one. */
  lemma {:induction false} PowerSumRaised(h: element, xs: seq<element>, x: element, m: nat)
    requires m <= |xs|
    ensures PowerSum(h, xs + [x], m) == Mul(PowerSum(h, xs, m), h)
  {
    hide Mul, Xor;
    if m == 0 {
      MulNone(h);
    } else {
      PowerSumRaised(h, xs, x, m - 1);
      var n := |xs| - m + 1;
      MulDistributes(PowerSum(h, xs, m - 1), Mul(xs[m - 1], Power(h, n)), h);
      MulAssociates(xs[m - 1], Power(h, n), h);
    }
  }

  /** GHASH is the polynomial in H whose coefficients are the blocks. */
  lemma {:induction false} ChainIsPowerSum(h: element, xs: seq<element>)
    ensures Chain(h, None(128), xs) == PowerSum(h, xs, |xs|)
    decreases |xs|
  {
    hide Mul, Xor;
    if |xs| != 0 {
      var n := |xs| - 1;
      var ys := xs[..n];
      assert xs == ys + [xs[n]];
      ChainIsPowerSum(h, ys);
      PowerSumRaised(h, ys, xs[n], n);
      MulDistributes(PowerSum(h, ys, n), xs[n], h);
    }
  }

  lemma GroupOfPrefix(data: seq<byte>, n: nat, k: nat)
    requires 16 * k + 16 <= n <= |data|
    ensures Group(data[..n], k) == Group(data, k)
  {
  }

  lemma ElementsStep(data: seq<byte>, i: nat)
    requires 16 * i + 16 <= |data|
    ensures Elements(data[..16 * i + 16]) == Elements(data[..16 * i]) + [Bits(Group(data, i))]
  {
    hide Bits;
    forall k | 0 <= k < i
      ensures Group(data[..16 * i + 16], k) == Group(data[..16 * i], k)
    {
      GroupOfPrefix(data, 16 * i + 16, k);
      GroupOfPrefix(data, 16 * i, k);
    }
    GroupOfPrefix(data, 16 * i + 16, i);
  }

  lemma ChainStep(h: element, y: element, xs: seq<element>, x: element)
    ensures Chain(h, y, xs + [x]) == Mul(Xor(Chain(h, y, xs), x), h)
    ensures Chain(h, y, []) == y
  {
    assert (xs + [x])[..|xs|] == xs;
  }

  /** The running hash takes in one block. */
  method AbsorbBlock(h: array<byte>, x: block, temp: array<byte>)
    requires h.Length == temp.Length == 16 && h != temp
    modifies temp
    ensures Bits(temp[..]) == Mul(Xor(old(Bits(temp[..])), Bits(x)), Bits(h[..]))
  {
    hide Bits, Mul, Xor;
    BitsOfXor(temp[..], x);
    XorInPlace(x, temp);
    GfMultBlock(temp, h, temp);
  }

  /** ghashBlock: the result takes in every block of data, the last one padded. */
  method GhashBlock(h: array<byte>, data: seq<byte>, result: array<byte>)
    requires h.Length == result.Length == 16
    modifies result
    ensures Bits(result[..]) == Chain(old(Bits(h[..])), old(Bits(result[..])), Elements(Padded(data)))
  {
    hide Bits, Mul, Xor, Elements, Chain;
    ghost var k, y, padded := Bits(h[..]), Bits(result[..]), Padded(data);
    var temp := new byte[16];
    for i := 0 to 16
      invariant Bits(h[..]) == k && Bits(result[..]) == y
      invariant temp[..i] == result[..i]
    {
      temp[i] := result[i];
    }
    assert temp[..] == result[..];
    var m := |data| / 16;
    NoElements(padded);
    ChainStep(k, y, [], k);
    for i := 0 to m
      invariant Bits(h[..]) == k
      invariant Bits(temp[..]) == Chain(k, y, Elements(padded[..16 * i]))
    {
      assert Group(padded, i) == Group(data, i);
      ElementsStep(padded, i);
      ChainStep(k, y, Elements(padded[..16 * i]), Bits(Group(data, i)));
      AbsorbBlock(h, Group(data, i), temp);
    }
    var extra := |data| % 16;
    if extra != 0 {
      var tempExtra := data[16 * m..] + Zeros(16 - extra);
      assert Group(padded, m) == tempExtra;
      ElementsStep(padded, m);
      ChainStep(k, y, Elements(padded[..16 * m]), Bits(tempExtra));
      AbsorbBlock(h, tempExtra, temp);
      assert padded[..16 * m + 16] == padded;
    } else {
      assert padded[..16 * m] == padded;
    }
    CopyBlock(temp, result);
  }

  lemma NoElements(data: seq<byte>)
    ensures Elements(data[..0]) == []
  {
  }

  method CopyBlock(source: array<byte>, target: array<byte>)
    requires source.Length == target.Length == 16
    modifies target
    ensures target[..] == old(source[..])
  {
    for i := 0 to 16
      invariant source[..] == old(source[..])
      invariant target[..i] == old(source[..i])
    {
      target[i] := source[i];
    }
  }

  /** The octet with the given bits, most significant first. */
  function ByteOfBits(b: seq<bool>): byte
    requires |b| == 8
  {
    (if b[0] then 0x80 else 0) | (if b[1] then 0x40 else 0) | (if b[2] then 0x20 else 0) | (if b[3] then 0x10 else 0)
    | (if b[4] then 0x08 else 0) | (if b[5] then 0x04 else 0) | (if b[6] then 0x02 else 0) | (if b[7] then 0x01 else 0)
  }

  lemma BitOfBits(b: seq<bool>, j: nat)
    requires |b| == 8 && j < 8
    ensures ByteBit(ByteOfBits(b), j) == b[j]
  {
    if j == 0 {
    } else if j == 1 {
    } else if j == 2 {
    } else if j == 3 {
    } else if j == 4 {
    } else if j == 5 {
    } else if j == 6 {
    }
  }

  /** The block whose bits are the coefficients of an element. */
  ghost function BlockOf(e: element): block {
    seq(16, i requires 0 <= i < 16 => ByteOfBits(e[8 * i..8 * i + 8]))
  }

  lemma BitsOfBlock(b: block)
    ensures BlockOf(Bits(b)) == b
  {
    hide ByteBit, ByteOfBits;
    var e := Bits(b);
    forall i | 0 <= i < 128
      ensures Bits(BlockOf(e))[i] == e[i]
    {
      BitOfBits(e[8 * (i / 8)..8 * (i / 8) + 8], i % 8);
    }
    assert Bits(BlockOf(e)) == e;
    BitsDetermine(BlockOf(e), b);
  }
}
