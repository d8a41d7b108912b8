/**
 SHA-256 as sections 4.1.2, 5.1.1 and 6.2.2 of FIPS 180-4 define it, the padding that
 padMessage builds, and where the two paddings agree.
 */
module Sha256 {
  import opened Arithmetic
  import opened Bytes

  type word = bv32

  /** Addition modulo 2^32. */
  function Plus(x: word, y: word): word { x + y }

  function Sum4(a: word, b: word, c: word, d: word): word { Plus(Plus(Plus(a, b), c), d) }

  function Xor3(x: word, y: word, z: word): word { x ^ y ^ z }

  /** The functions of section 4.1.2. */
  function Choose(x: word, y: word, z: word): word { (x & y) ^ (!x & z) }

  function Majority(x: word, y: word, z: word): word { (x & y) ^ (x & z) ^ (y & z) }

  /** Every bit of the choice is that of y where x has a one, and that of z elsewhere. */
  lemma ChooseBits(x: word, y: word, z: word)
    ensures (Choose(x, y, z) ^ y) & x == 0 && (Choose(x, y, z) ^ z) & !x == 0
  {
  }

  /** m has every bit that x and y both have, and no bit that neither has. */
  predicate Agrees(m: word, x: word, y: word) { (m ^ x) & !(x ^ y) == 0 }

  /** Every bit of the majority is that of any two arguments that agree in it. */
  lemma MajorityBits(x: word, y: word, z: word)
    ensures Agrees(Majority(x, y, z), x, y) && Agrees(Majority(x, y, z), y, z) && Agrees(Majority(x, y, z), z, x)
  {
    hide Majority, Agrees;
    MajorityOfTwo(x, y, z);
    MajorityOfTwo(y, z, x);
    MajorityOfTwo(z, x, y);
    MajorityRotates(x, y, z);
    MajorityRotates(y, z, x);
  }

  lemma MajorityOfTwo(x: word, y: word, z: word)
    ensures Agrees(Majority(x, y, z), x, y)
  {
  }

  lemma MajorityRotates(x: word, y: word, z: word)
    ensures Majority(x, y, z) == Majority(y, z, x)
  {
  }

  function BigSigma0(x: word): word { Xor3(x.RotateRight(2), x.RotateRight(13), x.RotateRight(22)) }

  function BigSigma1(x: word): word { Xor3(x.RotateRight(6), x.RotateRight(11), x.RotateRight(25)) }

  function SmallSigma0(x: word): word { Xor3(x.RotateRight(7), x.RotateRight(18), x >> 3) }

  function SmallSigma1(x: word): word { Xor3(x.RotateRight(17), x.RotateRight(19), x >> 10) }

  /** Four octets as a word, the first octet on top, and a word as four octets. */
  function WordOf(b0: byte, b1: byte, b2: byte, b3: byte): word {
    (b0 as word << 24) | (b1 as word << 16) | (b2 as word << 8) | b3 as word
  }

  function OctetsOf(w: word): (s: seq<byte>)
    ensures |s| == 4
  {
    [(w >> 24) as byte, ((w >> 16) & 0xff) as byte, ((w >> 8) & 0xff) as byte, (w & 0xff) as byte]
  }

  lemma WordRoundTrip(b0: byte, b1: byte, b2: byte, b3: byte)
    ensures OctetsOf(WordOf(b0, b1, b2, b3)) == [b0, b1, b2, b3]
  {
  }

  /** The message schedule of section 6.2.2, step 1. */
  function Schedule(chunk: seq<byte>, t: nat): word
    requires |chunk| == 64
  {
    if t < 16 then WordOf(chunk[4 * t], chunk[4 * t + 1], chunk[4 * t + 2], chunk[4 * t + 3])
    else Sum4(Schedule(chunk, t - 16), SmallSigma0(Schedule(chunk, t - 15)), Schedule(chunk, t - 7),
      SmallSigma1(Schedule(chunk, t - 2)))
  }

  /** The eight working variables, and also the eight words of a hash value. */
  datatype Registers = Registers(a: word, b: word, c: word, d: word, e: word, f: word, g: word, h: word)

  /** Step 3: one round with its constant and its schedule word. */
  function Round(r: Registers, k: word, w: word): Registers {
    var t1 := Plus(Plus(Plus(Plus(r.h, BigSigma1(r.e)), Choose(r.e, r.f, r.g)), k), w);
    var t2 := Plus(BigSigma0(r.a), Majority(r.a, r.b, r.c));
    Registers(Plus(t1, t2), r.a, r.b, r.c, Plus(r.d, t1), r.e, r.f, r.g)
  }

  /** The round constants, in rows of eight. */
  const K: seq<word> :=
    [0x428a2f98, 0x71374491, 0xb5c0fbcf, 0xe9b5dba5, 0x3956c25b, 0x59f111f1, 0x923f82a4, 0xab1c5ed5]
    + [0xd807aa98, 0x12835b01, 0x243185be, 0x550c7dc3, 0x72be5d74, 0x80deb1fe, 0x9bdc06a7, 0xc19bf174]
    + [0xe49b69c1, 0xefbe4786, 0x0fc19dc6, 0x240ca1cc, 0x2de92c6f, 0x4a7484aa, 0x5cb0a9dc, 0x76f988da]
    + [0x983e5152, 0xa831c66d, 0xb00327c8, 0xbf597fc7, 0xc6e00bf3, 0xd5a79147, 0x06ca6351, 0x14292967]
    + [0x27b70a85, 0x2e1b2138, 0x4d2c6dfc, 0x53380d13, 0x650a7354, 0x766a0abb, 0x81c2c92e, 0x92722c85]
    + [0xa2bfe8a1, 0xa81a664b, 0xc24b8b70, 0xc76c51a3, 0xd192e819, 0xd6990624, 0xf40e3585, 0x106aa070]
    + [0x19a4c116, 0x1e376c08, 0x2748774c, 0x34b0bcb5, 0x391c0cb3, 0x4ed8aa4a, 0x5b9cca4f, 0x682e6ff3]
    + [0x748f82ee, 0x78a5636f, 0x84c87814, 0x8cc70208, 0x90befffa, 0xa4506ceb, 0xbef9a3f7, 0xc67178f2]

  const START := Registers(0x6a09e667, 0xbb67ae85, 0x3c6ef372, 0xa54ff53a, 0x510e527f, 0x9b05688c, 0x1f83d9ab,
    0x5be0cd19)

  function Rounds(r: Registers, chunk: seq<byte>, t: nat): Registers
    requires |chunk| == 64 && t <= 64
  {
    if t == 0 then r else Round(Rounds(r, chunk, t - 1), K[t - 1], Schedule(chunk, t - 1))
  }

  /** Step 4: the working variables are added to the hash value. */
  function Added(x: Registers, y: Registers): Registers {
    Registers(Plus(x.a, y.a), Plus(x.b, y.b), Plus(x.c, y.c), Plus(x.d, y.d),
      Plus(x.e, y.e), Plus(x.f, y.f), Plus(x.g, y.g), Plus(x.h, y.h))
  }

  function Chunk(message: seq<byte>, m: nat): (chunk: seq<byte>)
    requires 64 * m + 64 <= |message|
    ensures |chunk| == 64
  {
    message[64 * m..64 * m + 64]
  }

  /** The hash value after n blocks. */
  function HashValue(message: seq<byte>, n: nat): Registers
    requires 64 * n <= |message|
  {
    if n == 0 then START
    else
      var before := HashValue(message, n - 1);
      Added(before, Rounds(before, Chunk(message, n - 1), 64))
  }

  function Compressed(r: Registers, chunk: seq<byte>): Registers
    requires |chunk| == 64
  {
    Added(r, Rounds(r, chunk, 64))
  }

  /** The first n blocks taken in from the front, from any hash value on. */
  function HashFrom(r: Registers, message: seq<byte>, n: nat): Registers
    requires 64 * n <= |message|
    decreases n
  {
    if n == 0 then r else HashFrom(Compressed(r, message[..64]), message[64..], n - 1)
  }

  lemma {:induction false} HashFromOneMore(r: Registers, message: seq<byte>, n: nat)
    requires 64 * n + 64 <= |message|
    ensures HashFrom(r, message, n + 1) == Compressed(HashFrom(r, message, n), Chunk(message, n))
    decreases n
  {
    hide Compressed;
    if n == 0 {
      assert HashFrom(Compressed(r, message[..64]), message[64..], 0) == Compressed(r, message[..64]);
    } else {
      HashFromOneMore(Compressed(r, message[..64]), message[64..], n - 1);
      assert Chunk(message[64..], n - 1) == Chunk(message, n);
    }
  }

  /** The hash value is that of a run over the blocks in their order. */
  lemma {:induction false} HashValueIsRun(message: seq<byte>, n: nat)
    requires 64 * n <= |message|
    ensures HashValue(message, n) == HashFrom(START, message, n)
  {
    hide Rounds, Added;
    if n != 0 {
      HashValueIsRun(message, n - 1);
      HashFromOneMore(START, message, n - 1);
    }
  }

  function Octets(r: Registers): (s: seq<byte>)
    ensures |s| == 32
  {
    OctetsOf(r.a) + OctetsOf(r.b) + OctetsOf(r.c) + OctetsOf(r.d) + OctetsOf(r.e) + OctetsOf(r.f) + OctetsOf(r.g)
      + OctetsOf(r.h)
  }

  type digest = s: seq<byte> | |s| == 32 witness Zeros(32)

  /** The digest of a padded message. */
  function DigestOf(padded: seq<byte>): digest {
    Octets(HashValue(padded, |padded| / 64))
  }

  /** The number of zero octets of section 5.1.1. */
  function PaddingLength(size: nat): (k: nat)
    ensures (size + 1 + k) % 64 == 56
  {
    (119 - size % 64) % 64
  }

  /** It is the smallest number that leaves eight octets of the last block free. */
  lemma PaddingLengthIsLeast(size: nat, j: nat)
    requires (size + 1 + j) % 64 == 56
    ensures PaddingLength(size) <= j
  {
    assert (size + 1 + j) / 64 >= (size + 1) / 64;
  }

  /** Section 5.1.1: a one bit, zero bits, and the length in bits. */
  function StandardPadding(m: seq<byte>): seq<byte> {
    m + [0x80] + Zeros(PaddingLength(|m|)) + NumberOctets(8 * |m|, 8)
  }

  /** SHA-256 of FIPS 180-4. */
  function Standard(m: seq<byte>): digest {
    DigestOf(StandardPadding(m))
  }

  /** padMessage: never more than one additional block, and the length over its last eight octets. */
  function Padded(m: seq<byte>): (p: seq<byte>)
    ensures |p| == |m| / 64 * 64 + 64
  {
    var total := |m| / 64 * 64 + 64;
    (m + [0x80] + Zeros(total - |m| - 1))[..total - 8] + NumberOctets(8 * |m| % 0x1_0000_0000_0000_0000, 8)
  }

  /** encode256. */
  function Digest(m: seq<byte>): digest {
    DigestOf(Padded(m))
  }

  /** The padding is the standard's exactly when the last block has room for nine more octets. */
  lemma PaddingIsStandard(m: seq<byte>)
    requires |m| < 0x2000_0000_0000_0000
    ensures Padded(m) == StandardPadding(m) <==> |m| % 64 <= 55
  {
    hide NumberOctets;
    var total := |m| / 64 * 64 + 64;
    if |m| % 64 <= 55 {
      assert PaddingLength(|m|) == 55 - |m| % 64;
      assert (m + [0x80] + Zeros(total - |m| - 1))[..total - 8] == m + [0x80] + Zeros(PaddingLength(|m|));
    } else {
      assert PaddingLength(|m|) == 119 - |m| % 64;
    }
  }

  lemma DigestIsStandard(m: seq<byte>)
    requires |m| < 0x2000_0000_0000_0000 && |m| % 64 <= 55
    ensures Digest(m) == Standard(m)
  {
    hide DigestOf;
    PaddingIsStandard(m);
  }

  lemma SamePaddingSameSize(m: seq<byte>, n: seq<byte>)
    requires |m| < 0x2000_0000_0000_0000 && |n| < 0x2000_0000_0000_0000 && Padded(m) == Padded(n)
    ensures |m| == |n|
  {
    var p, q := Padded(m), Padded(n);
    hide NumberOctets;
    assert p[|p| - 8..] == NumberOctets(8 * |m|, 8) && q[|q| - 8..] == NumberOctets(8 * |n|, 8);
    LengthsDiffer(8 * |m|, 8 * |n|, 8);
  }

  lemma LengthsDiffer(m: nat, n: nat, k: nat)
    requires k == 8 && m < 0x1_0000_0000_0000_0000 && n < 0x1_0000_0000_0000_0000
    requires NumberOctets(m, k) == NumberOctets(n, k)
    ensures m == n
  {
    hide NumberOctets, Pow256;
    Pow256OfEight(k);
    NumberOctetsInjective(m, n, k);
  }

  lemma PaddingKeeps(m: seq<byte>)
    requires |m| % 64 <= 56
    ensures Padded(m)[..|m|] == m
  {
  }

  /** A message whose last octet is overwritten by its length. */
  function Altered(m: seq<byte>): (n: seq<byte>)
    requires 0 < |m|
    ensures |n| == |m| && n != m
  {
    var last: byte := if m[|m| - 1] == 0 then 1 else 0;
    var n := m[|m| - 1 := last];
    assert n[|m| - 1] != m[|m| - 1];
    n
  }

  lemma AlteredSamePadding(m: seq<byte>)
    requires 56 < |m| % 64
    ensures Padded(Altered(m)) == Padded(m)
  {
    var n, at := Altered(m), |m| / 64 * 64 + 56;
    assert m[..at] == n[..at];
    assert (m + [0x80] + Zeros(at + 8 - |m| - 1))[..at] == m[..at];
    assert (n + [0x80] + Zeros(at + 8 - |m| - 1))[..at] == n[..at];
  }

  /** The padding determines the message exactly when no octet of the message lies under the length. */
  lemma PaddingInjective(m: seq<byte>)
    requires |m| < 0x2000_0000_0000_0000
    ensures (forall n: seq<byte> :: |n| < 0x2000_0000_0000_0000 && Padded(n) == Padded(m) ==> n == m)
      <==> |m| % 64 <= 56
  {
    hide Padded, Altered;
    if |m| % 64 <= 56 {
      forall n: seq<byte> | |n| < 0x2000_0000_0000_0000 && Padded(n) == Padded(m)
        ensures n == m
      {
        SamePaddingSameSize(m, n);
        PaddingKeeps(m);
        PaddingKeeps(n);
      }
    } else {
      AlteredSamePadding(m);
    }
  }
}
