/**
 The second test case of the GCM specification: sixteen octets of zeros under a key and a vector
 of zeros, down to the tag.
 */
module GcmExample {
  import opened Bytes
  import opened Gf128
  import opened Polynomials
  import opened Ghash
  import opened Counter
  import opened AesRounds
  import opened Gcm
  import AesExample
  import K = AesKeys
  import A = AesBuffers
  import C = Aes

  // The product of two blocks on their octets.

  datatype Octets = Octets(b0: byte, b1: byte, b2: byte, b3: byte, b4: byte, b5: byte, b6: byte, b7: byte,
    b8: byte, b9: byte, ba: byte, bb: byte, bc: byte, bd: byte, be: byte, bf: byte)

  /** The product so far, and the multiple of the first factor that comes next. */
  datatype Product = Product(z: Octets, v: Octets)

  function BlockOfOctets(a: Octets): block {
    [a.b0, a.b1, a.b2, a.b3] + [a.b4, a.b5, a.b6, a.b7] + [a.b8, a.b9, a.ba, a.bb] + [a.bc, a.bd, a.be, a.bf]
  }

  function Plus(a: Octets, b: Octets): Octets {
    Octets(
      a.b0 ^ b.b0, a.b1 ^ b.b1, a.b2 ^ b.b2, a.b3 ^ b.b3,
      a.b4 ^ b.b4, a.b5 ^ b.b5, a.b6 ^ b.b6, a.b7 ^ b.b7,
      a.b8 ^ b.b8, a.b9 ^ b.b9, a.ba ^ b.ba, a.bb ^ b.bb,
      a.bc ^ b.bc, a.bd ^ b.bd, a.be ^ b.be, a.bf ^ b.bf)
  }

  /** An octet that moves right by one bit, with the last bit of the octet in front of it. */
  function Moved(b: byte, before: byte): byte { (b >> 1) | (before << 7) }

  function Half(a: Octets): Octets {
    Octets(
      a.b0 >> 1, (a.b1 >> 1) | (a.b0 << 7), (a.b2 >> 1) | (a.b1 << 7), (a.b3 >> 1) | (a.b2 << 7),
      (a.b4 >> 1) | (a.b3 << 7), (a.b5 >> 1) | (a.b4 << 7), (a.b6 >> 1) | (a.b5 << 7), (a.b7 >> 1) | (a.b6 << 7),
      (a.b8 >> 1) | (a.b7 << 7), (a.b9 >> 1) | (a.b8 << 7), (a.ba >> 1) | (a.b9 << 7), (a.bb >> 1) | (a.ba << 7),
      (a.bc >> 1) | (a.bb << 7), (a.bd >> 1) | (a.bc << 7), (a.be >> 1) | (a.bd << 7), (a.bf >> 1) | (a.be << 7))
  }

  function Raised(a: Octets): Octets {
    if a.bf & 0x01 != 0 then Half(a).(b0 := Half(a).b0 ^ 0xe1) else Half(a)
  }

  function Turn(p: Product, bit: bool): Product {
    Product(if bit then Plus(p.z, p.v) else p.z, Raised(p.v))
  }

  function FirstTurns(p: Product, y: byte): Product {
    Turn(Turn(Turn(Turn(p, y & 0x80 != 0), y & 0x40 != 0), y & 0x20 != 0), y & 0x10 != 0)
  }

  function LastTurns(p: Product, y: byte): Product {
    Turn(Turn(Turn(Turn(p, y & 0x08 != 0), y & 0x04 != 0), y & 0x02 != 0), y & 0x01 != 0)
  }

  /** The eight bits of one octet of the second factor. */
  function Turns(p: Product, y: byte): Product { LastTurns(FirstTurns(p, y), y) }

  lemma Entries(a: Octets)
    ensures var s := BlockOfOctets(a); s[0] == a.b0 && s[1] == a.b1 && s[2] == a.b2 && s[3] == a.b3
    ensures var s := BlockOfOctets(a); s[4] == a.b4 && s[5] == a.b5 && s[6] == a.b6 && s[7] == a.b7
    ensures var s := BlockOfOctets(a); s[8] == a.b8 && s[9] == a.b9 && s[10] == a.ba && s[11] == a.bb
    ensures var s := BlockOfOctets(a); s[12] == a.bc && s[13] == a.bd && s[14] == a.be && s[15] == a.bf
  {
  }

  lemma PlusEntries(a: Octets, b: Octets)
    ensures Plus(a, b).b0 == Xored(a.b0, b.b0) && Plus(a, b).b1 == Xored(a.b1, b.b1)
    ensures Plus(a, b).b2 == Xored(a.b2, b.b2)
    ensures Plus(a, b).b3 == Xored(a.b3, b.b3) && Plus(a, b).b4 == Xored(a.b4, b.b4)
    ensures Plus(a, b).b5 == Xored(a.b5, b.b5)
    ensures Plus(a, b).b6 == Xored(a.b6, b.b6) && Plus(a, b).b7 == Xored(a.b7, b.b7)
  {
  }

  lemma MorePlusEntries(a: Octets, b: Octets)
    ensures Plus(a, b).b8 == Xored(a.b8, b.b8) && Plus(a, b).b9 == Xored(a.b9, b.b9)
    ensures Plus(a, b).ba == Xored(a.ba, b.ba)
    ensures Plus(a, b).bb == Xored(a.bb, b.bb) && Plus(a, b).bc == Xored(a.bc, b.bc)
    ensures Plus(a, b).bd == Xored(a.bd, b.bd)
    ensures Plus(a, b).be == Xored(a.be, b.be) && Plus(a, b).bf == Xored(a.bf, b.bf)
  {
  }

  lemma HalfEntries(a: Octets)
    ensures Half(a).b0 == a.b0 >> 1
    ensures Half(a).b1 == Moved(a.b1, a.b0) && Half(a).b2 == Moved(a.b2, a.b1) && Half(a).b3 == Moved(a.b3, a.b2)
    ensures Half(a).b4 == Moved(a.b4, a.b3) && Half(a).b5 == Moved(a.b5, a.b4) && Half(a).b6 == Moved(a.b6, a.b5)
    ensures Half(a).b7 == Moved(a.b7, a.b6) && Half(a).b8 == Moved(a.b8, a.b7) && Half(a).b9 == Moved(a.b9, a.b8)
    ensures Half(a).ba == Moved(a.ba, a.b9) && Half(a).bb == Moved(a.bb, a.ba) && Half(a).bc == Moved(a.bc, a.bb)
    ensures Half(a).bd == Moved(a.bd, a.bc) && Half(a).be == Moved(a.be, a.bd) && Half(a).bf == Moved(a.bf, a.be)
  {
  }

  lemma BitsOfSum(a: Octets, b: Octets)
    ensures Bits(BlockOfOctets(Plus(a, b))) == Xor(Bits(BlockOfOctets(a)), Bits(BlockOfOctets(b)))
  {
    hide Bits, BlockOfOctets, Plus;
    BlockOfSum(a, b);
    BitsOfXor(BlockOfOctets(a), BlockOfOctets(b));
  }

  lemma BlockOfSum(a: Octets, b: Octets)
    ensures BlockOfOctets(Plus(a, b)) == XorBlock(BlockOfOctets(a), BlockOfOctets(b))
  {
    hide Xored, BlockOfOctets, Plus;
    PlusEntries(a, b);
    MorePlusEntries(a, b);
    var s, t := BlockOfOctets(a), BlockOfOctets(b);
    Entries(a);
    Entries(b);
    Entries(Plus(a, b));
    EntriesDetermine(BlockOfOctets(Plus(a, b)), XorBlock(s, t));
  }

  lemma BitsOfRaised(a: Octets)
    ensures Bits(BlockOfOctets(Raised(a))) == TimesX(Bits(BlockOfOctets(a)))
  {
    hide Bits, BlockOfOctets, Half, TimesX;
    var s, h: block := BlockOfOctets(a), BlockOfOctets(Half(a));
    HalfIsShifted(a);
    BitsOfShift(s, h);
    LastBit(s);
    Entries(a);
    Entries(Half(a));
    FirstReplaced(Half(a), Half(a).b0 ^ R_POLY);
    BitsOfReduced(h, BlockOfOctets(Raised(a)), a.bf & 0x01 != 0);
    TimesXIs(Bits(s), Bits(h));
  }

  lemma TimesXIs(p: element, q: element)
    requires q == [false] + p[..127]
    ensures TimesX(p) == Xor(q, When(p[127], LowTerms()))
  {
  }

  lemma FirstReplaced(h: Octets, x: byte)
    ensures BlockOfOctets(h.(b0 := x)) == BlockOfOctets(h)[0 := x]
  {
    hide BlockOfOctets;
    Entries(h);
    Entries(h.(b0 := x));
    EntriesDetermine(BlockOfOctets(h.(b0 := x)), BlockOfOctets(h)[0 := x]);
  }

  lemma HalfIsShifted(a: Octets)
    ensures IsShifted(BlockOfOctets(a), BlockOfOctets(Half(a)))
  {
    hide Moved, BlockOfOctets, Half;
    HalfEntries(a);
    Entries(a);
    Entries(Half(a));
    ShiftedWhenMoved(BlockOfOctets(a), BlockOfOctets(Half(a)));
  }

  lemma ShiftedWhenMoved(s: block, h: block)
    requires h[0] == s[0] >> 1 && forall k :: 1 <= k < 16 ==> h[k] == Moved(s[k], s[k - 1])
    ensures IsShifted(s, h)
  {
  }

  ghost predicate Reached(p: Product, f: element, g: element, n: nat)
    requires n <= 128
  {
    Bits(BlockOfOctets(p.z)) == PartialMul(f, g, n) && Bits(BlockOfOctets(p.v)) == Shifted(f, n)
  }

  lemma TurnReaches(p: Product, f: element, g: element, n: nat, bit: bool)
    requires n < 128 && Reached(p, f, g, n) && bit == g[n]
    ensures Reached(Turn(p, bit), f, g, n + 1)
  {
    hide Bits, BlockOfOctets, Raised, Plus, TimesX, PartialMul, Shifted;
    PartialMulStep(f, g, n);
    BitsOfSum(p.z, p.v);
    BitsOfRaised(p.v);
  }

  lemma TurnsReach(p: Product, f: element, t: block, i: nat)
    requires i < 16 && Reached(p, f, Bits(t), 8 * i)
    ensures Reached(Turns(p, t[i]), f, Bits(t), 8 * i + 8)
  {
    hide Turn, Reached, Bits;
    var g, y, n := Bits(t), t[i], 8 * i;
    BitsOfOctet(t, i);
    assert g[n] == ByteBit(y, 0) && g[n + 1] == ByteBit(y, 1) && g[n + 2] == ByteBit(y, 2);
    assert g[n + 3] == ByteBit(y, 3) && g[n + 4] == ByteBit(y, 4) && g[n + 5] == ByteBit(y, 5);
    assert g[n + 6] == ByteBit(y, 6) && g[n + 7] == ByteBit(y, 7);
    var p1 := Turn(p, g[n]);
    var p2 := Turn(p1, g[n + 1]);
    var p3 := Turn(p2, g[n + 2]);
    var p4 := Turn(p3, g[n + 3]);
    var p5 := Turn(p4, g[n + 4]);
    var p6 := Turn(p5, g[n + 5]);
    var p7 := Turn(p6, g[n + 6]);
    TurnReaches(p, f, g, n, g[n]);
    TurnReaches(p1, f, g, n + 1, g[n + 1]);
    TurnReaches(p2, f, g, n + 2, g[n + 2]);
    TurnReaches(p3, f, g, n + 3, g[n + 3]);
    TurnReaches(p4, f, g, n + 4, g[n + 4]);
    TurnReaches(p5, f, g, n + 5, g[n + 5]);
    TurnReaches(p6, f, g, n + 6, g[n + 6]);
    TurnReaches(p7, f, g, n + 7, g[n + 7]);
  }

  lemma Product1a()
    ensures
      var p0 := Product(
        Octets(0x00, 0x00, 0x00, 0x00, 0x00, 0x00, 0x00, 0x00, 0x00, 0x00, 0x00, 0x00, 0x00, 0x00, 0x00, 0x00),
        Octets(0x66, 0xe9, 0x4b, 0xd4, 0xef, 0x8a, 0x2c, 0x3b, 0x88, 0x4c, 0xfa, 0x59, 0xca, 0x34, 0x2b, 0x2e));
      var p1 := Product(
        Octets(0x00, 0x00, 0x00, 0x00, 0x00, 0x00, 0x00, 0x00, 0x00, 0x00, 0x00, 0x00, 0x00, 0x00, 0x00, 0x00),
        Octets(0xaf, 0xae, 0x94, 0xbd, 0x4e, 0xf8, 0xa2, 0xc3, 0xb8, 0x84, 0xcf, 0xa5, 0x9c, 0xa3, 0x42, 0xb2));
      var p2 := Product(
        Octets(0xaf, 0x9e, 0x77, 0xb8, 0xfa, 0x61, 0x3c, 0xe8, 0x99, 0x31, 0xaa, 0x1d, 0xd4, 0xbc, 0xb8, 0xfa),
        Octets(0x32, 0xba, 0xe9, 0x4b, 0xd4, 0xef, 0x8a, 0x2c, 0x3b, 0x88, 0x4c, 0xfa, 0x59, 0xca, 0x34, 0x2b));
      var p3 := Product(
        Octets(0x9d, 0x24, 0x9e, 0xf3, 0x2e, 0x8e, 0xb6, 0xc4, 0xa2, 0xb9, 0xe6, 0xe7, 0x8d, 0x76, 0x8c, 0xd1),
        Octets(0xc6, 0x4b, 0xae, 0x94, 0xbd, 0x4e, 0xf8, 0xa2, 0xc3, 0xb8, 0x84, 0xcf, 0xa5, 0x9c, 0xa3, 0x42));
      var p4 := Product(
        Octets(0x5b, 0x6f, 0x30, 0x67, 0x93, 0xc0, 0x4e, 0x66, 0x61, 0x01, 0x62, 0x28, 0x28, 0xea, 0x2f, 0x93),
        Octets(0x34, 0x24, 0xba, 0xe9, 0x4b, 0xd4, 0xef, 0x8a, 0x2c, 0x3b, 0x88, 0x4c, 0xfa, 0x59, 0xca, 0x34));
      && FirstTurns(p0, 0x03) == p1 && LastTurns(p1, 0x03) == p2
      && FirstTurns(p2, 0x88) == p3 && LastTurns(p3, 0x88) == p4
  {
  }

  lemma Product1c()
    ensures
      var p0 := Product(
        Octets(0x5b, 0x6f, 0x30, 0x67, 0x93, 0xc0, 0x4e, 0x66, 0x61, 0x01, 0x62, 0x28, 0x28, 0xea, 0x2f, 0x93),
        Octets(0x34, 0x24, 0xba, 0xe9, 0x4b, 0xd4, 0xef, 0x8a, 0x2c, 0x3b, 0x88, 0x4c, 0xfa, 0x59, 0xca, 0x34));
      var p1 := Product(
        Octets(0x92, 0xdd, 0x40, 0xa7, 0x54, 0x84, 0x4b, 0xd8, 0x1e, 0xa0, 0x5f, 0x4b, 0x30, 0xd4, 0x39, 0xfb),
        Octets(0x73, 0xc2, 0x4b, 0xae, 0x94, 0xbd, 0x4e, 0xf8, 0xa2, 0xc3, 0xb8, 0x84, 0xcf, 0xa5, 0x9c, 0xa3));
      var p2 := Product(
        Octets(0x6c, 0x6f, 0x99, 0xe2, 0x65, 0x16, 0x56, 0x9e, 0x94, 0xd3, 0x09, 0xee, 0xcc, 0x98, 0xc2, 0x70),
        Octets(0x23, 0x5c, 0x24, 0xba, 0xe9, 0x4b, 0xd4, 0xef, 0x8a, 0x2c, 0x3b, 0x88, 0x4c, 0xfa, 0x59, 0xca));
      var p3 := Product(
        Octets(0x5e, 0x9d, 0xaf, 0x05, 0xf8, 0xf8, 0x68, 0x06, 0xdb, 0xe9, 0x2f, 0xa2, 0xa6, 0x1f, 0xb7, 0x5f),
        Octets(0xdb, 0x75, 0xc2, 0x4b, 0xae, 0x94, 0xbd, 0x4e, 0xf8, 0xa2, 0xc3, 0xb8, 0x84, 0xcf, 0xa5, 0x9c));
      var p4 := Product(
        Octets(0xde, 0x8f, 0xfc, 0xf9, 0x6a, 0x83, 0xa4, 0xbc, 0xe1, 0x32, 0x3d, 0x28, 0x41, 0x84, 0x29, 0x6a),
        Octets(0x9c, 0x37, 0x5c, 0x24, 0xba, 0xe9, 0x4b, 0xd4, 0xef, 0x8a, 0x2c, 0x3b, 0x88, 0x4c, 0xfa, 0x59));
      && FirstTurns(p0, 0xda) == p1 && LastTurns(p1, 0xda) == p2
      && FirstTurns(p2, 0xce) == p3 && LastTurns(p3, 0xce) == p4
  {
  }

  lemma Product1e()
    ensures
      var p0 := Product(
        Octets(0xde, 0x8f, 0xfc, 0xf9, 0x6a, 0x83, 0xa4, 0xbc, 0xe1, 0x32, 0x3d, 0x28, 0x41, 0x84, 0x29, 0x6a),
        Octets(0x9c, 0x37, 0x5c, 0x24, 0xba, 0xe9, 0x4b, 0xd4, 0xef, 0x8a, 0x2c, 0x3b, 0x88, 0x4c, 0xfa, 0x59));
      var p1 := Product(
        Octets(0x26, 0x19, 0x85, 0xe2, 0x19, 0x4d, 0x53, 0xa3, 0xad, 0x15, 0xa0, 0x3b, 0x67, 0xb1, 0x6a, 0xd0),
        Octets(0xf4, 0xe3, 0x75, 0xc2, 0x4b, 0xae, 0x94, 0xbd, 0x4e, 0xf8, 0xa2, 0xc3, 0xb8, 0x84, 0xcf, 0xa5));
      var p2 := Product(
        Octets(0x26, 0x19, 0x85, 0xe2, 0x19, 0x4d, 0x53, 0xa3, 0xad, 0x15, 0xa0, 0x3b, 0x67, 0xb1, 0x6a, 0xd0),
        Octets(0x63, 0xee, 0x37, 0x5c, 0x24, 0xba, 0xe9, 0x4b, 0xd4, 0xef, 0x8a, 0x2c, 0x3b, 0x88, 0x4c, 0xfa));
      var p3 := Product(
        Octets(0xc0, 0xf1, 0xf9, 0x82, 0xb0, 0x4e, 0x5d, 0x93, 0xf6, 0x5c, 0x39, 0xd9, 0xd5, 0xaa, 0x3c, 0x8b),
        Octets(0xdf, 0x7e, 0xe3, 0x75, 0xc2, 0x4b, 0xae, 0x94, 0xbd, 0x4e, 0xf8, 0xa2, 0xc3, 0xb8, 0x84, 0xcf));
      var p4 := Product(
        Octets(0xe8, 0x11, 0x30, 0xe5, 0x21, 0xf9, 0x61, 0x7c, 0x87, 0xa8, 0xfb, 0xa0, 0x04, 0x98, 0x5f, 0xdf),
        Octets(0xb8, 0x17, 0xee, 0x37, 0x5c, 0x24, 0xba, 0xe9, 0x4b, 0xd4, 0xef, 0x8a, 0x2c, 0x3b, 0x88, 0x4c));
      && FirstTurns(p0, 0x60) == p1 && LastTurns(p1, 0x60) == p2
      && FirstTurns(p2, 0xb6) == p3 && LastTurns(p3, 0xb6) == p4
  {
  }

  lemma Product1g()
    ensures
      var p0 := Product(
        Octets(0xe8, 0x11, 0x30, 0xe5, 0x21, 0xf9, 0x61, 0x7c, 0x87, 0xa8, 0xfb, 0xa0, 0x04, 0x98, 0x5f, 0xdf),
        Octets(0xb8, 0x17, 0xee, 0x37, 0x5c, 0x24, 0xba, 0xe9, 0x4b, 0xd4, 0xef, 0x8a, 0x2c, 0x3b, 0x88, 0x4c));
      var p1 := Product(
        Octets(0x7e, 0x03, 0x25, 0x5f, 0xaa, 0xd4, 0xf5, 0x2f, 0x9e, 0x89, 0x2f, 0xc8, 0xa3, 0xad, 0x35, 0x80),
        Octets(0x9a, 0x01, 0x7e, 0xe3, 0x75, 0xc2, 0x4b, 0xae, 0x94, 0xbd, 0x4e, 0xf8, 0xa2, 0xc3, 0xb8, 0x84));
      var p2 := Product(
        Octets(0xaa, 0xc3, 0x55, 0x3b, 0x19, 0x1c, 0x2e, 0xb1, 0xe9, 0x31, 0xd5, 0xa9, 0x9f, 0x45, 0xac, 0xb1),
        Octets(0x79, 0x20, 0x17, 0xee, 0x37, 0x5c, 0x24, 0xba, 0xe9, 0x4b, 0xd4, 0xef, 0x8a, 0x2c, 0x3b, 0x88));
      var p3 := Product(
        Octets(0xdc, 0xc7, 0x40, 0x28, 0xe8, 0xab, 0x8e, 0x9c, 0x5d, 0x53, 0x7b, 0xdb, 0xe4, 0x2c, 0x10, 0x48),
        Octets(0xe6, 0x92, 0x01, 0x7e, 0xe3, 0x75, 0xc2, 0x4b, 0xae, 0x94, 0xbd, 0x4e, 0xf8, 0xa2, 0xc3, 0xb8));
      var p4 := Product(
        Octets(0xe5, 0x63, 0xc0, 0x77, 0x50, 0x76, 0xfe, 0x0e, 0xb6, 0xf6, 0x54, 0x88, 0x5a, 0x04, 0xa0, 0xa6),
        Octets(0xef, 0x69, 0x20, 0x17, 0xee, 0x37, 0x5c, 0x24, 0xba, 0xe9, 0x4b, 0xd4, 0xef, 0x8a, 0x2c, 0x3b));
      && FirstTurns(p0, 0xa3) == p1 && LastTurns(p1, 0xa3) == p2
      && FirstTurns(p2, 0x92) == p3 && LastTurns(p3, 0x92) == p4
  {
  }

  lemma Product1i()
    ensures
      var p0 := Product(
        Octets(0xe5, 0x63, 0xc0, 0x77, 0x50, 0x76, 0xfe, 0x0e, 0xb6, 0xf6, 0x54, 0x88, 0x5a, 0x04, 0xa0, 0xa6),
        Octets(0xef, 0x69, 0x20, 0x17, 0xee, 0x37, 0x5c, 0x24, 0xba, 0xe9, 0x4b, 0xd4, 0xef, 0x8a, 0x2c, 0x3b));
      var p1 := Product(
        Octets(0x63, 0xc9, 0x1c, 0x6c, 0x4f, 0x11, 0x30, 0xb5, 0xe8, 0x8c, 0xc1, 0x39, 0x64, 0x58, 0x54, 0x09),
        Octets(0xcb, 0x96, 0x92, 0x01, 0x7e, 0xe3, 0x75, 0xc2, 0x4b, 0xae, 0x94, 0xbd, 0x4e, 0xf8, 0xa2, 0xc3));
      var p2 := Product(
        Octets(0x91, 0x1e, 0x6a, 0xac, 0x3f, 0x75, 0x83, 0x7d, 0x33, 0x12, 0xb6, 0x81, 0x9e, 0x39, 0x68, 0xe1),
        Octets(0x28, 0xd9, 0x69, 0x20, 0x17, 0xee, 0x37, 0x5c, 0x24, 0xba, 0xe9, 0x4b, 0xd4, 0xef, 0x8a, 0x2c));
      var p3 := Product(
        Octets(0x9b, 0x28, 0x30, 0xe4, 0x3a, 0x8e, 0x0e, 0xaa, 0x3a, 0x3c, 0x0c, 0xd3, 0x6b, 0x02, 0x8a, 0x6a),
        Octets(0x93, 0x0d, 0x96, 0x92, 0x01, 0x7e, 0xe3, 0x75, 0xc2, 0x4b, 0xae, 0x94, 0xbd, 0x4e, 0xf8, 0xa2));
      var p4 := Product(
        Octets(0x08, 0x25, 0xa6, 0x76, 0x3b, 0xf0, 0xed, 0xdf, 0xf8, 0x77, 0xa2, 0x47, 0xd6, 0x4c, 0x72, 0xc8),
        Octets(0x31, 0x70, 0xd9, 0x69, 0x20, 0x17, 0xee, 0x37, 0x5c, 0x24, 0xba, 0xe9, 0x4b, 0xd4, 0xef, 0x8a));
      && FirstTurns(p0, 0xf3) == p1 && LastTurns(p1, 0xf3) == p2
      && FirstTurns(p2, 0x28) == p3 && LastTurns(p3, 0x28) == p4
  {
  }

  lemma Product1k()
    ensures
      var p0 := Product(
        Octets(0x08, 0x25, 0xa6, 0x76, 0x3b, 0xf0, 0xed, 0xdf, 0xf8, 0x77, 0xa2, 0x47, 0xd6, 0x4c, 0x72, 0xc8),
        Octets(0x31, 0x70, 0xd9, 0x69, 0x20, 0x17, 0xee, 0x37, 0x5c, 0x24, 0xba, 0xe9, 0x4b, 0xd4, 0xef, 0x8a));
      var p1 := Product(
        Octets(0x21, 0xed, 0x13, 0xab, 0x8b, 0xec, 0xf4, 0xf3, 0x0a, 0x41, 0x45, 0xda, 0x38, 0x72, 0xea, 0x87),
        Octets(0xda, 0x57, 0x0d, 0x96, 0x92, 0x01, 0x7e, 0xe3, 0x75, 0xc2, 0x4b, 0xae, 0x94, 0xbd, 0x4e, 0xf8));
      var p2 := Product(
        Octets(0x17, 0x78, 0xd0, 0xce, 0x2f, 0x6c, 0xab, 0x4b, 0xd7, 0x31, 0xd7, 0x31, 0x9d, 0x5d, 0xb9, 0x39),
        Octets(0xec, 0xa5, 0x70, 0xd9, 0x69, 0x20, 0x17, 0xee, 0x37, 0x5c, 0x24, 0xba, 0xe9, 0x4b, 0xd4, 0xef));
      var p3 := Product(
        Octets(0xe5, 0x20, 0x52, 0x3a, 0x31, 0x20, 0xbb, 0xa3, 0xab, 0x51, 0x7e, 0x32, 0x93, 0x6d, 0xe2, 0x70),
        Octets(0xbb, 0x2a, 0x57, 0x0d, 0x96, 0x92, 0x01, 0x7e, 0xe3, 0x75, 0xc2, 0x4b, 0xae, 0x94, 0xbd, 0x4e));
      var p4 := Product(
        Octets(0xd8, 0xef, 0x4f, 0xd6, 0x15, 0x60, 0xfa, 0xf2, 0x94, 0x4a, 0x04, 0x30, 0x48, 0x2b, 0xc8, 0x97),
        Octets(0xa2, 0x72, 0xa5, 0x70, 0xd9, 0x69, 0x20, 0x17, 0xee, 0x37, 0x5c, 0x24, 0xba, 0xe9, 0x4b, 0xd4));
      && FirstTurns(p0, 0xc2) == p1 && LastTurns(p1, 0xc2) == p2
      && FirstTurns(p2, 0xb9) == p3 && LastTurns(p3, 0xb9) == p4
  {
  }

  lemma Product1m()
    ensures
      var p0 := Product(
        Octets(0xd8, 0xef, 0x4f, 0xd6, 0x15, 0x60, 0xfa, 0xf2, 0x94, 0x4a, 0x04, 0x30, 0x48, 0x2b, 0xc8, 0x97),
        Octets(0xa2, 0x72, 0xa5, 0x70, 0xd9, 0x69, 0x20, 0x17, 0xee, 0x37, 0x5c, 0x24, 0xba, 0xe9, 0x4b, 0xd4));
      var p1 := Product(
        Octets(0x54, 0x04, 0xe0, 0x9c, 0x54, 0xa3, 0x06, 0xfe, 0x65, 0x1a, 0x96, 0xaf, 0xac, 0xb8, 0x16, 0xf2),
        Octets(0x7a, 0xa7, 0x2a, 0x57, 0x0d, 0x96, 0x92, 0x01, 0x7e, 0xe3, 0x75, 0xc2, 0x4b, 0xae, 0x94, 0xbd));
      var p2 := Product(
        Octets(0x82, 0x10, 0x05, 0xd6, 0xb5, 0x11, 0xd4, 0xbe, 0x4a, 0xc6, 0xf8, 0x17, 0xe5, 0xcd, 0xc4, 0x65),
        Octets(0x8a, 0x0a, 0x72, 0xa5, 0x70, 0xd9, 0x69, 0x20, 0x17, 0xee, 0x37, 0x5c, 0x24, 0xba, 0xe9, 0x4b));
      var p3 := Product(
        Octets(0xe2, 0x99, 0xa5, 0x8e, 0x37, 0xe5, 0xca, 0xf2, 0x5a, 0x2e, 0x84, 0x77, 0x4c, 0xce, 0xca, 0x55),
        Octets(0xcd, 0xc0, 0xa7, 0x2a, 0x57, 0x0d, 0x96, 0x92, 0x01, 0x7e, 0xe3, 0x75, 0xc2, 0x4b, 0xae, 0x94));
      var p4 := Product(
        Octets(0xd1, 0xe9, 0x8c, 0x44, 0xa2, 0x26, 0xaf, 0x56, 0xda, 0x71, 0x3c, 0xaa, 0x3c, 0x5c, 0x21, 0xf0),
        Octets(0x7c, 0x5c, 0x0a, 0x72, 0xa5, 0x70, 0xd9, 0x69, 0x20, 0x17, 0xee, 0x37, 0x5c, 0x24, 0xba, 0xe9));
      && FirstTurns(p0, 0x71) == p1 && LastTurns(p1, 0x71) == p2
      && FirstTurns(p2, 0xb2) == p3 && LastTurns(p3, 0xb2) == p4
  {
  }

  lemma Product1o()
    ensures
      var p0 := Product(
        Octets(0xd1, 0xe9, 0x8c, 0x44, 0xa2, 0x26, 0xaf, 0x56, 0xda, 0x71, 0x3c, 0xaa, 0x3c, 0x5c, 0x21, 0xf0),
        Octets(0x7c, 0x5c, 0x0a, 0x72, 0xa5, 0x70, 0xd9, 0x69, 0x20, 0x17, 0xee, 0x37, 0x5c, 0x24, 0xba, 0xe9));
      var p1 := Product(
        Octets(0x2a, 0xc7, 0x00, 0xdd, 0xa8, 0x1c, 0x37, 0xfc, 0x06, 0x6a, 0x23, 0xcd, 0xf2, 0xe7, 0x7f, 0x8a),
        Octets(0xfa, 0xe5, 0xc0, 0xa7, 0x2a, 0x57, 0x0d, 0x96, 0x92, 0x01, 0x7e, 0xe3, 0x75, 0xc2, 0x4b, 0xae));
      var p2 := Product(
        Octets(0x72, 0xe9, 0x50, 0x00, 0xdd, 0xf5, 0x7f, 0xc4, 0x79, 0xeb, 0xbd, 0xe7, 0xe0, 0xb4, 0x83, 0x18),
        Octets(0xa6, 0x6e, 0x5c, 0x0a, 0x72, 0xa5, 0x70, 0xd9, 0x69, 0x20, 0x17, 0xee, 0x37, 0x5c, 0x24, 0xba));
      var p3 := Product(
        Octets(0x8d, 0x08, 0x22, 0x86, 0x36, 0x5a, 0x35, 0x85, 0xba, 0x17, 0xb1, 0x16, 0xb0, 0x26, 0x1c, 0xfc),
        Octets(0xd3, 0x26, 0xe5, 0xc0, 0xa7, 0x2a, 0x57, 0x0d, 0x96, 0x92, 0x01, 0x7e, 0xe3, 0x75, 0xc2, 0x4b));
      var p4 := Product(
        Octets(0x5e, 0x2e, 0xc7, 0x46, 0x91, 0x70, 0x62, 0x88, 0x2c, 0x85, 0xb0, 0x68, 0x53, 0x53, 0xde, 0xb7),
        Octets(0xc8, 0x52, 0x6e, 0x5c, 0x0a, 0x72, 0xa5, 0x70, 0xd9, 0x69, 0x20, 0x17, 0xee, 0x37, 0x5c, 0x24));
      && FirstTurns(p0, 0xfe) == p1 && LastTurns(p1, 0xfe) == p2
      && FirstTurns(p2, 0x78) == p3 && LastTurns(p3, 0x78) == p4
  {
  }

  lemma Product1First(f: element, y: block)
    requires y == [0x03, 0x88, 0xda, 0xce, 0x60, 0xb6, 0xa3, 0x92, 0xf3, 0x28, 0xc2, 0xb9, 0x71, 0xb2, 0xfe, 0x78]
    requires Reached(Product(
      Octets(0x00, 0x00, 0x00, 0x00, 0x00, 0x00, 0x00, 0x00, 0x00, 0x00, 0x00, 0x00, 0x00, 0x00, 0x00, 0x00),
      Octets(0x66, 0xe9, 0x4b, 0xd4, 0xef, 0x8a, 0x2c, 0x3b, 0x88, 0x4c, 0xfa, 0x59, 0xca, 0x34, 0x2b, 0x2e)),
      f, Bits(y), 0)
    ensures Reached(Product(
      Octets(0xe5, 0x63, 0xc0, 0x77, 0x50, 0x76, 0xfe, 0x0e, 0xb6, 0xf6, 0x54, 0x88, 0x5a, 0x04, 0xa0, 0xa6),
      Octets(0xef, 0x69, 0x20, 0x17, 0xee, 0x37, 0x5c, 0x24, 0xba, 0xe9, 0x4b, 0xd4, 0xef, 0x8a, 0x2c, 0x3b)),
      f, Bits(y), 64)
  {
    hide FirstTurns, LastTurns, Reached, Bits;
    var p := Product(
      Octets(0x00, 0x00, 0x00, 0x00, 0x00, 0x00, 0x00, 0x00, 0x00, 0x00, 0x00, 0x00, 0x00, 0x00, 0x00, 0x00),
      Octets(0x66, 0xe9, 0x4b, 0xd4, 0xef, 0x8a, 0x2c, 0x3b, 0x88, 0x4c, 0xfa, 0x59, 0xca, 0x34, 0x2b, 0x2e));
    Product1a();
    TurnsReach(p, f, y, 0);
    p := Turns(p, y[0]);
    TurnsReach(p, f, y, 1);
    p := Turns(p, y[1]);
    Product1c();
    TurnsReach(p, f, y, 2);
    p := Turns(p, y[2]);
    TurnsReach(p, f, y, 3);
    p := Turns(p, y[3]);
    Product1e();
    TurnsReach(p, f, y, 4);
    p := Turns(p, y[4]);
    TurnsReach(p, f, y, 5);
    p := Turns(p, y[5]);
    Product1g();
    TurnsReach(p, f, y, 6);
    p := Turns(p, y[6]);
    TurnsReach(p, f, y, 7);
    p := Turns(p, y[7]);
  }

  lemma Product1Last(f: element, y: block)
    requires y == [0x03, 0x88, 0xda, 0xce, 0x60, 0xb6, 0xa3, 0x92, 0xf3, 0x28, 0xc2, 0xb9, 0x71, 0xb2, 0xfe, 0x78]
    requires Reached(Product(
      Octets(0xe5, 0x63, 0xc0, 0x77, 0x50, 0x76, 0xfe, 0x0e, 0xb6, 0xf6, 0x54, 0x88, 0x5a, 0x04, 0xa0, 0xa6),
      Octets(0xef, 0x69, 0x20, 0x17, 0xee, 0x37, 0x5c, 0x24, 0xba, 0xe9, 0x4b, 0xd4, 0xef, 0x8a, 0x2c, 0x3b)),
      f, Bits(y), 64)
    ensures Reached(Product(
      Octets(0x5e, 0x2e, 0xc7, 0x46, 0x91, 0x70, 0x62, 0x88, 0x2c, 0x85, 0xb0, 0x68, 0x53, 0x53, 0xde, 0xb7),
      Octets(0xc8, 0x52, 0x6e, 0x5c, 0x0a, 0x72, 0xa5, 0x70, 0xd9, 0x69, 0x20, 0x17, 0xee, 0x37, 0x5c, 0x24)),
      f, Bits(y), 128)
  {
    hide FirstTurns, LastTurns, Reached, Bits;
    var p := Product(
      Octets(0xe5, 0x63, 0xc0, 0x77, 0x50, 0x76, 0xfe, 0x0e, 0xb6, 0xf6, 0x54, 0x88, 0x5a, 0x04, 0xa0, 0xa6),
      Octets(0xef, 0x69, 0x20, 0x17, 0xee, 0x37, 0x5c, 0x24, 0xba, 0xe9, 0x4b, 0xd4, 0xef, 0x8a, 0x2c, 0x3b));
    Product1i();
    TurnsReach(p, f, y, 8);
    p := Turns(p, y[8]);
    TurnsReach(p, f, y, 9);
    p := Turns(p, y[9]);
    Product1k();
    TurnsReach(p, f, y, 10);
    p := Turns(p, y[10]);
    TurnsReach(p, f, y, 11);
    p := Turns(p, y[11]);
    Product1m();
    TurnsReach(p, f, y, 12);
    p := Turns(p, y[12]);
    TurnsReach(p, f, y, 13);
    p := Turns(p, y[13]);
    Product1o();
    TurnsReach(p, f, y, 14);
    p := Turns(p, y[14]);
    TurnsReach(p, f, y, 15);
    p := Turns(p, y[15]);
  }

  lemma Product1(h: block, y: block)
    requires h == [0x66, 0xe9, 0x4b, 0xd4, 0xef, 0x8a, 0x2c, 0x3b, 0x88, 0x4c, 0xfa, 0x59, 0xca, 0x34, 0x2b, 0x2e]
    requires y == [0x03, 0x88, 0xda, 0xce, 0x60, 0xb6, 0xa3, 0x92, 0xf3, 0x28, 0xc2, 0xb9, 0x71, 0xb2, 0xfe, 0x78]
    ensures Mul(Bits(h), Bits(y)) == Bits(
      [0x5e, 0x2e, 0xc7, 0x46, 0x91, 0x70, 0x62, 0x88, 0x2c, 0x85, 0xb0, 0x68, 0x53, 0x53, 0xde, 0xb7])
  {
    hide Reached, Bits, PartialMul;
    assert BlockOfOctets(
      Octets(0x66, 0xe9, 0x4b, 0xd4, 0xef, 0x8a, 0x2c, 0x3b, 0x88, 0x4c, 0xfa, 0x59, 0xca, 0x34, 0x2b, 0x2e)) == h;
    assert BlockOfOctets(
      Octets(0x5e, 0x2e, 0xc7, 0x46, 0x91, 0x70, 0x62, 0x88, 0x2c, 0x85, 0xb0, 0x68, 0x53, 0x53, 0xde, 0xb7)) ==
      [0x5e, 0x2e, 0xc7, 0x46, 0x91, 0x70, 0x62, 0x88, 0x2c, 0x85, 0xb0, 0x68, 0x53, 0x53, 0xde, 0xb7];
    NothingReached(
      Octets(0x66, 0xe9, 0x4b, 0xd4, 0xef, 0x8a, 0x2c, 0x3b, 0x88, 0x4c, 0xfa, 0x59, 0xca, 0x34, 0x2b, 0x2e), Bits(y));
    Product1First(Bits(h), y);
    Product1Last(Bits(h), y);
    AllReached(Product(
      Octets(0x5e, 0x2e, 0xc7, 0x46, 0x91, 0x70, 0x62, 0x88, 0x2c, 0x85, 0xb0, 0x68, 0x53, 0x53, 0xde, 0xb7),
      Octets(0xc8, 0x52, 0x6e, 0x5c, 0x0a, 0x72, 0xa5, 0x70, 0xd9, 0x69, 0x20, 0x17, 0xee, 0x37, 0x5c, 0x24)),
      Bits(h), Bits(y));
  }

  lemma Product2a()
    ensures
      var p0 := Product(
        Octets(0x00, 0x00, 0x00, 0x00, 0x00, 0x00, 0x00, 0x00, 0x00, 0x00, 0x00, 0x00, 0x00, 0x00, 0x00, 0x00),
        Octets(0x66, 0xe9, 0x4b, 0xd4, 0xef, 0x8a, 0x2c, 0x3b, 0x88, 0x4c, 0xfa, 0x59, 0xca, 0x34, 0x2b, 0x2e));
      var p1 := Product(
        Octets(0xae, 0x29, 0x8c, 0x90, 0xea, 0x34, 0x53, 0x9a, 0xb5, 0x2f, 0xe2, 0x67, 0xdc, 0x5c, 0x90, 0xf2),
        Octets(0xaf, 0xae, 0x94, 0xbd, 0x4e, 0xf8, 0xa2, 0xc3, 0xb8, 0x84, 0xcf, 0xa5, 0x9c, 0xa3, 0x42, 0xb2));
      var p2 := Product(
        Octets(0x9c, 0xbb, 0xf7, 0x5c, 0x50, 0x0e, 0x88, 0x88, 0x3f, 0xc8, 0x79, 0xf9, 0xe9, 0x86, 0xa3, 0xb5),
        Octets(0x32, 0xba, 0xe9, 0x4b, 0xd4, 0xef, 0x8a, 0x2c, 0x3b, 0x88, 0x4c, 0xfa, 0x59, 0xca, 0x34, 0x2b));
      var p3 := Product(
        Octets(0x01, 0x95, 0x4d, 0x0e, 0xa5, 0x35, 0x6a, 0x03, 0x31, 0x2a, 0x6a, 0xc7, 0x7f, 0xf4, 0x2e, 0xbf),
        Octets(0xc6, 0x4b, 0xae, 0x94, 0xbd, 0x4e, 0xf8, 0xa2, 0xc3, 0xb8, 0x84, 0xcf, 0xa5, 0x9c, 0xa3, 0x42));
      var p4 := Product(
        Octets(0x74, 0x69, 0xdf, 0x75, 0x69, 0x8f, 0x50, 0xd8, 0x23, 0xa0, 0x8d, 0x5c, 0xe1, 0xc1, 0xf4, 0x8c),
        Octets(0x34, 0x24, 0xba, 0xe9, 0x4b, 0xd4, 0xef, 0x8a, 0x2c, 0x3b, 0x88, 0x4c, 0xfa, 0x59, 0xca, 0x34));
      && FirstTurns(p0, 0x5e) == p1 && LastTurns(p1, 0x5e) == p2
      && FirstTurns(p2, 0x2e) == p3 && LastTurns(p3, 0x2e) == p4
  {
  }

  lemma Product2c()
    ensures
      var p0 := Product(
        Octets(0x74, 0x69, 0xdf, 0x75, 0x69, 0x8f, 0x50, 0xd8, 0x23, 0xa0, 0x8d, 0x5c, 0xe1, 0xc1, 0xf4, 0x8c),
        Octets(0x34, 0x24, 0xba, 0xe9, 0x4b, 0xd4, 0xef, 0x8a, 0x2c, 0x3b, 0x88, 0x4c, 0xfa, 0x59, 0xca, 0x34));
      var p1 := Product(
        Octets(0x5a, 0x5f, 0x38, 0xe8, 0x87, 0xb1, 0xc8, 0x97, 0x19, 0x86, 0xc1, 0x36, 0x66, 0xb4, 0xdb, 0xa2),
        Octets(0x73, 0xc2, 0x4b, 0xae, 0x94, 0xbd, 0x4e, 0xf8, 0xa2, 0xc3, 0xb8, 0x84, 0xcf, 0xa5, 0x9c, 0xa3));
      var p2 := Product(
        Octets(0x49, 0x76, 0xc6, 0xa1, 0xba, 0x57, 0x95, 0x8a, 0x74, 0x0f, 0x84, 0x45, 0xab, 0x7b, 0xc1, 0x4f),
        Octets(0x23, 0x5c, 0x24, 0xba, 0xe9, 0x4b, 0xd4, 0xef, 0x8a, 0x2c, 0x3b, 0x88, 0x4c, 0xfa, 0x59, 0xca));
      var p3 := Product(
        Octets(0x58, 0xd8, 0xd4, 0xfc, 0xce, 0xf2, 0x7f, 0xfd, 0xb1, 0x19, 0x99, 0x81, 0x8d, 0x06, 0xed, 0xaa),
        Octets(0xdb, 0x75, 0xc2, 0x4b, 0xae, 0x94, 0xbd, 0x4e, 0xf8, 0xa2, 0xc3, 0xb8, 0x84, 0xcf, 0xa5, 0x9c));
      var p4 := Product(
        Octets(0x03, 0xbf, 0x45, 0x4b, 0xf2, 0x1d, 0x0e, 0x09, 0x73, 0x60, 0x48, 0xb3, 0xee, 0x52, 0xd6, 0x03),
        Octets(0x9c, 0x37, 0x5c, 0x24, 0xba, 0xe9, 0x4b, 0xd4, 0xef, 0x8a, 0x2c, 0x3b, 0x88, 0x4c, 0xfa, 0x59));
      && FirstTurns(p0, 0xc7) == p1 && LastTurns(p1, 0xc7) == p2
      && FirstTurns(p2, 0x46) == p3 && LastTurns(p3, 0x46) == p4
  {
  }

  lemma Product2e()
    ensures
      var p0 := Product(
        Octets(0x03, 0xbf, 0x45, 0x4b, 0xf2, 0x1d, 0x0e, 0x09, 0x73, 0x60, 0x48, 0xb3, 0xee, 0x52, 0xd6, 0x03),
        Octets(0x9c, 0x37, 0x5c, 0x24, 0xba, 0xe9, 0x4b, 0xd4, 0xef, 0x8a, 0x2c, 0x3b, 0x88, 0x4c, 0xfa, 0x59));
      var p1 := Product(
        Octets(0xb4, 0x4e, 0xf2, 0xeb, 0xdf, 0xa9, 0x6c, 0xa7, 0x01, 0x1b, 0x21, 0x0f, 0x17, 0x17, 0xb3, 0x11),
        Octets(0xf4, 0xe3, 0x75, 0xc2, 0x4b, 0xae, 0x94, 0xbd, 0x4e, 0xf8, 0xa2, 0xc3, 0xb8, 0x84, 0xcf, 0xa5));
      var p2 := Product(
        Octets(0x73, 0x92, 0x9c, 0x53, 0x96, 0xdc, 0xbe, 0x30, 0xa8, 0xc4, 0x35, 0x57, 0x60, 0x07, 0x2a, 0xe5),
        Octets(0x63, 0xee, 0x37, 0x5c, 0x24, 0xba, 0xe9, 0x4b, 0xd4, 0xef, 0x8a, 0x2c, 0x3b, 0x88, 0x4c, 0xfa));
      var p3 := Product(
        Octets(0xc7, 0x63, 0xcc, 0xc1, 0x09, 0x38, 0x2d, 0xee, 0xcd, 0x15, 0xe3, 0x8f, 0xf4, 0x50, 0x16, 0x39),
        Octets(0xdf, 0x7e, 0xe3, 0x75, 0xc2, 0x4b, 0xae, 0x94, 0xbd, 0x4e, 0xf8, 0xa2, 0xc3, 0xb8, 0x84, 0xcf));
      var p4 := Product(
        Octets(0xc7, 0x63, 0xcc, 0xc1, 0x09, 0x38, 0x2d, 0xee, 0xcd, 0x15, 0xe3, 0x8f, 0xf4, 0x50, 0x16, 0x39),
        Octets(0xb8, 0x17, 0xee, 0x37, 0x5c, 0x24, 0xba, 0xe9, 0x4b, 0xd4, 0xef, 0x8a, 0x2c, 0x3b, 0x88, 0x4c));
      && FirstTurns(p0, 0x91) == p1 && LastTurns(p1, 0x91) == p2
      && FirstTurns(p2, 0x70) == p3 && LastTurns(p3, 0x70) == p4
  {
  }

  lemma Product2g()
    ensures
      var p0 := Product(
        Octets(0xc7, 0x63, 0xcc, 0xc1, 0x09, 0x38, 0x2d, 0xee, 0xcd, 0x15, 0xe3, 0x8f, 0xf4, 0x50, 0x16, 0x39),
        Octets(0xb8, 0x17, 0xee, 0x37, 0x5c, 0x24, 0xba, 0xe9, 0x4b, 0xd4, 0xef, 0x8a, 0x2c, 0x3b, 0x88, 0x4c));
      var p1 := Product(
        Octets(0xb5, 0x6d, 0xc0, 0x57, 0x70, 0x23, 0x5e, 0x20, 0x3a, 0x0a, 0xaf, 0xa8, 0x69, 0x43, 0x30, 0x0c),
        Octets(0x9a, 0x01, 0x7e, 0xe3, 0x75, 0xc2, 0x4b, 0xae, 0x94, 0xbd, 0x4e, 0xf8, 0xa2, 0xc3, 0xb8, 0x84));
      var p2 := Product(
        Octets(0x93, 0xed, 0x9f, 0xef, 0xad, 0x53, 0xcc, 0xcb, 0x9f, 0x25, 0xfc, 0x16, 0x41, 0xf3, 0xde, 0x2d),
        Octets(0x79, 0x20, 0x17, 0xee, 0x37, 0x5c, 0x24, 0xba, 0xe9, 0x4b, 0xd4, 0xef, 0x8a, 0x2c, 0x3b, 0x88));
      var p3 := Product(
        Octets(0xea, 0xcd, 0x88, 0x01, 0x9a, 0x0f, 0xe8, 0x71, 0x76, 0x6e, 0x28, 0xf9, 0xcb, 0xdf, 0xe5, 0xa5),
        Octets(0xe6, 0x92, 0x01, 0x7e, 0xe3, 0x75, 0xc2, 0x4b, 0xae, 0x94, 0xbd, 0x4e, 0xf8, 0xa2, 0xc3, 0xb8));
      var p4 := Product(
        Octets(0x0c, 0x5f, 0x89, 0x7f, 0x79, 0x7a, 0x2a, 0x3a, 0xd8, 0xfa, 0x95, 0xb7, 0x33, 0x7d, 0x26, 0x1d),
        Octets(0xef, 0x69, 0x20, 0x17, 0xee, 0x37, 0x5c, 0x24, 0xba, 0xe9, 0x4b, 0xd4, 0xef, 0x8a, 0x2c, 0x3b));
      && FirstTurns(p0, 0x62) == p1 && LastTurns(p1, 0x62) == p2
      && FirstTurns(p2, 0x88) == p3 && LastTurns(p3, 0x88) == p4
  {
  }

  lemma Product2i()
    ensures
      var p0 := Product(
        Octets(0x0c, 0x5f, 0x89, 0x7f, 0x79, 0x7a, 0x2a, 0x3a, 0xd8, 0xfa, 0x95, 0xb7, 0x33, 0x7d, 0x26, 0x1d),
        Octets(0xef, 0x69, 0x20, 0x17, 0xee, 0x37, 0x5c, 0x24, 0xba, 0xe9, 0x4b, 0xd4, 0xef, 0x8a, 0x2c, 0x3b));
      var p1 := Product(
        Octets(0xa6, 0x05, 0xc1, 0x7a, 0x82, 0xf7, 0xfd, 0x33, 0xf6, 0x40, 0xc7, 0x42, 0x08, 0x9f, 0xad, 0x13),
        Octets(0xcb, 0x96, 0x92, 0x01, 0x7e, 0xe3, 0x75, 0xc2, 0x4b, 0xae, 0x94, 0xbd, 0x4e, 0xf8, 0xa2, 0xc3));
      var p2 := Product(
        Octets(0xe9, 0x58, 0x1a, 0x7b, 0x43, 0x65, 0x32, 0x10, 0x98, 0x39, 0x19, 0xa1, 0xe1, 0x1b, 0x5e, 0xb1),
        Octets(0x28, 0xd9, 0x69, 0x20, 0x17, 0xee, 0x37, 0x5c, 0x24, 0xba, 0xe9, 0x4b, 0xd4, 0xef, 0x8a, 0x2c));
      var p3 := Product(
        Octets(0xc1, 0x81, 0x73, 0x5b, 0x54, 0x8b, 0x05, 0x4c, 0xbc, 0x83, 0xf0, 0xea, 0x35, 0xf4, 0xd4, 0x9d),
        Octets(0x93, 0x0d, 0x96, 0x92, 0x01, 0x7e, 0xe3, 0x75, 0xc2, 0x4b, 0xae, 0x94, 0xbd, 0x4e, 0xf8, 0xa2));
      var p4 := Product(
        Octets(0xea, 0xe6, 0x0a, 0xc0, 0x14, 0x1b, 0xa8, 0x98, 0xe5, 0xef, 0x52, 0x72, 0xfc, 0xfa, 0x77, 0xd8),
        Octets(0x31, 0x70, 0xd9, 0x69, 0x20, 0x17, 0xee, 0x37, 0x5c, 0x24, 0xba, 0xe9, 0x4b, 0xd4, 0xef, 0x8a));
      && FirstTurns(p0, 0x2c) == p1 && LastTurns(p1, 0x2c) == p2
      && FirstTurns(p2, 0x85) == p3 && LastTurns(p3, 0x85) == p4
  {
  }

  lemma Product2k()
    ensures
      var p0 := Product(
        Octets(0xea, 0xe6, 0x0a, 0xc0, 0x14, 0x1b, 0xa8, 0x98, 0xe5, 0xef, 0x52, 0x72, 0xfc, 0xfa, 0x77, 0xd8),
        Octets(0x31, 0x70, 0xd9, 0x69, 0x20, 0x17, 0xee, 0x37, 0x5c, 0x24, 0xba, 0xe9, 0x4b, 0xd4, 0xef, 0x8a));
      var p1 := Product(
        Octets(0x40, 0x64, 0xfe, 0xde, 0x58, 0x0b, 0x40, 0xe4, 0x85, 0x46, 0x51, 0x7c, 0xcc, 0xa1, 0x3e, 0x41),
        Octets(0xda, 0x57, 0x0d, 0x96, 0x92, 0x01, 0x7e, 0xe3, 0x75, 0xc2, 0x4b, 0xae, 0x94, 0xbd, 0x4e, 0xf8));
      var p2 := Product(
        Octets(0x40, 0x64, 0xfe, 0xde, 0x58, 0x0b, 0x40, 0xe4, 0x85, 0x46, 0x51, 0x7c, 0xcc, 0xa1, 0x3e, 0x41),
        Octets(0xec, 0xa5, 0x70, 0xd9, 0x69, 0x20, 0x17, 0xee, 0x37, 0x5c, 0x24, 0xba, 0xe9, 0x4b, 0xd4, 0xef));
      var p3 := Product(
        Octets(0x7d, 0x9f, 0x1a, 0x84, 0xb6, 0xd3, 0x4e, 0xe8, 0x13, 0x3f, 0x4a, 0x0f, 0x02, 0x56, 0x21, 0x0d),
        Octets(0xbb, 0x2a, 0x57, 0x0d, 0x96, 0x92, 0x01, 0x7e, 0xe3, 0x75, 0xc2, 0x4b, 0xae, 0x94, 0xbd, 0x4e));
      var p4 := Product(
        Octets(0xc6, 0xb5, 0x4d, 0x89, 0x20, 0x41, 0x4f, 0x96, 0xf0, 0x4a, 0x88, 0x44, 0xac, 0xc2, 0x9c, 0x43),
        Octets(0xa2, 0x72, 0xa5, 0x70, 0xd9, 0x69, 0x20, 0x17, 0xee, 0x37, 0x5c, 0x24, 0xba, 0xe9, 0x4b, 0xd4));
      && FirstTurns(p0, 0xb0) == p1 && LastTurns(p1, 0xb0) == p2
      && FirstTurns(p2, 0x68) == p3 && LastTurns(p3, 0x68) == p4
  {
  }

  lemma Product2m()
    ensures
      var p0 := Product(
        Octets(0xc6, 0xb5, 0x4d, 0x89, 0x20, 0x41, 0x4f, 0x96, 0xf0, 0x4a, 0x88, 0x44, 0xac, 0xc2, 0x9c, 0x43),
        Octets(0xa2, 0x72, 0xa5, 0x70, 0xd9, 0x69, 0x20, 0x17, 0xee, 0x37, 0x5c, 0x24, 0xba, 0xe9, 0x4b, 0xd4));
      var p1 := Product(
        Octets(0x62, 0xc2, 0x4b, 0x9f, 0x57, 0xd8, 0xfb, 0x9f, 0xfa, 0x97, 0xcd, 0xd2, 0x66, 0xeb, 0x10, 0xd3),
        Octets(0x7a, 0xa7, 0x2a, 0x57, 0x0d, 0x96, 0x92, 0x01, 0x7e, 0xe3, 0x75, 0xc2, 0x4b, 0xae, 0x94, 0xbd));
      var p2 := Product(
        Octets(0xda, 0xff, 0x64, 0x40, 0x75, 0x0f, 0x8d, 0x5f, 0x8a, 0xf3, 0x7e, 0x1a, 0xbd, 0x75, 0x67, 0x6b),
        Octets(0x8a, 0x0a, 0x72, 0xa5, 0x70, 0xd9, 0x69, 0x20, 0x17, 0xee, 0x37, 0x5c, 0x24, 0xba, 0xe9, 0x4b));
      var p3 := Product(
        Octets(0x27, 0x7b, 0x13, 0x46, 0x63, 0x78, 0x14, 0xeb, 0x83, 0xf9, 0xa3, 0x5f, 0x2b, 0xbf, 0x4e, 0xe7),
        Octets(0xcd, 0xc0, 0xa7, 0x2a, 0x57, 0x0d, 0x96, 0x92, 0x01, 0x7e, 0xe3, 0x75, 0xc2, 0x4b, 0xae, 0x94));
      var p4 := Product(
        Octets(0xec, 0xb3, 0x2e, 0x69, 0xbc, 0x5a, 0xc3, 0x9d, 0x43, 0x89, 0xc7, 0xec, 0xe3, 0x64, 0xd0, 0x90),
        Octets(0x7c, 0x5c, 0x0a, 0x72, 0xa5, 0x70, 0xd9, 0x69, 0x20, 0x17, 0xee, 0x37, 0x5c, 0x24, 0xba, 0xe9));
      && FirstTurns(p0, 0x53) == p1 && LastTurns(p1, 0x53) == p2
      && FirstTurns(p2, 0x53) == p3 && LastTurns(p3, 0x53) == p4
  {
  }

  lemma Product2o()
    ensures
      var p0 := Product(
        Octets(0xec, 0xb3, 0x2e, 0x69, 0xbc, 0x5a, 0xc3, 0x9d, 0x43, 0x89, 0xc7, 0xec, 0xe3, 0x64, 0xd0, 0x90),
        Octets(0x7c, 0x5c, 0x0a, 0x72, 0xa5, 0x70, 0xd9, 0x69, 0x20, 0x17, 0xee, 0x37, 0x5c, 0x24, 0xba, 0xe9));
      var p1 := Product(
        Octets(0x78, 0x0a, 0xa0, 0x6c, 0x1f, 0x3c, 0x6d, 0x6d, 0xd7, 0x97, 0x23, 0x06, 0xfa, 0xd6, 0xa0, 0x50),
        Octets(0xfa, 0xe5, 0xc0, 0xa7, 0x2a, 0x57, 0x0d, 0x96, 0x92, 0x01, 0x7e, 0xe3, 0x75, 0xc2, 0x4b, 0xae));
      var p2 := Product(
        Octets(0x20, 0x24, 0xf0, 0xb1, 0x6a, 0xd5, 0x25, 0x55, 0xa8, 0x16, 0xbd, 0x2c, 0xe8, 0x85, 0x5c, 0xc2),
        Octets(0xa6, 0x6e, 0x5c, 0x0a, 0x72, 0xa5, 0x70, 0xd9, 0x69, 0x20, 0x17, 0xee, 0x37, 0x5c, 0x24, 0xba));
      var p3 := Product(
        Octets(0x8c, 0xf2, 0xac, 0x32, 0xb8, 0x28, 0xd7, 0x78, 0xdf, 0x7a, 0xba, 0x2a, 0xa3, 0xb9, 0xd1, 0x7b),
        Octets(0xd3, 0x26, 0xe5, 0xc0, 0xa7, 0x2a, 0x57, 0x0d, 0x96, 0x92, 0x01, 0x7e, 0xe3, 0x75, 0xc2, 0x4b));
      var p4 := Product(
        Octets(0xf3, 0x8c, 0xbb, 0x1a, 0xd6, 0x92, 0x23, 0xdc, 0xc3, 0x45, 0x7a, 0xe5, 0xb6, 0xb0, 0xf8, 0x85),
        Octets(0xc8, 0x52, 0x6e, 0x5c, 0x0a, 0x72, 0xa5, 0x70, 0xd9, 0x69, 0x20, 0x17, 0xee, 0x37, 0x5c, 0x24));
      && FirstTurns(p0, 0xde) == p1 && LastTurns(p1, 0xde) == p2
      && FirstTurns(p2, 0x37) == p3 && LastTurns(p3, 0x37) == p4
  {
  }

  lemma Product2First(f: element, y: block)
    requires y == [0x5e, 0x2e, 0xc7, 0x46, 0x91, 0x70, 0x62, 0x88, 0x2c, 0x85, 0xb0, 0x68, 0x53, 0x53, 0xde, 0x37]
    requires Reached(Product(
      Octets(0x00, 0x00, 0x00, 0x00, 0x00, 0x00, 0x00, 0x00, 0x00, 0x00, 0x00, 0x00, 0x00, 0x00, 0x00, 0x00),
      Octets(0x66, 0xe9, 0x4b, 0xd4, 0xef, 0x8a, 0x2c, 0x3b, 0x88, 0x4c, 0xfa, 0x59, 0xca, 0x34, 0x2b, 0x2e)),
      f, Bits(y), 0)
    ensures Reached(Product(
      Octets(0x0c, 0x5f, 0x89, 0x7f, 0x79, 0x7a, 0x2a, 0x3a, 0xd8, 0xfa, 0x95, 0xb7, 0x33, 0x7d, 0x26, 0x1d),
      Octets(0xef, 0x69, 0x20, 0x17, 0xee, 0x37, 0x5c, 0x24, 0xba, 0xe9, 0x4b, 0xd4, 0xef, 0x8a, 0x2c, 0x3b)),
      f, Bits(y), 64)
  {
    hide FirstTurns, LastTurns, Reached, Bits;
    var p := Product(
      Octets(0x00, 0x00, 0x00, 0x00, 0x00, 0x00, 0x00, 0x00, 0x00, 0x00, 0x00, 0x00, 0x00, 0x00, 0x00, 0x00),
      Octets(0x66, 0xe9, 0x4b, 0xd4, 0xef, 0x8a, 0x2c, 0x3b, 0x88, 0x4c, 0xfa, 0x59, 0xca, 0x34, 0x2b, 0x2e));
    Product2a();
    TurnsReach(p, f, y, 0);
    p := Turns(p, y[0]);
    TurnsReach(p, f, y, 1);
    p := Turns(p, y[1]);
    Product2c();
    TurnsReach(p, f, y, 2);
    p := Turns(p, y[2]);
    TurnsReach(p, f, y, 3);
    p := Turns(p, y[3]);
    Product2e();
    TurnsReach(p, f, y, 4);
    p := Turns(p, y[4]);
    TurnsReach(p, f, y, 5);
    p := Turns(p, y[5]);
    Product2g();
    TurnsReach(p, f, y, 6);
    p := Turns(p, y[6]);
    TurnsReach(p, f, y, 7);
    p := Turns(p, y[7]);
  }

  lemma Product2Last(f: element, y: block)
    requires y == [0x5e, 0x2e, 0xc7, 0x46, 0x91, 0x70, 0x62, 0x88, 0x2c, 0x85, 0xb0, 0x68, 0x53, 0x53, 0xde, 0x37]
    requires Reached(Product(
      Octets(0x0c, 0x5f, 0x89, 0x7f, 0x79, 0x7a, 0x2a, 0x3a, 0xd8, 0xfa, 0x95, 0xb7, 0x33, 0x7d, 0x26, 0x1d),
      Octets(0xef, 0x69, 0x20, 0x17, 0xee, 0x37, 0x5c, 0x24, 0xba, 0xe9, 0x4b, 0xd4, 0xef, 0x8a, 0x2c, 0x3b)),
      f, Bits(y), 64)
    ensures Reached(Product(
      Octets(0xf3, 0x8c, 0xbb, 0x1a, 0xd6, 0x92, 0x23, 0xdc, 0xc3, 0x45, 0x7a, 0xe5, 0xb6, 0xb0, 0xf8, 0x85),
      Octets(0xc8, 0x52, 0x6e, 0x5c, 0x0a, 0x72, 0xa5, 0x70, 0xd9, 0x69, 0x20, 0x17, 0xee, 0x37, 0x5c, 0x24)),
      f, Bits(y), 128)
  {
    hide FirstTurns, LastTurns, Reached, Bits;
    var p := Product(
      Octets(0x0c, 0x5f, 0x89, 0x7f, 0x79, 0x7a, 0x2a, 0x3a, 0xd8, 0xfa, 0x95, 0xb7, 0x33, 0x7d, 0x26, 0x1d),
      Octets(0xef, 0x69, 0x20, 0x17, 0xee, 0x37, 0x5c, 0x24, 0xba, 0xe9, 0x4b, 0xd4, 0xef, 0x8a, 0x2c, 0x3b));
    Product2i();
    TurnsReach(p, f, y, 8);
    p := Turns(p, y[8]);
    TurnsReach(p, f, y, 9);
    p := Turns(p, y[9]);
    Product2k();
    TurnsReach(p, f, y, 10);
    p := Turns(p, y[10]);
    TurnsReach(p, f, y, 11);
    p := Turns(p, y[11]);
    Product2m();
    TurnsReach(p, f, y, 12);
    p := Turns(p, y[12]);
    TurnsReach(p, f, y, 13);
    p := Turns(p, y[13]);
    Product2o();
    TurnsReach(p, f, y, 14);
    p := Turns(p, y[14]);
    TurnsReach(p, f, y, 15);
    p := Turns(p, y[15]);
  }

  lemma Product2(h: block, y: block)
    requires h == [0x66, 0xe9, 0x4b, 0xd4, 0xef, 0x8a, 0x2c, 0x3b, 0x88, 0x4c, 0xfa, 0x59, 0xca, 0x34, 0x2b, 0x2e]
    requires y == [0x5e, 0x2e, 0xc7, 0x46, 0x91, 0x70, 0x62, 0x88, 0x2c, 0x85, 0xb0, 0x68, 0x53, 0x53, 0xde, 0x37]
    ensures Mul(Bits(h), Bits(y)) == Bits(
      [0xf3, 0x8c, 0xbb, 0x1a, 0xd6, 0x92, 0x23, 0xdc, 0xc3, 0x45, 0x7a, 0xe5, 0xb6, 0xb0, 0xf8, 0x85])
  {
    hide Reached, Bits, PartialMul;
    assert BlockOfOctets(
      Octets(0x66, 0xe9, 0x4b, 0xd4, 0xef, 0x8a, 0x2c, 0x3b, 0x88, 0x4c, 0xfa, 0x59, 0xca, 0x34, 0x2b, 0x2e)) == h;
    assert BlockOfOctets(
      Octets(0xf3, 0x8c, 0xbb, 0x1a, 0xd6, 0x92, 0x23, 0xdc, 0xc3, 0x45, 0x7a, 0xe5, 0xb6, 0xb0, 0xf8, 0x85)) ==
      [0xf3, 0x8c, 0xbb, 0x1a, 0xd6, 0x92, 0x23, 0xdc, 0xc3, 0x45, 0x7a, 0xe5, 0xb6, 0xb0, 0xf8, 0x85];
    NothingReached(
      Octets(0x66, 0xe9, 0x4b, 0xd4, 0xef, 0x8a, 0x2c, 0x3b, 0x88, 0x4c, 0xfa, 0x59, 0xca, 0x34, 0x2b, 0x2e), Bits(y));
    Product2First(Bits(h), y);
    Product2Last(Bits(h), y);
    AllReached(Product(
      Octets(0xf3, 0x8c, 0xbb, 0x1a, 0xd6, 0x92, 0x23, 0xdc, 0xc3, 0x45, 0x7a, 0xe5, 0xb6, 0xb0, 0xf8, 0x85),
      Octets(0xc8, 0x52, 0x6e, 0x5c, 0x0a, 0x72, 0xa5, 0x70, 0xd9, 0x69, 0x20, 0x17, 0xee, 0x37, 0x5c, 0x24)),
      Bits(h), Bits(y));
  }

  lemma NothingReached(h: Octets, g: element)
    ensures Reached(Product(
      Octets(0x00, 0x00, 0x00, 0x00, 0x00, 0x00, 0x00, 0x00, 0x00, 0x00, 0x00, 0x00, 0x00, 0x00, 0x00, 0x00), h),
      Bits(BlockOfOctets(h)), g, 0)
  {
    hide Bits;
    ShiftedZero(Bits(BlockOfOctets(h)));
    BitsOfZeros();
    var z := Octets(0x00, 0x00, 0x00, 0x00, 0x00, 0x00, 0x00, 0x00, 0x00, 0x00, 0x00, 0x00, 0x00, 0x00, 0x00, 0x00);
    assert BlockOfOctets(z) == Zeros(16);
  }

  lemma AllReached(p: Product, f: element, g: element)
    requires Reached(p, f, g, 128)
    ensures Mul(f, g) == Bits(BlockOfOctets(p.z))
  {
  }

  // The test case.

  const KEY: seq<byte> := Zeros(16)

  const HASH_KEY: block :=
    [0x66, 0xe9, 0x4b, 0xd4, 0xef, 0x8a, 0x2c, 0x3b, 0x88, 0x4c, 0xfa, 0x59, 0xca, 0x34, 0x2b, 0x2e]

  const MASK: block :=
    [0x58, 0xe2, 0xfc, 0xce, 0xfa, 0x7e, 0x30, 0x61, 0x36, 0x7f, 0x1d, 0x57, 0xa4, 0xe7, 0x45, 0x5a]

  const CIPHERTEXT: block :=
    [0x03, 0x88, 0xda, 0xce, 0x60, 0xb6, 0xa3, 0x92, 0xf3, 0x28, 0xc2, 0xb9, 0x71, 0xb2, 0xfe, 0x78]

  const TAG: block :=
    [0xab, 0x6e, 0x47, 0xd4, 0x2c, 0xec, 0x13, 0xbd, 0xf5, 0x3a, 0x67, 0xb2, 0x12, 0x57, 0xbd, 0xdf]

  /** The first counter, and the one behind it. */
  function Number(b: byte): block { Zeros(15) + [b] }

  /** The block cipher under a key of zeros. */
  lemma Blocks()
    ensures Cipher(KEY, Number(0)) == HASH_KEY && Cipher(KEY, Number(1)) == MASK && Cipher(KEY, Number(2)) == CIPHERTEXT
  {
    hide Cipher, C.EncryptOctets, K.RoundKeys;
    AesExample.Block1();
    AesExample.Block2();
    AesExample.Block3();
    CipherIs(Number(0));
    CipherIs(Number(1));
    CipherIs(Number(2));
    Numbers();
  }

  lemma Numbers()
    ensures Number(0) ==
      [0x00, 0x00, 0x00, 0x00, 0x00, 0x00, 0x00, 0x00, 0x00, 0x00, 0x00, 0x00, 0x00, 0x00, 0x00, 0x00]
    ensures Number(1) ==
      [0x00, 0x00, 0x00, 0x00, 0x00, 0x00, 0x00, 0x00, 0x00, 0x00, 0x00, 0x00, 0x00, 0x00, 0x00, 0x01]
    ensures Number(2) ==
      [0x00, 0x00, 0x00, 0x00, 0x00, 0x00, 0x00, 0x00, 0x00, 0x00, 0x00, 0x00, 0x00, 0x00, 0x00, 0x02]
  {
  }

  lemma CipherIs(x: block)
    ensures Cipher(KEY, x) == C.EncryptOctets(K.RoundKeys(Zeros(16), 4), x)
  {
    hide K.RoundKeys, C.EncryptOctets;
    A.SingleBlock(K.RoundKeys(Zeros(16), 4), x);
  }

  lemma FirstCounters()
    ensures FirstCounter(KEY, Zeros(12), 0, 12) == Number(1) && CounterAt(Number(1), 1) == Number(2)
  {
    hide Cipher;
    assert Zeros(12)[0..12] == Zeros(12);
    var y0 := Number(1);
    assert CounterAt(y0, 0) == y0 && y0[15] == 1;
    assert Incremented(y0, 16) == y0[15 := 2];
  }

  lemma StreamOfZeros()
    ensures Stream(KEY, Number(1), Zeros(16)) == CIPHERTEXT
  {
    hide Cipher, CounterAt, StreamOctet, Xored, CIPHERTEXT, Number;
    Blocks();
    FirstCounters();
    forall k | 0 <= k < 16
      ensures Stream(KEY, Number(1), Zeros(16))[k] == CIPHERTEXT[k]
    {
      StreamOctetAt(KEY, Number(1), 0, k);
      XoredZero(CIPHERTEXT[k]);
    }
  }

  lemma XoredZero(b: byte)
    ensures Xored(b, 0) == b
  {
  }

  lemma HashedStrings()
    ensures Elements(Padded([])) == [] && Elements(Padded(CIPHERTEXT)) == [Bits(CIPHERTEXT)]
  {
    hide Bits, CIPHERTEXT;
    assert Group(CIPHERTEXT, 0) == CIPHERTEXT && Padded(CIPHERTEXT) == CIPHERTEXT;
  }

  lemma LengthsHashed()
    ensures LengthBlock(0, 16) == Number(0x80)
  {
    LowWords();
    hide LowWord;
    assert LengthBlock(0, 16) == Zeros(4) + LowWord(0) + Zeros(4) + LowWord(128);
  }

  lemma LowWords()
    ensures LowWord(0) == [0, 0, 0, 0] && LowWord(128) == [0, 0, 0, 0x80]
  {
  }

  const FIRST_PRODUCT: block :=
    [0x5e, 0x2e, 0xc7, 0x46, 0x91, 0x70, 0x62, 0x88, 0x2c, 0x85, 0xb0, 0x68, 0x53, 0x53, 0xde, 0xb7]

  const SUM: block :=
    [0x5e, 0x2e, 0xc7, 0x46, 0x91, 0x70, 0x62, 0x88, 0x2c, 0x85, 0xb0, 0x68, 0x53, 0x53, 0xde, 0x37]

  const HASH: block :=
    [0xf3, 0x8c, 0xbb, 0x1a, 0xd6, 0x92, 0x23, 0xdc, 0xc3, 0x45, 0x7a, 0xe5, 0xb6, 0xb0, 0xf8, 0x85]

  lemma SumIs()
    ensures XorBlock(FIRST_PRODUCT, Number(0x80)) == SUM
  {
  }

  lemma TagIs()
    ensures XorBlock(HASH, MASK) == TAG
  {
    hide XorBlock, Plus;
    var a := Octets(0xf3, 0x8c, 0xbb, 0x1a, 0xd6, 0x92, 0x23, 0xdc, 0xc3, 0x45, 0x7a, 0xe5, 0xb6, 0xb0, 0xf8, 0x85);
    var b := Octets(0x58, 0xe2, 0xfc, 0xce, 0xfa, 0x7e, 0x30, 0x61, 0x36, 0x7f, 0x1d, 0x57, 0xa4, 0xe7, 0x45, 0x5a);
    var c := Octets(0xab, 0x6e, 0x47, 0xd4, 0x2c, 0xec, 0x13, 0xbd, 0xf5, 0x3a, 0x67, 0xb2, 0x12, 0x57, 0xbd, 0xdf);
    OctetsAre();
    TagOctets();
    BlockOfSum(a, b);
  }

  lemma OctetsAre()
    ensures HASH == BlockOfOctets(
      Octets(0xf3, 0x8c, 0xbb, 0x1a, 0xd6, 0x92, 0x23, 0xdc, 0xc3, 0x45, 0x7a, 0xe5, 0xb6, 0xb0, 0xf8, 0x85))
    ensures MASK == BlockOfOctets(
      Octets(0x58, 0xe2, 0xfc, 0xce, 0xfa, 0x7e, 0x30, 0x61, 0x36, 0x7f, 0x1d, 0x57, 0xa4, 0xe7, 0x45, 0x5a))
    ensures TAG == BlockOfOctets(
      Octets(0xab, 0x6e, 0x47, 0xd4, 0x2c, 0xec, 0x13, 0xbd, 0xf5, 0x3a, 0x67, 0xb2, 0x12, 0x57, 0xbd, 0xdf))
  {
  }

  lemma TagOctets()
    ensures Plus(
      Octets(0xf3, 0x8c, 0xbb, 0x1a, 0xd6, 0x92, 0x23, 0xdc, 0xc3, 0x45, 0x7a, 0xe5, 0xb6, 0xb0, 0xf8, 0x85),
      Octets(0x58, 0xe2, 0xfc, 0xce, 0xfa, 0x7e, 0x30, 0x61, 0x36, 0x7f, 0x1d, 0x57, 0xa4, 0xe7, 0x45, 0x5a)) ==
      Octets(0xab, 0x6e, 0x47, 0xd4, 0x2c, 0xec, 0x13, 0xbd, 0xf5, 0x3a, 0x67, 0xb2, 0x12, 0x57, 0xbd, 0xdf)
  {
  }

  lemma TwoBlocks(h: element, x: element, y: element)
    ensures Chain(h, None(128), [x, y]) == Mul(h, Xor(Mul(h, x), y))
  {
    hide Mul;
    var s := [x, y];
    assert s[..1] == [x] && [x][..0] == [];
    assert Chain(h, None(128), []) == None(128);
    assert Xor(None(128), x) == x;
    assert Chain(h, None(128), [x]) == Mul(x, h);
    MulCommutes(x, h);
    MulCommutes(Xor(Mul(h, x), y), h);
  }

  lemma HashOfCiphertext()
    ensures GhashOf(Bits(HASH_KEY), [], CIPHERTEXT) == Bits(HASH)
  {
    hide Bits, Elements, LengthBlock, Number, Mul, Xor, Chain;
    HashedStrings();
    LengthsHashed();
    var h, x, y := Bits(HASH_KEY), Bits(CIPHERTEXT), Bits(Number(0x80));
    assert [] + [x] + [y] == [x, y];
    TwoBlocks(h, x, y);
    Product1(HASH_KEY, CIPHERTEXT);
    BitsOfXor(FIRST_PRODUCT, Number(0x80));
    SumIs();
    Product2(HASH_KEY, SUM);
  }

  /** Ciphertext and tag, of the code and of the standard. */
  lemma TestCase2()
    ensures Stream(KEY, FirstCounter(KEY, Zeros(12), 0, 12), Zeros(16)) == CIPHERTEXT
    ensures TagOf(KEY, FirstCounter(KEY, Zeros(12), 0, 12), [], CIPHERTEXT) == TAG
    ensures StandardEncryption(KEY, Zeros(12), [], Zeros(16)) == (CIPHERTEXT, TAG)
  {
    hide Cipher, Stream, GhashOf, Bits, InRange, StandardEncryption, HASH, MASK, TAG, CIPHERTEXT, HASH_KEY, Number;
    FirstCounters();
    StreamOfZeros();
    HashOfCiphertext();
    Blocks();
    ZeroBlock();
    BitsOfBlock(HASH);
    TagIs();
    VectorsOf96Bits(KEY, Zeros(12), [], Zeros(16));
    EncryptionIsStandard(KEY, Zeros(12), [], Zeros(16));
  }

  lemma ZeroBlock()
    ensures Number(0) == Zeros(16)
  {
  }
}
