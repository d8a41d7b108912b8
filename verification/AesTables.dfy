/**
 The substitution tables of section 5.1.1 of FIPS 197, sixteen entries to a row, and
 multiplication in GF(2^8).
 */
module AesTables {
  import opened Bytes

  /** Entry i of a row of sixteen. */
  function Pick16(i: byte, v0: byte, v1: byte, v2: byte, v3: byte, v4: byte, v5: byte, v6: byte, v7: byte,
      v8: byte, v9: byte, va: byte, vb: byte, vc: byte, vd: byte, ve: byte, vf: byte): byte
  {
    if i & 8 == 0 then
      (if i & 4 == 0 then
        (if i & 2 == 0 then (if i & 1 == 0 then v0 else v1) else (if i & 1 == 0 then v2 else v3))
      else
        (if i & 2 == 0 then (if i & 1 == 0 then v4 else v5) else (if i & 1 == 0 then v6 else v7)))
    else
      (if i & 4 == 0 then
        (if i & 2 == 0 then (if i & 1 == 0 then v8 else v9) else (if i & 1 == 0 then va else vb))
      else
        (if i & 2 == 0 then (if i & 1 == 0 then vc else vd) else (if i & 1 == 0 then ve else vf)))
  }

  function SBox(b: byte): byte {
    var hi, lo := b >> 4, b & 0x0f;
    Pick16(hi,
      Pick16(lo, 0x63, 0x7c, 0x77, 0x7b, 0xf2, 0x6b, 0x6f, 0xc5, 0x30, 0x01, 0x67, 0x2b, 0xfe, 0xd7, 0xab, 0x76),
      Pick16(lo, 0xca, 0x82, 0xc9, 0x7d, 0xfa, 0x59, 0x47, 0xf0, 0xad, 0xd4, 0xa2, 0xaf, 0x9c, 0xa4, 0x72, 0xc0),
      Pick16(lo, 0xb7, 0xfd, 0x93, 0x26, 0x36, 0x3f, 0xf7, 0xcc, 0x34, 0xa5, 0xe5, 0xf1, 0x71, 0xd8, 0x31, 0x15),
      Pick16(lo, 0x04, 0xc7, 0x23, 0xc3, 0x18, 0x96, 0x05, 0x9a, 0x07, 0x12, 0x80, 0xe2, 0xeb, 0x27, 0xb2, 0x75),
      Pick16(lo, 0x09, 0x83, 0x2c, 0x1a, 0x1b, 0x6e, 0x5a, 0xa0, 0x52, 0x3b, 0xd6, 0xb3, 0x29, 0xe3, 0x2f, 0x84),
      Pick16(lo, 0x53, 0xd1, 0x00, 0xed, 0x20, 0xfc, 0xb1, 0x5b, 0x6a, 0xcb, 0xbe, 0x39, 0x4a, 0x4c, 0x58, 0xcf),
      Pick16(lo, 0xd0, 0xef, 0xaa, 0xfb, 0x43, 0x4d, 0x33, 0x85, 0x45, 0xf9, 0x02, 0x7f, 0x50, 0x3c, 0x9f, 0xa8),
      Pick16(lo, 0x51, 0xa3, 0x40, 0x8f, 0x92, 0x9d, 0x38, 0xf5, 0xbc, 0xb6, 0xda, 0x21, 0x10, 0xff, 0xf3, 0xd2),
      Pick16(lo, 0xcd, 0x0c, 0x13, 0xec, 0x5f, 0x97, 0x44, 0x17, 0xc4, 0xa7, 0x7e, 0x3d, 0x64, 0x5d, 0x19, 0x73),
      Pick16(lo, 0x60, 0x81, 0x4f, 0xdc, 0x22, 0x2a, 0x90, 0x88, 0x46, 0xee, 0xb8, 0x14, 0xde, 0x5e, 0x0b, 0xdb),
      Pick16(lo, 0xe0, 0x32, 0x3a, 0x0a, 0x49, 0x06, 0x24, 0x5c, 0xc2, 0xd3, 0xac, 0x62, 0x91, 0x95, 0xe4, 0x79),
      Pick16(lo, 0xe7, 0xc8, 0x37, 0x6d, 0x8d, 0xd5, 0x4e, 0xa9, 0x6c, 0x56, 0xf4, 0xea, 0x65, 0x7a, 0xae, 0x08),
      Pick16(lo, 0xba, 0x78, 0x25, 0x2e, 0x1c, 0xa6, 0xb4, 0xc6, 0xe8, 0xdd, 0x74, 0x1f, 0x4b, 0xbd, 0x8b, 0x8a),
      Pick16(lo, 0x70, 0x3e, 0xb5, 0x66, 0x48, 0x03, 0xf6, 0x0e, 0x61, 0x35, 0x57, 0xb9, 0x86, 0xc1, 0x1d, 0x9e),
      Pick16(lo, 0xe1, 0xf8, 0x98, 0x11, 0x69, 0xd9, 0x8e, 0x94, 0x9b, 0x1e, 0x87, 0xe9, 0xce, 0x55, 0x28, 0xdf),
      Pick16(lo, 0x8c, 0xa1, 0x89, 0x0d, 0xbf, 0xe6, 0x42, 0x68, 0x41, 0x99, 0x2d, 0x0f, 0xb0, 0x54, 0xbb, 0x16))
  }

  function IBox(b: byte): byte {
    var hi, lo := b >> 4, b & 0x0f;
    match hi
    case 0 => Pick16(lo, 0x52, 0x09, 0x6a, 0xd5, 0x30, 0x36, 0xa5, 0x38, 0xbf, 0x40, 0xa3, 0x9e, 0x81, 0xf3, 0xd7, 0xfb)
    case 1 => Pick16(lo, 0x7c, 0xe3, 0x39, 0x82, 0x9b, 0x2f, 0xff, 0x87, 0x34, 0x8e, 0x43, 0x44, 0xc4, 0xde, 0xe9, 0xcb)
    case 2 => Pick16(lo, 0x54, 0x7b, 0x94, 0x32, 0xa6, 0xc2, 0x23, 0x3d, 0xee, 0x4c, 0x95, 0x0b, 0x42, 0xfa, 0xc3, 0x4e)
    case 3 => Pick16(lo, 0x08, 0x2e, 0xa1, 0x66, 0x28, 0xd9, 0x24, 0xb2, 0x76, 0x5b, 0xa2, 0x49, 0x6d, 0x8b, 0xd1, 0x25)
    case 4 => Pick16(lo, 0x72, 0xf8, 0xf6, 0x64, 0x86, 0x68, 0x98, 0x16, 0xd4, 0xa4, 0x5c, 0xcc, 0x5d, 0x65, 0xb6, 0x92)
    case 5 => Pick16(lo, 0x6c, 0x70, 0x48, 0x50, 0xfd, 0xed, 0xb9, 0xda, 0x5e, 0x15, 0x46, 0x57, 0xa7, 0x8d, 0x9d, 0x84)
    case 6 => Pick16(lo, 0x90, 0xd8, 0xab, 0x00, 0x8c, 0xbc, 0xd3, 0x0a, 0xf7, 0xe4, 0x58, 0x05, 0xb8, 0xb3, 0x45, 0x06)
    case 7 => Pick16(lo, 0xd0, 0x2c, 0x1e, 0x8f, 0xca, 0x3f, 0x0f, 0x02, 0xc1, 0xaf, 0xbd, 0x03, 0x01, 0x13, 0x8a, 0x6b)
    case 8 => Pick16(lo, 0x3a, 0x91, 0x11, 0x41, 0x4f, 0x67, 0xdc, 0xea, 0x97, 0xf2, 0xcf, 0xce, 0xf0, 0xb4, 0xe6, 0x73)
    case 9 => Pick16(lo, 0x96, 0xac, 0x74, 0x22, 0xe7, 0xad, 0x35, 0x85, 0xe2, 0xf9, 0x37, 0xe8, 0x1c, 0x75, 0xdf, 0x6e)
    case 10 => Pick16(lo, 0x47, 0xf1, 0x1a, 0x71, 0x1d, 0x29, 0xc5, 0x89, 0x6f, 0xb7, 0x62, 0x0e, 0xaa, 0x18, 0xbe, 0x1b)
    case 11 => Pick16(lo, 0xfc, 0x56, 0x3e, 0x4b, 0xc6, 0xd2, 0x79, 0x20, 0x9a, 0xdb, 0xc0, 0xfe, 0x78, 0xcd, 0x5a, 0xf4)
    case 12 => Pick16(lo, 0x1f, 0xdd, 0xa8, 0x33, 0x88, 0x07, 0xc7, 0x31, 0xb1, 0x12, 0x10, 0x59, 0x27, 0x80, 0xec, 0x5f)
    case 13 => Pick16(lo, 0x60, 0x51, 0x7f, 0xa9, 0x19, 0xb5, 0x4a, 0x0d, 0x2d, 0xe5, 0x7a, 0x9f, 0x93, 0xc9, 0x9c, 0xef)
    case 14 => Pick16(lo, 0xa0, 0xe0, 0x3b, 0x4d, 0xae, 0x2a, 0xf5, 0xb0, 0xc8, 0xeb, 0xbb, 0x3c, 0x83, 0x53, 0x99, 0x61)
    case _ => Pick16(lo, 0x17, 0x2b, 0x04, 0x7e, 0xba, 0x77, 0xd6, 0x26, 0xe1, 0x69, 0x14, 0x63, 0x55, 0x21, 0x0c, 0x7d)
  }

  lemma BoxesInvertQuarter1(b: byte)
    requires b >> 6 == 0
    ensures IBox(SBox(b)) == b
  {
  }

  lemma BoxesInvertQuarter2(b: byte)
    requires b >> 6 == 1
    ensures IBox(SBox(b)) == b
  {
  }

  lemma BoxesInvertQuarter3(b: byte)
    requires b >> 6 == 2
    ensures IBox(SBox(b)) == b
  {
  }

  lemma BoxesInvertQuarter4(b: byte)
    requires b >> 6 == 3
    ensures IBox(SBox(b)) == b
  {
  }

  /** The second table undoes the first. */
  lemma BoxesInvert(b: byte)
    ensures IBox(SBox(b)) == b
  {
    hide IBox, SBox;
    if b >> 6 == 0 {
      BoxesInvertQuarter1(b);
    } else if b >> 6 == 1 {
      BoxesInvertQuarter2(b);
    } else if b >> 6 == 2 {
      BoxesInvertQuarter3(b);
    } else {
      BoxesInvertQuarter4(b);
    }
  }

  /** Addition in GF(2^8), section 4.1 of FIPS 197. */
  function Plus(a: byte, b: byte): byte { a ^ b }

  /** Multiplication by x: a shift, and a reduction when the top bit leaves. */
  function Mul2(v: byte): byte {
    (v << 1) ^ (0x1b & (if v & 0x80 != 0 then 0xff else 0))
  }

  function Mul3(a: byte): byte { Plus(Mul2(a), a) }

  function Mul9(a: byte): byte { Plus(Mul2(Mul2(Mul2(a))), a) }

  function Mul11(a: byte): byte {
    var b := Mul2(a);
    Plus(Plus(Mul2(Mul2(b)), b), a)
  }

  function Mul13(a: byte): byte {
    var c := Mul2(Mul2(a));
    Plus(Plus(Mul2(c), c), a)
  }

  function Mul14(a: byte): byte {
    var b := Mul2(a);
    var c := Mul2(b);
    Plus(Plus(Mul2(c), c), b)
  }

  /** The product of two polynomials over GF(2) of degree at most 7. */
  function PolynomialProduct(a: byte, b: byte): bv16 {
    var w := b as bv16;
    (if a & 0x01 != 0 then w else 0) ^ (if a & 0x02 != 0 then w << 1 else 0)
    ^ (if a & 0x04 != 0 then w << 2 else 0) ^ (if a & 0x08 != 0 then w << 3 else 0)
    ^ (if a & 0x10 != 0 then w << 4 else 0) ^ (if a & 0x20 != 0 then w << 5 else 0)
    ^ (if a & 0x40 != 0 then w << 6 else 0) ^ (if a & 0x80 != 0 then w << 7 else 0)
  }

  /** The remainder modulo x^8 + x^4 + x^3 + x + 1, from the top coefficient down. */
  function Remainder(p: bv16): byte {
    var p6 := p ^ (if p & 0x4000 != 0 then 0x11b << 6 else 0);
    var p5 := p6 ^ (if p6 & 0x2000 != 0 then 0x11b << 5 else 0);
    var p4 := p5 ^ (if p5 & 0x1000 != 0 then 0x11b << 4 else 0);
    var p3 := p4 ^ (if p4 & 0x0800 != 0 then 0x11b << 3 else 0);
    var p2 := p3 ^ (if p3 & 0x0400 != 0 then 0x11b << 2 else 0);
    var p1 := p2 ^ (if p2 & 0x0200 != 0 then 0x11b << 1 else 0);
    var p0 := p1 ^ (if p1 & 0x0100 != 0 then 0x11b else 0);
    (p0 & 0xff) as byte
  }

  /** Multiplication in GF(2^8), section 4.2 of FIPS 197. */
  function Times(a: byte, b: byte): byte { Remainder(PolynomialProduct(a, b)) }

  /** The affine map of section 5.1.1 over the bits of an octet, and its inverse. */
  function AffineMap(b: byte): byte {
    b ^ b.RotateLeft(1) ^ b.RotateLeft(2) ^ b.RotateLeft(3) ^ b.RotateLeft(4) ^ 0x63
  }

  function InverseAffineMap(s: byte): byte {
    s.RotateLeft(1) ^ s.RotateLeft(3) ^ s.RotateLeft(6) ^ 0x05
  }

  lemma AffineMapsInvert(s: byte)
    ensures AffineMap(InverseAffineMap(s)) == s && InverseAffineMap(AffineMap(s)) == s
  {
  }

  lemma InverseQuarter1(b: byte)
    requires b >> 6 == 0 && b != 0
    ensures Times(b, InverseAffineMap(SBox(b))) == 1
  {
  }

  lemma InverseQuarter2(b: byte)
    requires b >> 6 == 1 && b != 0
    ensures Times(b, InverseAffineMap(SBox(b))) == 1
  {
  }

  lemma InverseQuarter3(b: byte)
    requires b >> 6 == 2 && b != 0
    ensures Times(b, InverseAffineMap(SBox(b))) == 1
  {
  }

  lemma InverseQuarter4(b: byte)
    requires b >> 6 == 3 && b != 0
    ensures Times(b, InverseAffineMap(SBox(b))) == 1
  {
  }

  /** The box is the affine map of the inverse in GF(2^8), where zero stands for its own inverse. */
  lemma SBoxIsInverse(b: byte)
    ensures var i := InverseAffineMap(SBox(b));
      SBox(b) == AffineMap(i) && if b == 0 then i == 0 else Times(b, i) == 1
  {
    hide SBox, Times, AffineMap, InverseAffineMap;
    AffineMapsInvert(SBox(b));
    if b == 0 {
      ZeroInBox();
    } else if b >> 6 == 0 {
      InverseQuarter1(b);
    } else if b >> 6 == 1 {
      InverseQuarter2(b);
    } else if b >> 6 == 2 {
      InverseQuarter3(b);
    } else {
      InverseQuarter4(b);
    }
  }

  lemma ZeroInBox()
    ensures InverseAffineMap(SBox(0)) == 0
  {
  }

  /** The multiplications by constants are multiplications in GF(2^8). */
  lemma ForwardProducts(a: byte)
    ensures Mul2(a) == Times(0x02, a) && Mul3(a) == Times(0x03, a)
  {
  }

  lemma InverseProducts(a: byte)
    ensures Mul9(a) == Times(0x09, a) && Mul11(a) == Times(0x0b, a)
  {
  }

  lemma MoreInverseProducts(a: byte)
    ensures Mul13(a) == Times(0x0d, a) && Mul14(a) == Times(0x0e, a)
  {
  }

  lemma Mul2Linear(a: byte, b: byte)
    ensures Mul2(Plus(a, b)) == Plus(Mul2(a), Mul2(b))
  {
  }

  function Sum(a: byte, b: byte, c: byte, d: byte): byte { Plus(Plus(Plus(a, b), c), d) }

  lemma SumRotates(a: byte, b: byte, c: byte, d: byte)
    ensures Sum(a, b, c, d) == Sum(b, c, d, a)
  {
  }

  lemma SumZeros(a: byte)
    ensures Sum(a, 0, 0, 0) == a
  {
  }

  lemma PlusAssociates(a: byte, b: byte, c: byte)
    ensures Plus(Plus(a, b), c) == Plus(a, Plus(b, c))
  {
  }

  lemma PlusCommutes(a: byte, b: byte)
    ensures Plus(a, b) == Plus(b, a)
  {
  }

  lemma PlusExchange(a: byte, b: byte, c: byte, d: byte)
    ensures Plus(Plus(a, b), Plus(c, d)) == Plus(Plus(a, c), Plus(b, d))
  {
    hide Plus;
    PlusAssociates(a, b, Plus(c, d));
    PlusAssociates(b, c, d);
    PlusCommutes(b, c);
    PlusAssociates(c, b, d);
    PlusAssociates(a, c, Plus(b, d));
  }

  lemma SumPlus(r: Column, s: Column)
    ensures Plus(Total(r), Total(s)) == Sum(Plus(r.b0, s.b0), Plus(r.b1, s.b1), Plus(r.b2, s.b2), Plus(r.b3, s.b3))
  {
    hide Plus;
    PlusExchange(Plus(Plus(r.b0, r.b1), r.b2), r.b3, Plus(Plus(s.b0, s.b1), s.b2), s.b3);
    PlusExchange(Plus(r.b0, r.b1), r.b2, Plus(s.b0, s.b1), s.b2);
    PlusExchange(r.b0, r.b1, s.b0, s.b1);
  }

  /** Sixteen terms summed by rows or by columns. */
  lemma SumByColumns(r: Column, s: Column, t: Column, u: Column)
    ensures Sum(Total(r), Total(s), Total(t), Total(u))
      == Sum(Sum(r.b0, s.b0, t.b0, u.b0), Sum(r.b1, s.b1, t.b1, u.b1), Sum(r.b2, s.b2, t.b2, u.b2),
        Sum(r.b3, s.b3, t.b3, u.b3))
  {
    hide Plus;
    var rs := Column(Plus(r.b0, s.b0), Plus(r.b1, s.b1), Plus(r.b2, s.b2), Plus(r.b3, s.b3));
    var rst := Column(Plus(rs.b0, t.b0), Plus(rs.b1, t.b1), Plus(rs.b2, t.b2), Plus(rs.b3, t.b3));
    SumPlus(r, s);
    SumPlus(rs, t);
    SumPlus(rst, u);
  }

  datatype Column = Column(b0: byte, b1: byte, b2: byte, b3: byte)

  function Total(c: Column): byte { Sum(c.b0, c.b1, c.b2, c.b3) }

  lemma Mul9Linear(a: byte, b: byte)
    ensures Mul9(Plus(a, b)) == Plus(Mul9(a), Mul9(b))
  {
    hide Mul2, Plus;
    Mul2Linear(a, b);
    Mul2Linear(Mul2(a), Mul2(b));
    Mul2Linear(Mul2(Mul2(a)), Mul2(Mul2(b)));
    PlusExchange(Mul2(Mul2(Mul2(a))), Mul2(Mul2(Mul2(b))), a, b);
  }

  lemma Mul9OfSum(c: Column)
    ensures Mul9(Total(c)) == Sum(Mul9(c.b0), Mul9(c.b1), Mul9(c.b2), Mul9(c.b3))
  {
    hide Mul9, Plus;
    Mul9Linear(Plus(Plus(c.b0, c.b1), c.b2), c.b3);
    Mul9Linear(Plus(c.b0, c.b1), c.b2);
    Mul9Linear(c.b0, c.b1);
  }

  lemma Mul11Linear(a: byte, b: byte)
    ensures Mul11(Plus(a, b)) == Plus(Mul11(a), Mul11(b))
  {
    hide Mul2, Plus;
    Mul2Linear(a, b);
    Mul2Linear(Mul2(a), Mul2(b));
    Mul2Linear(Mul2(Mul2(a)), Mul2(Mul2(b)));
    PlusExchange(Mul2(Mul2(Mul2(a))), Mul2(Mul2(Mul2(b))), Mul2(a), Mul2(b));
    PlusExchange(Plus(Mul2(Mul2(Mul2(a))), Mul2(a)), Plus(Mul2(Mul2(Mul2(b))), Mul2(b)), a, b);
  }

  lemma Mul11OfSum(c: Column)
    ensures Mul11(Total(c)) == Sum(Mul11(c.b0), Mul11(c.b1), Mul11(c.b2), Mul11(c.b3))
  {
    hide Mul11, Plus;
    Mul11Linear(Plus(Plus(c.b0, c.b1), c.b2), c.b3);
    Mul11Linear(Plus(c.b0, c.b1), c.b2);
    Mul11Linear(c.b0, c.b1);
  }

  lemma Mul13Linear(a: byte, b: byte)
    ensures Mul13(Plus(a, b)) == Plus(Mul13(a), Mul13(b))
  {
    hide Mul2, Plus;
    Mul2Linear(a, b);
    Mul2Linear(Mul2(a), Mul2(b));
    Mul2Linear(Mul2(Mul2(a)), Mul2(Mul2(b)));
    PlusExchange(Mul2(Mul2(Mul2(a))), Mul2(Mul2(Mul2(b))), Mul2(Mul2(a)), Mul2(Mul2(b)));
    PlusExchange(Plus(Mul2(Mul2(Mul2(a))), Mul2(Mul2(a))), Plus(Mul2(Mul2(Mul2(b))), Mul2(Mul2(b))), a, b);
  }

  lemma Mul13OfSum(c: Column)
    ensures Mul13(Total(c)) == Sum(Mul13(c.b0), Mul13(c.b1), Mul13(c.b2), Mul13(c.b3))
  {
    hide Mul13, Plus;
    Mul13Linear(Plus(Plus(c.b0, c.b1), c.b2), c.b3);
    Mul13Linear(Plus(c.b0, c.b1), c.b2);
    Mul13Linear(c.b0, c.b1);
  }

  lemma Mul14Linear(a: byte, b: byte)
    ensures Mul14(Plus(a, b)) == Plus(Mul14(a), Mul14(b))
  {
    hide Mul2, Plus;
    Mul2Linear(a, b);
    Mul2Linear(Mul2(a), Mul2(b));
    Mul2Linear(Mul2(Mul2(a)), Mul2(Mul2(b)));
    PlusExchange(Mul2(Mul2(Mul2(a))), Mul2(Mul2(Mul2(b))), Mul2(Mul2(a)), Mul2(Mul2(b)));
    PlusExchange(Plus(Mul2(Mul2(Mul2(a))), Mul2(Mul2(a))), Plus(Mul2(Mul2(Mul2(b))), Mul2(Mul2(b))), Mul2(a), Mul2(b));
  }

  lemma Mul14OfSum(c: Column)
    ensures Mul14(Total(c)) == Sum(Mul14(c.b0), Mul14(c.b1), Mul14(c.b2), Mul14(c.b3))
  {
    hide Mul14, Plus;
    Mul14Linear(Plus(Plus(c.b0, c.b1), c.b2), c.b3);
    Mul14Linear(Plus(c.b0, c.b1), c.b2);
    Mul14Linear(c.b0, c.b1);
  }

  /** One column of the product of the two matrices is a column of the identity matrix. */
  lemma MatrixColumn(a: byte)
    ensures Sum(Mul14(Mul2(a)), Mul11(a), Mul13(a), Mul9(Mul3(a))) == a
    ensures Sum(Mul14(Mul3(a)), Mul11(Mul2(a)), Mul13(a), Mul9(a)) == 0
    ensures Sum(Mul14(a), Mul11(Mul3(a)), Mul13(Mul2(a)), Mul9(a)) == 0
    ensures Sum(Mul14(a), Mul11(a), Mul13(Mul3(a)), Mul9(Mul2(a))) == 0
  {
  }

  function MixColumn(a: Column): Column {
    Column(
      Sum(Mul2(a.b0), Mul3(a.b1), a.b2, a.b3),
      Sum(a.b0, Mul2(a.b1), Mul3(a.b2), a.b3),
      Sum(a.b0, a.b1, Mul2(a.b2), Mul3(a.b3)),
      Sum(Mul3(a.b0), a.b1, a.b2, Mul2(a.b3)))
  }

  function InvMixColumn(a: Column): Column {
    Column(
      Sum(Mul14(a.b0), Mul11(a.b1), Mul13(a.b2), Mul9(a.b3)),
      Sum(Mul9(a.b0), Mul14(a.b1), Mul11(a.b2), Mul13(a.b3)),
      Sum(Mul13(a.b0), Mul9(a.b1), Mul14(a.b2), Mul11(a.b3)),
      Sum(Mul11(a.b0), Mul13(a.b1), Mul9(a.b2), Mul14(a.b3)))
  }

  lemma FirstRow(a: Column)
    ensures InvMixColumn(MixColumn(a)).b0 == a.b0
  {
    hide Mul2, Mul3, Mul9, Mul11, Mul13, Mul14, Sum;
    var r0 := Column(Mul2(a.b0), Mul3(a.b1), a.b2, a.b3);
    var r1 := Column(a.b0, Mul2(a.b1), Mul3(a.b2), a.b3);
    var r2 := Column(a.b0, a.b1, Mul2(a.b2), Mul3(a.b3));
    var r3 := Column(Mul3(a.b0), a.b1, a.b2, Mul2(a.b3));
    Mul14OfSum(r0);
    Mul11OfSum(r1);
    Mul13OfSum(r2);
    Mul9OfSum(r3);
    SumByColumns(
      Column(Mul14(r0.b0), Mul14(r0.b1), Mul14(r0.b2), Mul14(r0.b3)),
      Column(Mul11(r1.b0), Mul11(r1.b1), Mul11(r1.b2), Mul11(r1.b3)),
      Column(Mul13(r2.b0), Mul13(r2.b1), Mul13(r2.b2), Mul13(r2.b3)),
      Column(Mul9(r3.b0), Mul9(r3.b1), Mul9(r3.b2), Mul9(r3.b3)));
    MatrixColumn(a.b0);
    MatrixColumn(a.b1);
    MatrixColumn(a.b2);
    MatrixColumn(a.b3);
    SumZeros(a.b0);
  }

  function Rotate(a: Column): Column { Column(a.b1, a.b2, a.b3, a.b0) }

  /** Both matrices are circulant: rotating a column rotates its product. */
  lemma Circulant(a: Column)
    ensures MixColumn(Rotate(a)) == Rotate(MixColumn(a))
    ensures InvMixColumn(Rotate(a)) == Rotate(InvMixColumn(a))
  {
    hide Mul2, Mul3, Mul9, Mul11, Mul13, Mul14, Sum;
    SumRotates(a.b0, Mul2(a.b1), Mul3(a.b2), a.b3);
    SumRotates(a.b0, a.b1, Mul2(a.b2), Mul3(a.b3));
    SumRotates(Mul3(a.b0), a.b1, a.b2, Mul2(a.b3));
    SumRotates(Mul2(a.b0), Mul3(a.b1), a.b2, a.b3);
    SumRotates(Mul9(a.b0), Mul14(a.b1), Mul11(a.b2), Mul13(a.b3));
    SumRotates(Mul13(a.b0), Mul9(a.b1), Mul14(a.b2), Mul11(a.b3));
    SumRotates(Mul11(a.b0), Mul13(a.b1), Mul9(a.b2), Mul14(a.b3));
    SumRotates(Mul14(a.b0), Mul11(a.b1), Mul13(a.b2), Mul9(a.b3));
  }

  lemma MixColumnInverts(a: Column)
    ensures InvMixColumn(MixColumn(a)) == a
  {
    hide MixColumn, InvMixColumn;
    var b, c, d := Rotate(a), Rotate(Rotate(a)), Rotate(Rotate(Rotate(a)));
    FirstRow(a);
    FirstRow(b);
    FirstRow(c);
    FirstRow(d);
    Circulant(a);
    Circulant(b);
    Circulant(c);
    Circulant(MixColumn(a));
    Circulant(MixColumn(b));
    Circulant(MixColumn(c));
  }
}
