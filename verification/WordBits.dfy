/**
 The bits of 64-bit words under shifts, which are repeated single shifts.
 */
module WordBits {
  import opened Bytes

  type word = bv64

  const ONES: word := 0xffff_ffff_ffff_ffff

  function Half(x: word): word { x >> 1 }

  function Twice(x: word): word { x << 1 }

  function ByteDown(x: word): word { x >> 8 }

  function Or(x: word, y: word): word { x | y }

  function And(x: word, y: word): word { x & y }

  function Not(x: word): word { !x }

  predicate Odd(x: word) { x & 1 == 1 }

  function ShiftRight(x: word, n: nat): word
    decreases n
  {
    if n == 0 then x else ShiftRight(Half(x), n - 1)
  }

  function ShiftLeft(x: word, n: nat): word
    decreases n
  {
    if n == 0 then x else ShiftLeft(Twice(x), n - 1)
  }

  /** Bit k, the lowest being number 0. */
  function Bit(x: word, k: nat): bool {
    Odd(ShiftRight(x, k))
  }

  lemma {:induction false} ShiftRightAdds(x: word, m: nat, n: nat)
    ensures ShiftRight(ShiftRight(x, m), n) == ShiftRight(x, m + n)
    decreases m
  {
    hide Half;
    if m != 0 {
      ShiftRightAdds(Half(x), m - 1, n);
    }
  }

  lemma BitShiftedRight(x: word, n: nat, k: nat)
    ensures Bit(ShiftRight(x, n), k) == Bit(x, n + k)
  {
    hide Half, Odd;
    ShiftRightAdds(x, n, k);
  }

  lemma EightHalves(x: word)
    ensures Half(Half(Half(Half(Half(Half(Half(Half(x)))))))) == ByteDown(x)
  {
    hide Half, ByteDown, QuarterOf, NibbleDown;
    TwoByOne(x);
    TwoByOne(Half(Half(x)));
    TwoByOne(Half(Half(Half(Half(x)))));
    TwoByOne(Half(Half(Half(Half(Half(Half(x)))))));
    FourByTwo(x);
    FourByTwo(QuarterOf(QuarterOf(x)));
    EightByFour(x);
  }

  lemma TwoByOne(x: word)
    ensures Half(Half(x)) == QuarterOf(x)
  {
  }

  function QuarterOf(x: word): word { x >> 2 }

  function NibbleDown(x: word): word { x >> 4 }

  lemma FourByTwo(x: word)
    ensures QuarterOf(QuarterOf(x)) == NibbleDown(x)
  {
  }

  lemma EightByFour(x: word)
    ensures NibbleDown(NibbleDown(x)) == ByteDown(x)
  {
  }

  lemma TwoHalves(x: word, n: nat)
    requires 2 <= n
    ensures ShiftRight(x, n) == ShiftRight(Half(Half(x)), n - 2)
  {
    hide Half;
  }

  /** Eight single shifts are one shift by eight. */
  lemma RightByEight(x: word, n: nat)
    requires 8 <= n
    ensures ShiftRight(x, n) == ShiftRight(ByteDown(x), n - 8)
  {
    hide Half, ByteDown;
    EightHalves(x);
    TwoHalves(x, n);
    TwoHalves(Half(Half(x)), n - 2);
    TwoHalves(Half(Half(Half(Half(x)))), n - 4);
    TwoHalves(Half(Half(Half(Half(Half(Half(x)))))), n - 6);
  }

  lemma {:induction false} ZeroBits(k: nat)
    ensures !Bit(0, k)
  {
    if k != 0 {
      ZeroBits(k - 1);
      assert Half(0) == 0;
    }
  }

  lemma EightBytesDown(x: word)
    ensures ByteDown(ByteDown(ByteDown(ByteDown(ByteDown(ByteDown(ByteDown(ByteDown(x)))))))) == 0
  {
  }

  lemma BitFromByte(x: word, k: nat)
    requires 8 <= k
    ensures Bit(x, k) == Bit(ByteDown(x), k - 8)
  {
    hide Half, ByteDown, Odd;
    RightByEight(x, k);
  }

  /** There is nothing above bit 63. */
  lemma NoBit(x: word, k: nat)
    requires 64 <= k
    ensures !Bit(x, k)
  {
    hide Bit, ByteDown;
    var x2 := ByteDown(ByteDown(x));
    var x4 := ByteDown(ByteDown(x2));
    var x6 := ByteDown(ByteDown(x4));
    BitFromByte(x, k);
    BitFromByte(ByteDown(x), k - 8);
    BitFromByte(x2, k - 16);
    BitFromByte(ByteDown(x2), k - 24);
    BitFromByte(x4, k - 32);
    BitFromByte(ByteDown(x4), k - 40);
    BitFromByte(x6, k - 48);
    BitFromByte(ByteDown(x6), k - 56);
    EightBytesDown(x);
    ZeroBits(k - 64);
  }

  lemma HalfOr(x: word, y: word)
    ensures Half(Or(x, y)) == Or(Half(x), Half(y))
  {
  }

  lemma OddOr(x: word, y: word)
    ensures Odd(Or(x, y)) == (Odd(x) || Odd(y))
  {
  }

  lemma {:induction false} BitOr(x: word, y: word, k: nat)
    ensures Bit(Or(x, y), k) == (Bit(x, k) || Bit(y, k))
    decreases k
  {
    hide Half, Or, Odd;
    HalfOr(x, y);
    OddOr(x, y);
    if k != 0 {
      BitOr(Half(x), Half(y), k - 1);
    }
  }

  lemma HalfAnd(x: word, y: word)
    ensures Half(And(x, y)) == And(Half(x), Half(y))
  {
  }

  lemma OddAnd(x: word, y: word)
    ensures Odd(And(x, y)) == (Odd(x) && Odd(y))
  {
  }

  lemma {:induction false} BitAnd(x: word, y: word, k: nat)
    ensures Bit(And(x, y), k) == (Bit(x, k) && Bit(y, k))
    decreases k
  {
    hide Half, And, Odd;
    HalfAnd(x, y);
    OddAnd(x, y);
    if k != 0 {
      BitAnd(Half(x), Half(y), k - 1);
    }
  }

  /** The n lowest bits are set. */
  ghost predicate LowBits(x: word, n: nat)
    decreases n
  {
    n == 0 || (Odd(x) && LowBits(Half(x), n - 1))
  }

  lemma OddOctet(x: word)
    requires x & 0xff == 0xff
    ensures Odd(x) && Odd(Half(x)) && Odd(Half(Half(x))) && Odd(Half(Half(Half(x)))) && Odd(Half(Half(Half(Half(x)))))
    ensures var y := Half(Half(Half(Half(Half(x))))); Odd(y) && Odd(Half(y)) && Odd(Half(Half(y)))
  {
    assert x & 0x01 == 0x01 && x & 0x02 == 0x02 && x & 0x04 == 0x04 && x & 0x08 == 0x08;
    assert x & 0x10 == 0x10 && x & 0x20 == 0x20 && x & 0x40 == 0x40 && x & 0x80 == 0x80;
  }

  lemma TwoLowBits(x: word, n: nat)
    requires 2 <= n && Odd(x) && Odd(Half(x)) && LowBits(Half(Half(x)), n - 2)
    ensures LowBits(x, n)
  {
    hide Half, Odd;
  }

  lemma LowOctet(x: word, n: nat)
    requires 8 <= n && x & 0xff == 0xff && LowBits(ByteDown(x), n - 8)
    ensures LowBits(x, n)
  {
    hide Half, Odd, ByteDown, LowBits;
    EightHalves(x);
    OddOctet(x);
    TwoLowBits(Half(Half(Half(Half(Half(Half(x)))))), n - 6);
    TwoLowBits(Half(Half(Half(Half(x)))), n - 4);
    TwoLowBits(Half(Half(x)), n - 2);
    TwoLowBits(x, n);
  }

  lemma {:induction false} LowBit(x: word, n: nat, k: nat)
    requires k < n && LowBits(x, n)
    ensures Bit(x, k)
    decreases k
  {
    hide Half, Odd;
    if k != 0 {
      LowBit(Half(x), n - 1, k - 1);
    }
  }

  lemma OnesDown()
    ensures ByteDown(ONES) & 0xff == 0xff && ByteDown(ByteDown(ONES)) & 0xff == 0xff
    ensures var x := ByteDown(ByteDown(ByteDown(ONES)));
      x & 0xff == 0xff && ByteDown(x) & 0xff == 0xff && ByteDown(ByteDown(x)) & 0xff == 0xff
      && ByteDown(ByteDown(ByteDown(x))) & 0xff == 0xff && ByteDown(ByteDown(ByteDown(ByteDown(x)))) & 0xff == 0xff
  {
  }

  /** All 64 bits of the word of ones. */
  lemma OnesBits(n: nat)
    requires n == 64
    ensures LowBits(ONES, n)
  {
    hide ByteDown, LowBits;
    OnesDown();
    var x3 := ByteDown(ByteDown(ByteDown(ONES)));
    var x6 := ByteDown(ByteDown(ByteDown(x3)));
    NoLowBits(ByteDown(ByteDown(x6)), n - 64);
    LowOctet(ByteDown(x6), n - 56);
    LowOctet(x6, n - 48);
    LowOctet(ByteDown(ByteDown(x3)), n - 40);
    LowOctet(ByteDown(x3), n - 32);
    LowOctet(x3, n - 24);
    LowOctet(ByteDown(ByteDown(ONES)), n - 16);
    LowOctet(ByteDown(ONES), n - 8);
    LowOctet(ONES, n);
  }

  lemma NoLowBits(x: word, n: nat)
    requires n == 0
    ensures LowBits(x, n)
  {
  }

  lemma HalfDifferent(x: word, y: word)
    ensures Half(Different(x, y)) == Different(Half(x), Half(y))
  {
  }

  lemma OddDifferent(x: word, y: word)
    ensures Odd(Different(x, y)) == (Odd(x) != Odd(y))
  {
  }

  function Different(x: word, y: word): word { x ^ y }

  lemma {:induction false} BitDifferent(x: word, y: word, k: nat)
    ensures Bit(Different(x, y), k) == (Bit(x, k) != Bit(y, k))
    decreases k
  {
    hide Half, Different, Odd;
    HalfDifferent(x, y);
    OddDifferent(x, y);
    if k != 0 {
      BitDifferent(Half(x), Half(y), k - 1);
    }
  }

  lemma NotIsDifferent(x: word)
    ensures Not(x) == Different(x, ONES)
  {
  }

  lemma BitNot(x: word, k: nat)
    requires k < 64
    ensures Bit(Not(x), k) == !Bit(x, k)
  {
    hide Bit, Not, Different, LowBits;
    NotIsDifferent(x);
    BitDifferent(x, ONES, k);
    OnesBits(64);
    LowBit(ONES, 64, k);
  }

  lemma HalfTwice(x: word)
    ensures Half(Twice(x)) == And(x, Half(ONES)) && !Odd(Twice(x))
  {
  }

  lemma BitTwice(x: word, k: nat)
    requires k < 64
    ensures Bit(Twice(x), k) == (0 < k && Bit(x, k - 1))
  {
    hide Half, Twice, Odd, And;
    HalfTwice(x);
    if k != 0 {
      BitAnd(x, Half(ONES), k - 1);
      OnesBits(64);
      LowBit(ONES, 64, k);
    }
  }

  lemma {:induction false} BitShiftedLeft(x: word, n: nat, k: nat)
    requires k < 64
    ensures Bit(ShiftLeft(x, n), k) == (n <= k && Bit(x, k - n))
    decreases n
  {
    hide Twice, Bit;
    if n != 0 {
      BitShiftedLeft(Twice(x), n - 1, k);
      if n - 1 <= k {
        BitTwice(x, k - (n - 1));
      }
    }
  }

  /** The word with only bit n set. */
  lemma BitOfOne(n: nat, k: nat)
    requires k < 64
    ensures Bit(ShiftLeft(1, n), k) == (k == n)
  {
    BitShiftedLeft(1, n, k);
    if n < k {
      assert Half(1) == 0;
      ZeroBits(k - n - 1);
    }
  }

  function Wide(b: byte): word { b as word }

  /** reverseByte: neighbouring halves, pairs and single bits change places. */
  function ReverseByte(b: byte): byte {
    var c := b as bv32;
    var c4 := ((c & 0xf0) >> 4) | ((c & 0x0f) << 4);
    var c2 := ((c4 & 0xcc) >> 2) | ((c4 & 0x33) << 2);
    var c1 := ((c2 & 0xaa) >> 1) | ((c2 & 0x55) << 1);
    (c1 & 0xff) as byte
  }

  predicate Flag(b: byte, j: nat)
    requires j < 8
  {
    match j
    case 0 => b & 0x01 != 0
    case 1 => b & 0x02 != 0
    case 2 => b & 0x04 != 0
    case 3 => b & 0x08 != 0
    case 4 => b & 0x10 != 0
    case 5 => b & 0x20 != 0
    case 6 => b & 0x40 != 0
    case _ => b & 0x80 != 0
  }

  lemma ReversedFlags(b: byte, j: nat)
    requires j < 8
    ensures Flag(ReverseByte(b), j) == Flag(b, 7 - j)
  {
  }

  lemma WideHalves(b: byte)
    ensures var x := Wide(b);
      Odd(x) == Flag(b, 0) && Odd(Half(x)) == Flag(b, 1) && Odd(Half(Half(x))) == Flag(b, 2)
        && Odd(Half(Half(Half(x)))) == Flag(b, 3)
    ensures var y := Half(Half(Half(Half(Wide(b)))));
      Odd(y) == Flag(b, 4) && Odd(Half(y)) == Flag(b, 5) && Odd(Half(Half(y))) == Flag(b, 6)
        && Odd(Half(Half(Half(y)))) == Flag(b, 7)
  {
  }

  lemma FirstBits(x: word, j: nat)
    requires j < 4
    ensures Bit(x, j) == if j == 0 then Odd(x) else if j == 1 then Odd(Half(x))
      else if j == 2 then Odd(Half(Half(x))) else Odd(Half(Half(Half(x))))
  {
    hide Half, Odd;
    if 2 <= j {
      TwoHalves(x, j);
    }
  }

  lemma FlagIsBit(b: byte, j: nat)
    requires j < 8
    ensures Bit(Wide(b), j) == Flag(b, j)
  {
    hide Half, Odd, Wide, Bit;
    var x := Wide(b);
    WideHalves(b);
    if j < 4 {
      FirstBits(x, j);
    } else {
      BitByFour(x, j);
      FirstBits(Half(Half(Half(Half(x)))), j - 4);
    }
  }

  lemma BitByFour(x: word, j: nat)
    requires 4 <= j
    ensures Bit(x, j) == Bit(Half(Half(Half(Half(x)))), j - 4)
  {
    hide Half, Odd;
    TwoHalves(x, j);
    TwoHalves(Half(Half(x)), j - 2);
  }

  lemma WideIsLow(b: byte, j: nat)
    requires 8 <= j
    ensures !Bit(Wide(b), j)
  {
    hide Bit;
    BitFromByte(Wide(b), j);
    assert ByteDown(Wide(b)) == 0;
    ZeroBits(j - 8);
  }

  lemma ReversedByte(b: byte, j: nat)
    requires j < 8
    ensures Bit(Wide(ReverseByte(b)), j) == Bit(Wide(b), 7 - j)
  {
    hide Bit, Wide, ReverseByte, Flag;
    FlagIsBit(ReverseByte(b), j);
    FlagIsBit(b, 7 - j);
    ReversedFlags(b, j);
  }

  /** The byte that starts at bit 8i. */
  function LowOctetOf(x: word): byte { (x & 0xff) as byte }

  function OctetAt(v: word, i: nat): byte { LowOctetOf(ShiftRight(v, 8 * i)) }

  lemma WideOfLow(x: word)
    ensures Wide(LowOctetOf(x)) == And(x, 0xff)
  {
  }

  lemma OctetBits(v: word, i: nat, j: nat)
    requires j < 8
    ensures Bit(Wide(OctetAt(v, i)), j) == Bit(v, 8 * i + j)
  {
    hide Bit, Wide, LowOctetOf, And, Flag;
    var x := ShiftRight(v, 8 * i);
    WideOfLow(x);
    BitAnd(x, 0xff, j);
    WideIsFull();
    FlagIsBit(0xff, j);
    FullFlags(j);
    BitShiftedRight(v, 8 * i, j);
  }

  lemma WideIsFull()
    ensures Wide(0xff) == 0xff
  {
  }

  lemma FullFlags(j: nat)
    requires j < 8
    ensures Flag(0xff, j)
  {
  }

  /** The loop of reverse64: after n turns the n lowest bytes are reversed and on top. */
  function ReversedOctets(v: word, n: nat): word
    requires n <= 8
  {
    if n == 0 then 0
    else Or(ReversedOctets(v, n - 1), ShiftLeft(Wide(ReverseByte(OctetAt(v, n - 1))), 8 * (8 - n)))
  }

  lemma OneReversedOctet(v: word, n: nat, k: nat)
    requires n < 8 && k < 64
    ensures Bit(ShiftLeft(Wide(ReverseByte(OctetAt(v, n))), 8 * (7 - n)), k)
      == (8 * (7 - n) <= k < 8 * (8 - n) && Bit(v, 63 - k))
  {
    hide Bit, Wide, ReverseByte, OctetAt;
    var b, at := OctetAt(v, n), 8 * (7 - n);
    BitShiftedLeft(Wide(ReverseByte(b)), at, k);
    if at <= k < at + 8 {
      ReversedByte(b, k - at);
      OctetBits(v, n, 7 - (k - at));
    } else if at + 8 <= k {
      WideIsLow(ReverseByte(b), k - at);
    }
  }

  lemma {:induction false} ReversedOctetBits(v: word, n: nat, k: nat)
    requires n <= 8 && k < 64
    ensures Bit(ReversedOctets(v, n), k) == (64 - 8 * n <= k && Bit(v, 63 - k))
    decreases n
  {
    hide Bit, Wide, ReverseByte, OctetAt, Or;
    if n == 0 {
      ZeroBits(k);
    } else {
      ReversedOctetBits(v, n - 1, k);
      OneReversedOctet(v, n - 1, k);
      BitOr(ReversedOctets(v, n - 1), ShiftLeft(Wide(ReverseByte(OctetAt(v, n - 1))), 8 * (8 - n)), k);
    }
  }

  /** reverse64. */
  method Reverse64(v: word) returns (r: word)
    ensures forall k :: 0 <= k < 64 ==> Bit(r, k) == Bit(v, 63 - k)
  {
    hide Bit, Wide, ReverseByte, OctetAt, Or, ReversedOctets;
    r := 0;
    NothingReversed(v, 0);
    for i := 0 to 8
      invariant r == ReversedOctets(v, i)
    {
      TurnReverses(v, i);
      r := Or(r, ShiftLeft(Wide(ReverseByte(OctetAt(v, i))), (7 - i) * 8));
    }
    forall k | 0 <= k < 64
      ensures Bit(r, k) == Bit(v, 63 - k)
    {
      ReversedOctetBits(v, 8, k);
    }
  }

  lemma NothingReversed(v: word, n: nat)
    requires n == 0
    ensures ReversedOctets(v, n) == 0
  {
  }

  lemma TurnReverses(v: word, n: nat)
    requires n < 8
    ensures ReversedOctets(v, n + 1)
      == Or(ReversedOctets(v, n), ShiftLeft(Wide(ReverseByte(OctetAt(v, n))), (7 - n) * 8))
  {
    hide Wide, ReverseByte, OctetAt, Or;
  }
}
