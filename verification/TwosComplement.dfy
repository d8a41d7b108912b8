/**
 Bitwise operations on two's complement integers, one bit at a time: a number of
 w bits and a sign is its lowest bit and the number of w - 1 bits above it.
 */
module TwosComplement {
  import opened Arithmetic
  import opened Limbs

  predicate Fits(x: int, w: nat) {
    -Pow(2, w) <= x < Pow(2, w)
  }

  function XorBits(x: int, y: int, w: nat): (z: int)
    requires Fits(x, w) && Fits(y, w)
    ensures Fits(z, w)
    decreases w
  {
    if w == 0 then if x == y then 0 else -1
    else 2 * XorBits(x / 2, y / 2, w - 1) + (if x % 2 == y % 2 then 0 else 1)
  }

  function AndBits(x: int, y: int, w: nat): (z: int)
    requires Fits(x, w) && Fits(y, w)
    ensures Fits(z, w)
    decreases w
  {
    if w == 0 then if x == -1 && y == -1 then -1 else 0
    else 2 * AndBits(x / 2, y / 2, w - 1) + (if x % 2 == 1 && y % 2 == 1 then 1 else 0)
  }

  /** The bits of q where the mask has ones, and those of p elsewhere. */
  function Select(m: int, p: int, q: int, w: nat): (z: int)
    requires Fits(m, w) && Fits(p, w) && Fits(q, w)
    ensures Fits(z, w)
    decreases w
  {
    if w == 0 then if m == -1 then q else p
    else 2 * Select(m / 2, p / 2, q / 2, w - 1) + (if m % 2 == 1 then q % 2 else p % 2)
  }

  lemma LowestBit(x: int, b: int)
    requires 0 <= b <= 1
    ensures (2 * x + b) / 2 == x && (2 * x + b) % 2 == b
  {
  }

  lemma HalfFits(x: int, w: nat)
    requires 0 < w && Fits(x, w)
    ensures Fits(x / 2, w - 1)
  {
  }

  lemma XorUnfolds(x: int, y: int, w: nat)
    requires 0 < w && Fits(x, w) && Fits(y, w) && Fits(x / 2, w - 1) && Fits(y / 2, w - 1)
    ensures var z, b := XorBits(x / 2, y / 2, w - 1), if x % 2 == y % 2 then 0 else 1;
      XorBits(x, y, w) == 2 * z + b && XorBits(x, y, w) / 2 == z && XorBits(x, y, w) % 2 == b
  {
    LowestBit(XorBits(x / 2, y / 2, w - 1), if x % 2 == y % 2 then 0 else 1);
  }

  lemma AndUnfolds(x: int, y: int, w: nat)
    requires 0 < w && Fits(x, w) && Fits(y, w) && Fits(x / 2, w - 1) && Fits(y / 2, w - 1)
    ensures var z, b := AndBits(x / 2, y / 2, w - 1), if x % 2 == 1 && y % 2 == 1 then 1 else 0;
      AndBits(x, y, w) == 2 * z + b && AndBits(x, y, w) / 2 == z && AndBits(x, y, w) % 2 == b
  {
    LowestBit(AndBits(x / 2, y / 2, w - 1), if x % 2 == 1 && y % 2 == 1 then 1 else 0);
  }

  lemma SelectUnfolds(m: int, p: int, q: int, w: nat)
    requires 0 < w && Fits(m, w) && Fits(p, w) && Fits(q, w)
    requires Fits(m / 2, w - 1) && Fits(p / 2, w - 1) && Fits(q / 2, w - 1)
    ensures Select(m, p, q, w) == 2 * Select(m / 2, p / 2, q / 2, w - 1) + (if m % 2 == 1 then q % 2 else p % 2)
  {
  }

  /** Adding the masked difference of p and q to p takes the bits of q where the mask has ones. */
  lemma {:induction false} MaskSelects(m: int, p: int, q: int, w: nat)
    requires Fits(m, w) && Fits(p, w) && Fits(q, w)
    ensures XorBits(p, AndBits(m, XorBits(p, q, w), w), w) == Select(m, p, q, w)
    decreases w
  {
    if w == 0 {
      SelectsSign(m, p, q);
    } else {
      hide XorBits, AndBits, Fits, Select;
      HalfFits(m, w);
      HalfFits(p, w);
      HalfFits(q, w);
      MaskSelects(m / 2, p / 2, q / 2, w - 1);
      XorUnfolds(p, q, w);
      var d := XorBits(p, q, w);
      HalfFits(d, w);
      AndUnfolds(m, d, w);
      var t := AndBits(m, d, w);
      HalfFits(t, w);
      XorUnfolds(p, t, w);
      SelectUnfolds(m, p, q, w);
    }
  }

  lemma SelectsSign(m: int, p: int, q: int)
    requires Fits(m, 0) && Fits(p, 0) && Fits(q, 0)
    ensures XorBits(p, AndBits(m, XorBits(p, q, 0), 0), 0) == Select(m, p, q, 0)
  {
  }

  lemma {:induction false} XorSymmetric(x: int, y: int, w: nat)
    requires Fits(x, w) && Fits(y, w)
    ensures XorBits(x, y, w) == XorBits(y, x, w)
    decreases w
  {
    if w != 0 {
      XorSymmetric(x / 2, y / 2, w - 1);
    }
  }

  lemma {:induction false} SelectAll(p: int, q: int, w: nat)
    requires Fits(p, w) && Fits(q, w)
    ensures Fits(-1, w) && Select(-1, p, q, w) == q
    ensures Fits(0, w) && Select(0, p, q, w) == p
    decreases w
  {
    if w != 0 {
      SelectAll(p / 2, q / 2, w - 1);
    }
  }

  lemma Int64Width(x: int)
    ensures Fits(x, 63) <==> InInt64(x)
  {
    PowAdds(2, 4, 4);
    PowAdds(2, 8, 8);
    PowAdds(2, 16, 16);
    PowAdds(2, 32, 16);
    PowAdds(2, 48, 8);
    PowAdds(2, 56, 4);
    PowAdds(2, 60, 3);
    assert Pow(2, 63) == 0x8000_0000_0000_0000;
  }

  function Not(x: int64): int64 { -1 - x }

  function Xor(x: int64, y: int64): int64 {
    Int64Width(x as int);
    Int64Width(y as int);
    Int64Width(XorBits(x as int, y as int, 63));
    XorBits(x as int, y as int, 63) as int64
  }

  function And(x: int64, y: int64): int64 {
    Int64Width(x as int);
    Int64Width(y as int);
    Int64Width(AndBits(x as int, y as int, 63));
    AndBits(x as int, y as int, 63) as int64
  }

  /** Where the mask -bit has ones, the bits of p and q change places: all bits for 1, and none for 0. */
  function Exchanged(bit: int64, p: int64, q: int64): int64
    requires -0x8000_0000_0000_0000 < bit
  {
    SelectInside(bit, p, q);
    Select(-(bit as int), p as int, q as int, 63) as int64
  }

  lemma SelectInside(bit: int64, p: int64, q: int64)
    requires -0x8000_0000_0000_0000 < bit
    ensures Fits(-(bit as int), 63) && Fits(p as int, 63) && Fits(q as int, 63)
    ensures InInt64(Select(-(bit as int), p as int, q as int, 63))
  {
    hide Select, Fits;
    Int64Width(-(bit as int));
    Int64Width(p as int);
    Int64Width(q as int);
    Int64Width(Select(-(bit as int), p as int, q as int, 63));
  }

  lemma ExchangedAll(bit: int64, p: int64, q: int64)
    requires bit == 0 || bit == 1
    ensures Exchanged(bit, p, q) == if bit == 1 then q else p
  {
    hide Select, Fits;
    SelectInside(bit, p, q);
    SelectAll(p as int, q as int, 63);
  }

  /** A swap by masking exchanges the bits that the mask selects. */
  lemma MaskedExchange(p: int64, q: int64, bit: int64)
    requires -0x8000_0000_0000_0000 < bit
    ensures var t := And(Not(bit - 1), Xor(p, q));
      Xor(p, t) == Exchanged(bit, p, q) && Xor(q, t) == Exchanged(bit, q, p)
  {
    hide XorBits, AndBits, Fits, Select;
    Int64Width(p as int);
    Int64Width(q as int);
    Int64Width(-(bit as int));
    MaskSelects(-(bit as int), p as int, q as int, 63);
    MaskSelects(-(bit as int), q as int, p as int, 63);
    XorSymmetric(p as int, q as int, 63);
  }

  method Swap(p: array<int64>, q: array<int64>, bit: int64)
    requires p.Length == q.Length == 16 && p != q
    requires -0x8000_0000_0000_0000 < bit
    modifies p, q
    ensures forall k :: 0 <= k < 16 ==>
      p[k] == Exchanged(bit, old(p[k]), old(q[k])) && q[k] == Exchanged(bit, old(q[k]), old(p[k]))
    ensures bit == 0 ==> p[..] == old(p[..]) && q[..] == old(q[..])
    ensures bit == 1 ==> p[..] == old(q[..]) && q[..] == old(p[..])
  {
    hide Xor, And, Not, Exchanged;
    var c := Not(bit - 1);
    for i := 0 to 16
      invariant forall k :: 0 <= k < i ==>
        p[k] == Exchanged(bit, old(p[k]), old(q[k])) && q[k] == Exchanged(bit, old(q[k]), old(p[k]))
      invariant forall k :: i <= k < 16 ==> p[k] == old(p[k]) && q[k] == old(q[k])
    {
      MaskedExchange(p[i], q[i], bit);
      var t := And(c, Xor(p[i], q[i]));
      p[i] := Xor(p[i], t);
      q[i] := Xor(q[i], t);
    }
    if bit == 0 || bit == 1 {
      forall k | 0 <= k < 16
        ensures p[k] == if bit == 1 then old(q[k]) else old(p[k])
        ensures q[k] == if bit == 1 then old(p[k]) else old(q[k])
      {
        ExchangedAll(bit, old(p[k]), old(q[k]));
        ExchangedAll(bit, old(q[k]), old(p[k]));
      }
    }
  }
}
