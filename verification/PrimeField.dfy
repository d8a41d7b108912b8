/**
 Residues modulo p = 2^255 - 19, the coordinate field of Curve25519
 (section 4.1 of RFC 7748), and the few laws that limb arithmetic needs.
 */
module PrimeField {
  import opened Arithmetic

  type modulus = p: int | 2 < p witness 3

  /** 2^255 - 19. Its digits are only known to proofs that ask for them. */
  const P: modulus := Prime()

  function Prime(): modulus {
    PowerOf255();
    Pow(2, 255) - 19
  }

  lemma PowerOf255()
    ensures Pow(2, 255) == 0x8000_0000_0000_0000_0000_0000_0000_0000_0000_0000_0000_0000_0000_0000_0000_0000
  {
    PowAdds(2, 128, 127);
    PowAdds(2, 64, 64);
    PowAdds(2, 64, 63);
    PowAdds(2, 32, 32);
    PowAdds(2, 32, 31);
    PowAdds(2, 16, 16);
    PowAdds(2, 16, 15);
    PowAdds(2, 8, 8);
    PowAdds(2, 8, 7);
    assert Pow(2, 8) == 256 && Pow(2, 7) == 128;
  }

  lemma PrimeIs()
    ensures P == 0x7fff_ffff_ffff_ffff_ffff_ffff_ffff_ffff_ffff_ffff_ffff_ffff_ffff_ffff_ffff_ffed
    ensures Pow(2, 255) == P + 19
  {
    PowerOf255();
  }

  function Add(x: int, y: int): int { (x + y) % P }

  function Sub(x: int, y: int): int { (x - y) % P }

  function Mul(x: int, y: int): int { (x * y) % P }

  function Power(x: int, e: nat): int {
    if e == 0 then 1 else Mul(Power(x, e - 1), x)
  }

  /** Adding a multiple of the modulus keeps the residue. */
  lemma AddMultiple(x: int, k: int)
    ensures (x + k * P) % P == x % P
  {
    Expand(P, x / P, k);
    DivisionIsUnique(x + k * P, P, x / P + k, x % P);
  }

  lemma ResidueIs(x: int)
    requires 0 <= x < P
    ensures x % P == x
  {
    DivisionIsUnique(x, P, 0, x);
  }

  lemma AddResidues(x: int, y: int)
    ensures Add(x % P, y % P) == (x + y) % P
    ensures Sub(x % P, y % P) == (x - y) % P
  {
    WithRest(x);
    WithRest(y);
    SumOfRests(x, y, x / P, y / P, x % P, y % P);
    MulAssociative(-1, y / P, P);
    SumOfRests(x, -y, x / P, -(y / P), x % P, -(y % P));
  }

  lemma WithRest(x: int)
    ensures x == (x / P) * P + x % P
  {
  }

  lemma SumOfRests(x: int, y: int, q: int, s: int, r: int, t: int)
    requires x == q * P + r && y == s * P + t
    ensures (r + t) % P == (x + y) % P
  {
    Expand(P, q, s);
    AddMultiple(r + t, q + s);
  }

  lemma MulLeft(x: int, y: int)
    ensures Mul(x % P, y) == Mul(x, y)
  {
    var q, r := x / P, x % P;
    calc {
      x * y;
      (r + q * P) * y;
      { Expand(y, r, q * P); }
      r * y + (q * P) * y;
      { MulAssociative(q, P, y); MulAssociative(q, y, P); }
      r * y + (q * y) * P;
    }
    AddMultiple(r * y, q * y);
  }

  lemma MulCommutative(x: int, y: int)
    ensures Mul(x, y) == Mul(y, x)
  {
  }

  lemma MulResidues(x: int, y: int)
    ensures Mul(x % P, y % P) == (x * y) % P
  {
    MulLeft(x, y % P);
    MulCommutative(x, y % P);
    MulLeft(y, x);
    MulCommutative(x, y);
  }

  lemma MulAssociativeMod(x: int, y: int, z: int)
    ensures Mul(Mul(x, y), z) == Mul(x, Mul(y, z))
  {
    calc {
      Mul(Mul(x, y), z);
      { MulLeft(x * y, z); }
      Mul(x * y, z);
      { MulAssociative(x, y, z); }
      Mul(y * z, x);
      { MulLeft(y * z, x); }
      Mul(Mul(y, z), x);
      { MulCommutative(Mul(y, z), x); }
      Mul(x, Mul(y, z));
    }
  }

  /** Squares forget the sign of a difference. */
  lemma SquareOfDifference(x: int, y: int)
    ensures Mul(Sub(x, y), Sub(x, y)) == Mul(Sub(y, x), Sub(y, x))
  {
    MulResidues(x - y, x - y);
    MulResidues(y - x, y - x);
    assert (x - y) * (x - y) == (y - x) * (y - x);
  }

  lemma {:induction false} PowerAdds(x: int, m: nat, n: nat)
    ensures Power(x, m + n) == Mul(Power(x, m), Power(x, n))
  {
    if n == 0 {
      PowerReduced(x, m);
    } else {
      PowerAdds(x, m, n - 1);
      MulAssociativeMod(Power(x, m), Power(x, n - 1), x);
    }
  }

  /** Powers are already residues. */
  lemma PowerReduced(x: int, e: nat)
    ensures 0 <= Power(x, e) < P
    ensures Mul(Power(x, e), 1) == Power(x, e)
  {
    PowerInRange(x, e);
    hide Power;
    ResidueIs(Power(x, e));
  }

  lemma PowerInRange(x: int, e: nat)
    ensures 0 <= Power(x, e) < P
  {
    hide Mul;
    if e != 0 {
      ProductInRange(Power(x, e - 1), x);
    }
  }

  lemma ProductInRange(x: int, y: int)
    ensures 0 <= Mul(x, y) < P
  {
  }
}
