/**
 X25519 over a whole run: the ladder computes the multiple of a curve point that the scalar
 says, and two parties that exchange their results agree (sections 5 and 6.1 of RFC 7748).
 */
module Agreement {
  import opened Arithmetic
  import opened Bytes
  import opened PrimeField
  import opened Packing
  import opened Rfc7748
  import opened ScalarMult
  import opened Montgomery

  // What the clamped scalar is.

  /** A clamped scalar is a multiple of eight from 2^254 on and below 2^255. */
  lemma ClampedScalar(k: seq<octet>)
    requires |k| == 32
    ensures DecodeScalar(k) % 8 == 0 && Pow(2, 254) <= DecodeScalar(k) < Pow(2, 255)
  {
    var c := Clamp(k);
    hide Pow, Pow256, LittleEndian, Above, Clamp;
    ClampedOctets(k);
    SplitAbove(c, 31);
    OctetRange(c, 31);
    TopPowers();
    TopOctet(c);
    LowOctet(c);
    TopRange(LittleEndian(c, 31), c[31], Pow256(31));
  }

  lemma ClampedOctets(k: seq<octet>)
    requires |k| == 32
    ensures Clamp(k)[0] % 8 == 0 && 64 <= Clamp(k)[31] <= 127
  {
    DivisionIsUnique(k[0] - k[0] % 8, 8, k[0] / 8, 0);
  }

  lemma TopPowers()
    ensures Pow(2, 254) == Pow256(31) * 64 && Pow(2, 255) == Pow256(31) * 128
  {
    PowOctet(31);
    PowAdds(2, 248, 6);
    PowAdds(2, 248, 7);
    assert Pow(2, 6) == 64 && Pow(2, 7) == 128;
  }

  lemma TopRange(low: int, top: int, w: int)
    requires 0 <= low < w && 64 <= top <= 127
    ensures w * 64 <= low + top * w < w * 128
  {
    ScaleOrder(64, top, w);
    ScaleOrder(top, 127, w);
  }

  lemma TopOctet(c: seq<octet>)
    requires |c| == 32
    ensures Above(c, 31) == c[31]
  {
    assert Above(c, 32) == 0;
  }

  lemma LowOctet(c: seq<octet>)
    requires |c| == 32 && c[0] % 8 == 0
    ensures LittleEndian(c, 32) % 8 == 0
  {
    SplitAbove(c, 1);
    FirstOctet(c);
    hide Above, LittleEndian, Pow256;
    MultipleOfEight(c[0], Above(c, 1));
  }

  lemma FirstOctet(c: seq<octet>)
    requires 0 < |c|
    ensures LittleEndian(c, 1) == c[0] && Pow256(1) == 0x100
  {
    assert LittleEndian(c, 0) == 0;
  }

  lemma MultipleOfEight(x: int, h: int)
    requires x % 8 == 0
    ensures (x + h * 0x100) % 8 == 0
  {
    assert x + h * 0x100 == 8 * (x / 8 + 32 * h);
  }

  /** Bits 3 to 253 are those of the octets given. */
  lemma ClampKeepsBits(k: seq<octet>, t: nat)
    requires |k| == 32 && 3 <= t < 254
    ensures Bit(DecodeScalar(k), t) == Bit(LittleEndian(k, 32), t)
  {
    hide Bit, LittleEndian;
    BitOfOctets(Clamp(k), t);
    BitOfOctets(k, t);
    if t / 8 == 0 {
      LowBits(k[0], t);
    } else if t / 8 == 31 {
      HighBits(k[31], t - 248);
    }
  }

  lemma LowBits(x: octet, t: nat)
    requires 3 <= t < 8
    ensures Bit(x - x % 8, t) == Bit(x, t)
  {
    PowAdds(2, 3, t - 3);
    PowPositive(2, t - 3);
    assert Pow(2, 3) == 8;
    DivideTwice(x, 8, Pow(2, t - 3));
    DivideTwice(x - x % 8, 8, Pow(2, t - 3));
  }

  lemma HighBits(x: octet, t: nat)
    requires t < 6
    ensures Bit(x % 64 + 64, t) == Bit(x, t)
  {
    PowPositive(2, t);
    PowAdds(2, t, 5 - t);
    assert Pow(2, 5) == 32;
    assert x == x % 64 + 64 * (x / 64);
    BitBelow(x % 64, 1, Pow(2, t), Pow(2, 5 - t));
    BitBelow(x % 64, x / 64, Pow(2, t), Pow(2, 5 - t));
  }

  /** Multiples of 64 do not change the bits below. */
  lemma BitBelow(x: int, h: int, p: int, q: int)
    requires 0 < p && p * q == 32
    ensures (x + 64 * h) / p % 2 == x / p % 2
  {
    var y := q * h;
    MulAssociative(p, q, h);
    MulAssociative(2, y, p);
    Expand(p, x / p, 2 * y);
    assert x == (x / p) * p + x % p;
    DivisionIsUnique(x + 64 * h, p, x / p + 2 * y, x % p);
  }

  // The ladder on the multiples of a point.

  ghost predicate Adds(m: nat -> Point, i: nat, j: nat) {
    IsSum(m(i), m(j), m(i + j)) && IsSum(m(i + j), Negated(m(j)), m(i))
  }

  /** The multiples of a point with the coordinate u, by the chord and tangent law. */
  ghost predicate Multiples(m: nat -> Point, u: int) {
    && m(0).Infinity? && m(1).Affine? && Cong(m(1).u, u)
    && (forall i: nat :: OnCurve(m(i)))
    && (forall i: nat, j: nat :: Adds(m, i, j))
  }

  /** The two points after the bits from t on, with the pending swap done. */
  ghost function Pair(k: nat, x1: int, t: nat): Points
    requires t <= 255
  {
    Cswap(Ladder(k, x1, t).1, Ladder(k, x1, t).0)
  }

  lemma PairStep(k: nat, x1: int, t: nat)
    requires t < 255
    ensures Pair(k, x1, t) == Cswap(Bit(k, t), Step(x1, Cswap(Bit(k, t), Pair(k, x1, t + 1))))
  {
    hide Step, Bit;
    LadderUnfolds(k, x1, t, Pair(k, x1, t + 1), Bit(k, t),
      Cswap(Bit(k, t), Step(x1, Cswap(Bit(k, t), Pair(k, x1, t + 1)))));
  }

  function Prefix(k: nat, t: nat): nat {
    PowPositive(2, t);
    k / Pow(2, t)
  }

  lemma PrefixStep(k: nat, t: nat)
    ensures Prefix(k, t) == 2 * Prefix(k, t + 1) + Bit(k, t)
  {
    PowPositive(2, t);
    DivideTwice(k, Pow(2, t), 2);
  }

  lemma RepresentsCong(x: int, z: int, v: int, w: int, q: Point)
    requires Represents(x, z, q) && Cong(x, v) && Cong(z, w)
    ensures Represents(v, w, q)
  {
    hide Rest, Unit;
    match q
    case Infinity => UnitCong(x, v);
    case Affine(u, _) =>
      UnitCong(z, w);
      CongProducts(u, u, z, w);
  }

  /** The sum does not depend on which of the two points comes first. */
  lemma SwappedSum(x1: int, p: Points)
    ensures Cong(Step(x1, p).x3, Step(x1, Cswap(1, p)).x3) && Cong(Step(x1, p).z3, Step(x1, Cswap(1, p)).z3)
  {
    hide Rest, Step, Sq;
    var r := Cswap(1, p);
    StepAdds(x1, p);
    StepAdds(x1, r);
    SquareOfNegated(p.x3 * p.z2 - p.z3 * p.x2);
    assert r.x3 * r.z2 - r.z3 * r.x2 == -(p.x3 * p.z2 - p.z3 * p.x2);
  }

  /** One round takes the multiples n and n + 1 to 2n + b and 2n + b + 1. */
  lemma RoundOnMultiples(x1: int, p: Points, m: nat -> Point, n: nat, bit: int)
    requires Multiples(m, x1) && Unit(x1) && 0 <= bit <= 1
    requires Represents(p.x2, p.z2, m(n)) && Represents(p.x3, p.z3, m(n + 1))
    ensures var r := Cswap(bit, Step(x1, Cswap(bit, p)));
      Represents(r.x2, r.z2, m(2 * n + bit)) && Represents(r.x3, r.z3, m(2 * n + bit + 1))
  {
    hide Rest, Step, Unit, Represents, OnCurve, IsSum;
    assert Adds(m, n, n + 1) && Adds(m, 1, n) && n + (n + 1) == 2 * n + 1 && 1 + n == n + 1;
    SumRepresented(x1, p, m(n), m(n + 1), m(1), m(2 * n + 1));
    if bit == 0 {
      assert Adds(m, n, n) && n + n == 2 * n;
      DoubleRepresented(x1, p, m(n), m(2 * n));
    } else {
      var s := Cswap(1, p);
      assert Adds(m, n + 1, n + 1) && (n + 1) + (n + 1) == 2 * n + 2;
      DoubleRepresented(x1, s, m(n + 1), m(2 * n + 2));
      SwappedSum(x1, p);
      RepresentsCong(Step(x1, p).x3, Step(x1, p).z3, Step(x1, s).x3, Step(x1, s).z3, m(2 * n + 1));
    }
  }

  lemma LadderBegins(x1: int, m: nat -> Point)
    requires Multiples(m, x1)
    ensures Represents(1, 0, m(0)) && Represents(x1, 1, m(1))
  {
    assert Cong(1 * 1, 1);
  }

  /** After the bits from t on, the two points are the multiples by that prefix of the scalar and by the next number. */
  lemma {:induction false} LadderOnMultiples(k: nat, x1: int, t: nat, m: nat -> Point)
    requires k < Pow(2, 255) && t <= 255 && Multiples(m, x1) && Unit(x1)
    ensures var p, n := Pair(k, x1, t), Prefix(k, t);
      Represents(p.x2, p.z2, m(n)) && Represents(p.x3, p.z3, m(n + 1))
    decreases 255 - t
  {
    hide Rest, Step, Unit, Represents, Multiples, Bit, Pow;
    if t == 255 {
      LadderBegins(x1, m);
      PowPositive(2, 255);
      DivisionIsUnique(k, Pow(2, 255), 0, k);
    } else {
      LadderOnMultiples(k, x1, t + 1, m);
      PairStep(k, x1, t);
      PrefixStep(k, t);
      RoundOnMultiples(x1, Pair(k, x1, t + 1), m, Prefix(k, t + 1), Bit(k, t));
    }
  }

  // The value of X25519.

  /** Fermat's little theorem for p, which is prime. */
  ghost predicate Fermat() {
    forall x: int :: Rest(x) != 0 ==> Power(x, P - 1) == 1
  }

  lemma UnitIsNotZero(x: int)
    requires Unit(x)
    ensures Rest(x) != 0
  {
    var w :| Cong(w * x, 1);
    hide Rest;
    RestOfZero();
    SmallUnits();
    if Rest(x) == 0 {
      CongProducts(w, w, x, 0);
    }
  }

  lemma UnitOrZero(x: int)
    requires Fermat()
    ensures Cong(x, 0) || Unit(x)
  {
    if Rest(x) != 0 {
      assert Power(x, P - 1) == Mul(Power(x, P - 2), x);
      FieldCong(Power(x, P - 2), x);
      assert Cong(Power(x, P - 2) * x, 1);
    }
  }

  /** The u-coordinate, and zero for the point at infinity. */
  function Coordinate(q: Point): int {
    if q.Infinity? then 0 else Rest(q.u)
  }

  lemma PowerOfZero(z: int, e: nat)
    requires Cong(z, 0) && 0 < e
    ensures Power(z, e) == 0
  {
    CongProducts(Power(z, e - 1), Power(z, e - 1), z, 0);
  }

  /** x * z^(p - 2) is x / z, and zero when z is. */
  lemma QuotientIsCoordinate(x: int, z: int, q: Point)
    requires Fermat() && Represents(x, z, q)
    ensures Mul(x, Power(z, P - 2)) == Coordinate(q)
  {
    hide Rest, Unit, Power, Mul;
    var y := Power(z, P - 2);
    match q
    case Infinity =>
      PowerOfZero(z, P - 2);
      TimesZero(x);
    case Affine(u, _) =>
      InverseByPower(z);
      CongProducts(x, u * z, y, y);
      CongProducts(u, u, y * z, 1);
      MulAssociative(u, z, y);
      Reduced(x, y, u);
  }

  lemma InverseByPower(z: int)
    requires Fermat() && Unit(z)
    ensures Cong(Power(z, P - 2) * z, 1)
  {
    UnitIsNotZero(z);
    assert Power(z, P - 1) == Mul(Power(z, P - 2), z);
    hide Rest, Power;
    FieldCong(Power(z, P - 2), z);
  }

  lemma Reduced(x: int, y: int, u: int)
    requires Cong(x * y, u)
    ensures Mul(x, y) == Rest(u)
  {
  }

  lemma X25519Ends(k: seq<octet>, u: seq<octet>)
    requires |k| == |u| == 32
    ensures var q := Pair(DecodeScalar(k), DecodeU(u), 0); X25519(k, u) == Mul(q.x2, Power(q.z2, P - 2))
  {
    hide Mul, Power, Ladder, DecodeScalar, DecodeU;
  }

  /** X25519 is the u-coordinate of the multiple that the clamped scalar says. */
  lemma X25519IsMultiple(k: seq<octet>, u: seq<octet>, m: nat -> Point)
    requires |k| == |u| == 32 && Fermat() && Multiples(m, DecodeU(u)) && Unit(DecodeU(u))
    ensures X25519(k, u) == Coordinate(m(DecodeScalar(k)))
  {
    hide Rest, Unit, Represents, Multiples, Pow, Mul, Power, DecodeScalar, DecodeU, Fermat;
    var n, x1 := DecodeScalar(k), DecodeU(u);
    ClampedScalar(k);
    LadderOnMultiples(n, x1, 0, m);
    WholePrefix(n);
    X25519Ends(k, u);
    var q := Pair(n, x1, 0);
    QuotientIsCoordinate(q.x2, q.z2, m(n));
  }

  lemma WholePrefix(n: nat)
    ensures Prefix(n, 0) == n
  {
  }

  /** With u = 0 every pair is a multiple of a point of order two: even ones vanish in z, odd ones in x. */
  lemma {:induction false} LadderOnZero(k: nat, x1: int, t: nat)
    requires k < Pow(2, 255) && t <= 255 && Cong(x1, 0)
    ensures var p := Pair(k, x1, t);
      if Prefix(k, t) % 2 == 0 then Cong(p.z2, 0) && Cong(p.x3, 0) else Cong(p.x2, 0) && Cong(p.z3, 0)
    decreases 255 - t
  {
    hide Rest, Step, Bit, Pow;
    if t == 255 {
      PowPositive(2, 255);
      DivisionIsUnique(k, Pow(2, 255), 0, k);
    } else {
      LadderOnZero(k, x1, t + 1);
      PairStep(k, x1, t);
      PrefixStep(k, t);
      var p := Pair(k, x1, t + 1);
      StepOnZero(x1, p);
      StepOnZero(x1, Cswap(1, p));
    }
  }

  lemma StepOnZero(x1: int, p: Points)
    requires (Cong(p.z2, 0) && Cong(p.x3, 0)) || (Cong(p.x2, 0) && Cong(p.z3, 0))
    ensures Cong(Step(x1, p).z2, 0) && Cong(Step(x1, p).x3, 0)
  {
    hide Rest, Step, Sq;
    StepDoubles(x1, p);
    StepAdds(x1, p);
    CongProducts(p.x2, if Cong(p.x2, 0) then 0 else p.x2, p.z2, if Cong(p.z2, 0) then 0 else p.z2);
    var e := p.x2 * p.x2 + A * (p.x2 * p.z2) + p.z2 * p.z2;
    CongProducts(4, 4, p.x2 * p.z2, 0);
    CongProducts(4 * (p.x2 * p.z2), 0, e, e);
    CongProducts(p.x2, if Cong(p.x2, 0) then 0 else p.x2, p.x3, if Cong(p.x3, 0) then 0 else p.x3);
    CongProducts(p.z2, if Cong(p.z2, 0) then 0 else p.z2, p.z3, if Cong(p.z3, 0) then 0 else p.z3);
    CongSums(p.x2 * p.x3, 0, p.z2 * p.z3, 0);
    CongSquares(p.x2 * p.x3 - p.z2 * p.z3, 0);
    SquareIs(0);
    CongProducts(4, 4, Sq(p.x2 * p.x3 - p.z2 * p.z3), 0);
  }

  lemma X25519OfZero(k: seq<octet>, u: seq<octet>)
    requires |k| == |u| == 32 && Cong(DecodeU(u), 0)
    ensures X25519(k, u) == 0
  {
    hide Rest, Pow, Power, Mul, DecodeScalar, DecodeU, X25519, Pair;
    var n := DecodeScalar(k);
    ClampedScalar(k);
    EvenNumber(n);
    LadderOnZero(n, DecodeU(u), 0);
    WholePrefix(n);
    X25519Ends(k, u);
    var q := Pair(n, DecodeU(u), 0);
    hide Prefix;
    PrimeIs();
    PowerOfZero(q.z2, P - 2);
    TimesZero(q.x2);
  }

  lemma EvenNumber(n: nat)
    requires n % 8 == 0
    ensures n % 2 == 0 && n == 2 * (n / 2)
  {
    DivisionIsUnique(n, 2, 4 * (n / 8), 0);
  }

  lemma TimesZero(x: int)
    ensures Mul(x, 0) == 0
  {
    ResidueIs(0);
  }

  // Two parties.

  function Product(i: nat, j: nat): nat { i * j }

  lemma ProductOfSum(i: nat, j: nat, k: nat)
    ensures Product(i, j) + Product(i, k) == Product(i, j + k)
    ensures Product(i, 0) == 0 && Product(i, 1) == i
  {
    Expand(i, j, k);
  }

  lemma {:induction false} InfiniteMultiples(m: nat -> Point, u: int, i: nat, n: nat)
    requires Multiples(m, u) && m(i).Infinity?
    ensures m(Product(i, n)).Infinity?
  {
    hide Rest, OnCurve, Product;
    ProductOfSum(i, 0, 0);
    if n != 0 {
      InfiniteMultiples(m, u, i, n - 1);
      assert Adds(m, Product(i, n - 1), i);
      ProductOfSum(i, n - 1, 1);
    }
  }

  /** A point with u = 0 has order two. */
  lemma DoubleOfZero(q: Point, sum: Point)
    requires q.Affine? && Cong(q.u, 0) && OnCurve(q) && IsSum(q, q, sum)
    ensures sum.Infinity?
  {
    hide Rest, Unit, Sq, F;
    if sum.Affine? {
      var v := q.v;
      var s :| Quotient(s, 3 * Sq(q.u) + 2 * A * q.u + 1, 2 * v) && OnLine(s, q, q, sum);
      UnitSquares(2 * v);
      SquareOfTwice(v);
      ZeroOnCurve(q.u);
      CongProducts(4, 4, Sq(v), 0);
      UnitCong(Sq(2 * v), 0);
      UnitIsNotZero(0);
      RestOfZero();
    }
  }

  lemma RestOfZero()
    ensures Rest(0) == 0
  {
  }

  lemma ZeroOnCurve(u: int)
    requires Cong(u, 0)
    ensures Cong(F(u), 0)
  {
    CongProducts(u, 0, u * u + A * u + 1, u * u + A * u + 1);
  }

  /** The multiples of a multiple. */
  lemma MultiplesOfMultiple(m: nat -> Point, u: int, b: nat)
    requires Multiples(m, u) && m(b).Affine?
    ensures Multiples((n: nat) => m(Product(b, n)), Rest(m(b).u))
  {
    var mb := (n: nat) => m(Product(b, n));
    hide OnCurve, IsSum, Rest, Cong, Product;
    RestTwice(m(b).u);
    ProductOfSum(b, 0, 0);
    forall i: nat
      ensures OnCurve(mb(i))
    {
      assert OnCurve(m(Product(b, i)));
    }
    forall i: nat, j: nat
      ensures Adds(mb, i, j)
    {
      ProductOfSum(b, i, j);
      assert Adds(m, Product(b, i), Product(b, j));
    }
  }

  lemma HalfProduct(n: nat, h: nat)
    ensures Product(2 * n, h) == Product(n, 2 * h)
  {
  }

  /** What one party makes of the other's result. */
  lemma SharedValue(a: seq<octet>, b: seq<octet>, u: seq<octet>, yb: seq<octet>, m: nat -> Point)
    requires |a| == |b| == |u| == |yb| == 32 && Fermat() && Multiples(m, DecodeU(u)) && Unit(DecodeU(u))
    requires LittleEndian(yb, 32) == X25519(b, u)
    ensures X25519(a, yb) == Coordinate(m(Product(DecodeScalar(b), DecodeScalar(a))))
  {
    hide Rest, Unit, Multiples, Fermat, X25519, DecodeScalar, DecodeU, Coordinate;
    var n := DecodeScalar(b);
    X25519IsMultiple(b, u, m);
    CoordinateDecoded(yb, m(n));
    ValueFromMultiple(a, yb, DecodeU(u), m, n);
  }

  lemma ValueFromMultiple(a: seq<octet>, y: seq<octet>, u: int, m: nat -> Point, n: nat)
    requires |a| == |y| == 32 && Fermat() && Multiples(m, u) && DecodeU(y) == Coordinate(m(n))
    ensures X25519(a, y) == Coordinate(m(Product(n, DecodeScalar(a))))
  {
    hide Rest, Unit, Multiples, Fermat, X25519, DecodeScalar, DecodeU, Product;
    if m(n).Infinity? {
      X25519OfZero(a, y);
      InfiniteMultiples(m, u, n, DecodeScalar(a));
    } else {
      var v := m(n).u;
      UnitOrZero(v);
      RestTwice(v);
      if Cong(v, 0) {
        X25519OfZero(a, y);
        SmallOrder(m, u, n, a);
      } else {
        MultiplesOfMultiple(m, u, n);
        UnitCong(v, Rest(v));
        X25519IsMultiple(a, y, (i: nat) => m(Product(n, i)));
      }
    }
  }

  lemma RestTwice(x: int)
    ensures Cong(x, Rest(x))
  {
    ResidueIs(x % P);
  }

  lemma ProductCommutes(i: nat, j: nat)
    ensures Product(i, j) == Product(j, i)
  {
  }

  lemma CoordinateDecoded(y: seq<octet>, q: Point)
    requires |y| == 32
    ensures LittleEndian(y, 32) == Coordinate(q) ==> DecodeU(y) == Coordinate(q)
    ensures q.Infinity? ==> Coordinate(q) == 0
  {
    PrimeIs();
    hide Pow, LittleEndian;
    var c := Coordinate(q);
    assert 0 <= c < P;
    ResidueIs(c);
    DivisionIsUnique(c, Pow(2, 255), 0, c);
  }

  lemma SmallOrder(m: nat -> Point, u: int, n: nat, a: seq<octet>)
    requires |a| == 32 && Multiples(m, u) && m(n).Affine? && Cong(m(n).u, 0)
    ensures Coordinate(m(Product(n, DecodeScalar(a)))) == 0
  {
    hide Rest, DecodeScalar, IsSum, OnCurve, Pow, Product;
    var k := DecodeScalar(a);
    ClampedScalar(a);
    EvenNumber(k);
    assert Adds(m, n, n) && n + n == 2 * n;
    DoubleOfZero(m(n), m(2 * n));
    InfiniteMultiples(m, u, 2 * n, k / 2);
    HalfProduct(n, k / 2);
  }

  /** Both parties end with the same octets: each applies its scalar to what the other one has sent. */
  lemma SharedSecret(a: seq<octet>, b: seq<octet>, u: seq<octet>, ya: seq<octet>, yb: seq<octet>, m: nat -> Point)
    requires |a| == |b| == |u| == |ya| == |yb| == 32 && Fermat() && Multiples(m, DecodeU(u))
    requires LittleEndian(ya, 32) == X25519(a, u) && LittleEndian(yb, 32) == X25519(b, u)
    ensures X25519(a, yb) == X25519(b, ya)
  {
    hide Rest, Unit, Multiples, Fermat, X25519, DecodeScalar, DecodeU;
    UnitOrZero(DecodeU(u));
    RestOfZero();
    if Cong(DecodeU(u), 0) {
      X25519OfZero(a, u);
      X25519OfZero(b, u);
      CoordinateDecoded(ya, Infinity);
      CoordinateDecoded(yb, Infinity);
      X25519OfZero(a, yb);
      X25519OfZero(b, ya);
    } else {
      SharedValue(a, b, u, yb, m);
      SharedValue(b, a, u, ya, m);
      ProductCommutes(DecodeScalar(a), DecodeScalar(b));
    }
  }

  /** Octets are determined by their number. */
  lemma {:induction false} LittleEndianInjective(x: seq<octet>, y: seq<octet>, n: nat)
    requires n <= |x| && n <= |y| && LittleEndian(x, n) == LittleEndian(y, n)
    ensures x[..n] == y[..n]
  {
    if n != 0 {
      var w := Pow256(n - 1);
      OctetRange(x, n - 1);
      OctetRange(y, n - 1);
      DivisionIsUnique(LittleEndian(x, n), w, x[n - 1], LittleEndian(x, n - 1));
      DivisionIsUnique(LittleEndian(y, n), w, y[n - 1], LittleEndian(y, n - 1));
      LittleEndianInjective(x, y, n - 1);
      assert x[..n] == x[..n - 1] + [x[n - 1]] && y[..n] == y[..n - 1] + [y[n - 1]];
    }
  }

  /** Two parties make public keys from their private ones, exchange them, and end with the same secret. */
  method Exchange(a: array<octet>, b: array<octet>, ghost m: nat -> Point) returns (sa: array<octet>, sb: array<octet>)
    requires a.Length == b.Length == 32 && Fermat() && Multiples(m, 9)
    ensures fresh(sa) && fresh(sb) && sa.Length == sb.Length == 32 && sa[..] == sb[..]
  {
    hide Fermat, Multiples, X25519, LittleEndian;
    ghost var base := BaseOctets();
    var ya, yb := new octet[32], new octet[32];
    sa, sb := new octet[32], new octet[32];
    ScalarMultiplyBase(ya, a);
    ScalarMultiplyBase(yb, b);
    ScalarMultiply(sa, a, yb);
    ScalarMultiply(sb, b, ya);
    BaseIsNine();
    SharedSecret(a[..], b[..], base, ya[..], yb[..], m);
    LittleEndianInjective(sa[..], sb[..], 32);
    assert sa[..] == sa[..][..32] && sb[..] == sb[..][..32];
  }

  function BaseOctets(): (s: seq<octet>)
    ensures |s| == 32 && s == seq(32, i => if i == 0 then 9 else 0)
  {
    seq(32, i => if i == 0 then 9 else 0)
  }

  lemma BaseIsNine()
    ensures DecodeU(BaseOctets()) == 9
  {
    var s := BaseOctets();
    OnlyFirst(s, 32);
    PrimeIs();
    hide Pow, LittleEndian;
    ResidueIs(9);
    DivisionIsUnique(9, Pow(2, 255), 0, 9);
  }

  lemma {:induction false} OnlyFirst(s: seq<octet>, n: nat)
    requires 0 < n <= |s| && forall k :: 1 <= k < n ==> s[k] == 0
    ensures LittleEndian(s, n) == s[0]
  {
    if n == 1 {
      assert LittleEndian(s, 0) == 0 && Pow256(0) == 1;
    } else {
      OnlyFirst(s, n - 1);
    }
  }
}
