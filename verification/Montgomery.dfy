/**
 Curve25519, v^2 = u^3 + 486662 u^2 + u (section 4.1 of RFC 7748): the ladder step doubles one
 point and adds two, and X25519 is the u-coordinate of a multiple.
 */
module Montgomery {
  import opened Arithmetic
  import opened PrimeField
  import opened Rfc7748

  const A: int := 486662

  function Rest(x: int): int { x % P }

  /** Equal modulo p. */
  predicate Cong(x: int, y: int) { Rest(x) == Rest(y) }

  lemma CongSums(x: int, y: int, v: int, w: int)
    requires Cong(x, y) && Cong(v, w)
    ensures Cong(x + v, y + w) && Cong(x - v, y - w)
  {
    AddResidues(x, v);
    AddResidues(y, w);
  }

  lemma CongProducts(x: int, y: int, v: int, w: int)
    requires Cong(x, y) && Cong(v, w)
    ensures Cong(x * v, y * w)
  {
    MulResidues(x, v);
    MulResidues(y, w);
  }

  function Sq(x: int): int { x * x }

  lemma CongSquares(x: int, y: int)
    requires Cong(x, y)
    ensures Cong(Sq(x), Sq(y))
  {
    CongProducts(x, y, x, y);
  }

  lemma FieldCong(x: int, y: int)
    ensures Cong(Add(x, y), x + y) && Cong(Sub(x, y), x - y) && Cong(Mul(x, y), x * y)
  {
    ResidueIs((x + y) % P);
    ResidueIs((x - y) % P);
    ResidueIs((x * y) % P);
  }

  // The ladder step as polynomials.

  lemma SumTimesDifference(x: int, z: int)
    ensures Sq(x + z) * Sq(x - z) == Sq(x * x - z * z)
  {
    assert (x + z) * (x - z) == x * x - z * z;
    SwapFactors(x + z, x + z, x - z, x - z);
  }

  lemma DoublingAlgebra(x: int, z: int)
    ensures Sq(x + z) - Sq(x - z) == 4 * (x * z)
    ensures Sq(x + z) + 121665 * (4 * (x * z)) == x * x + A * (x * z) + z * z
  {
  }

  lemma AddingAlgebra(x2: int, z2: int, x3: int, z3: int)
    ensures (x3 - z3) * (x2 + z2) + (x3 + z3) * (x2 - z2) == 2 * (x2 * x3 - z2 * z3)
    ensures (x3 - z3) * (x2 + z2) - (x3 + z3) * (x2 - z2) == 2 * (x3 * z2 - z3 * x2)
  {
  }

  lemma SquareOfTwice(x: int)
    ensures Sq(2 * x) == 4 * Sq(x)
  {
  }

  /** The step doubles (x2 : z2) by the doubling law of the curve. */
  lemma StepDoubles(x1: int, p: Points)
    ensures Cong(Step(x1, p).x2, Sq(p.x2 * p.x2 - p.z2 * p.z2))
    ensures Cong(Step(x1, p).z2, 4 * (p.x2 * p.z2) * (p.x2 * p.x2 + A * (p.x2 * p.z2) + p.z2 * p.z2))
  {
    hide Rest, Add, Sub, Mul, Sq;
    var x, z := p.x2, p.z2;
    var a, b := Add(x, z), Sub(x, z);
    var aa, bb := Mul(a, a), Mul(b, b);
    var e := Sub(aa, bb);
    FieldCong(x, z);
    FieldCong(a, a);
    FieldCong(b, b);
    SquareIs(a);
    SquareIs(b);
    CongSquares(a, x + z);
    CongSquares(b, x - z);
    FieldCong(aa, bb);
    CongProducts(aa, Sq(x + z), bb, Sq(x - z));
    SumTimesDifference(x, z);
    CongSums(aa, Sq(x + z), bb, Sq(x - z));
    DoublingAlgebra(x, z);
    FieldCong(A24, e);
    CongProducts(A24, A24, e, 4 * (x * z));
    FieldCong(aa, Mul(A24, e));
    CongSums(aa, Sq(x + z), Mul(A24, e), A24 * (4 * (x * z)));
    FieldCong(e, Add(aa, Mul(A24, e)));
    CongProducts(e, 4 * (x * z), Add(aa, Mul(A24, e)), x * x + A * (x * z) + z * z);
  }

  lemma SquareIs(x: int)
    ensures x * x == Sq(x)
  {
  }

  /** The step adds the two points, given that their difference is (x1 : 1). */
  lemma StepAdds(x1: int, p: Points)
    ensures Cong(Step(x1, p).x3, 4 * Sq(p.x2 * p.x3 - p.z2 * p.z3))
    ensures Cong(Step(x1, p).z3, x1 * (4 * Sq(p.x3 * p.z2 - p.z3 * p.x2)))
  {
    hide Rest, Add, Sub, Mul, Sq;
    var x2, z2, x3, z3 := p.x2, p.z2, p.x3, p.z3;
    var a, b, c, d := Add(x2, z2), Sub(x2, z2), Add(x3, z3), Sub(x3, z3);
    var da, cb := Mul(d, a), Mul(c, b);
    FieldCong(x2, z2);
    FieldCong(x3, z3);
    FieldCong(d, a);
    FieldCong(c, b);
    CongProducts(d, x3 - z3, a, x2 + z2);
    CongProducts(c, x3 + z3, b, x2 - z2);
    CongSums(da, (x3 - z3) * (x2 + z2), cb, (x3 + z3) * (x2 - z2));
    AddingAlgebra(x2, z2, x3, z3);
    FieldCong(da, cb);
    var s, t := Add(da, cb), Sub(da, cb);
    CongSquares(s, 2 * (x2 * x3 - z2 * z3));
    CongSquares(t, 2 * (x3 * z2 - z3 * x2));
    SquareOfTwice(x2 * x3 - z2 * z3);
    SquareOfTwice(x3 * z2 - z3 * x2);
    FieldCong(s, s);
    FieldCong(t, t);
    SquareIs(s);
    SquareIs(t);
    FieldCong(x1, Mul(t, t));
    CongProducts(x1, x1, Mul(t, t), 4 * Sq(x3 * z2 - z3 * x2));
  }

  // Points of the curve.

  datatype Point = Infinity | Affine(u: int, v: int)

  /** u^3 + 486662 u^2 + u. */
  function F(u: int): int { u * (u * u + A * u + 1) }

  ghost predicate OnCurve(q: Point) {
    q.Affine? ==> Cong(Sq(q.v), F(q.u))
  }

  function Negated(q: Point): Point {
    if q.Infinity? then q else Affine(q.u, -q.v)
  }

  ghost predicate Same(q: Point, r: Point) {
    q.Infinity? == r.Infinity? && (q.Affine? ==> Cong(q.u, r.u) && Cong(q.v, r.v))
  }

  /** s * den = num where den has an inverse. */
  ghost predicate Quotient(s: int, num: int, den: int) {
    Unit(den) && Cong(s * den, num)
  }

  ghost predicate Unit(x: int) {
    exists w :: Cong(w * x, 1)
  }

  /** The third point on a line of slope s through q and r, reflected. */
  ghost predicate OnLine(s: int, q: Point, r: Point, sum: Point)
    requires q.Affine? && r.Affine?
  {
    sum.Affine? && Cong(sum.u, Sq(s) - A - q.u - r.u) && Cong(sum.v, s * (q.u - sum.u) - q.v)
  }

  /** The chord and tangent law, with all its cases. */
  ghost predicate IsSum(q: Point, r: Point, sum: Point) {
    if q.Infinity? then Same(sum, r)
    else if r.Infinity? then Same(sum, q)
    else if !Cong(q.u, r.u) then exists s :: Quotient(s, r.v - q.v, r.u - q.u) && OnLine(s, q, r, sum)
    else if Cong(q.v + r.v, 0) then sum.Infinity?
    else Cong(q.v, r.v) && exists s :: Quotient(s, 3 * Sq(q.u) + 2 * A * q.u + 1, 2 * q.v) && OnLine(s, q, r, sum)
  }

  /** (x : z) stands for the point q, and not both coordinates vanish. */
  ghost predicate Represents(x: int, z: int, q: Point) {
    match q
    case Infinity => Unit(x) && Cong(z, 0)
    case Affine(u, v) => Unit(z) && Cong(x, u * z)
  }

  lemma UnitProduct(x: int, y: int)
    requires Unit(x) && Unit(y)
    ensures Unit(x * y)
  {
    hide Rest;
    var v :| Cong(v * x, 1);
    var w :| Cong(w * y, 1);
    CongProducts(v * x, 1, w * y, 1);
    SwapFactors(v, x, w, y);
    assert Cong((v * w) * (x * y), 1);
  }

  lemma UnitCong(x: int, y: int)
    requires Cong(x, y) && Unit(x)
    ensures Unit(y)
  {
    hide Rest;
    var w :| Cong(w * x, 1);
    CongProducts(w, w, x, y);
    assert Cong(w * y, 1);
  }

  lemma UnitFactor(x: int, y: int)
    requires Unit(x * y)
    ensures Unit(x) && Unit(y)
  {
    hide Rest;
    var w :| Cong(w * (x * y), 1);
    assert w * (x * y) == (w * y) * x && w * (x * y) == (w * x) * y;
    assert Cong((w * y) * x, 1) && Cong((w * x) * y, 1);
  }

  lemma SmallUnits()
    ensures Unit(2) && Unit(4) && !Cong(1, 0)
  {
    PrimeIs();
    AddMultiple(1, 1);
    assert (P + 1) / 2 * 2 == 1 + 1 * P;
    ResidueIs(0);
    ResidueIs(1);
    assert Cong((P + 1) / 2 * 2, 1);
    UnitProduct(2, 2);
  }

  /** A unit can be cancelled. */
  lemma Cancel(c: int, x: int, y: int)
    requires Unit(c) && Cong(c * x, c * y)
    ensures Cong(x, y)
  {
    hide Rest;
    var w :| Cong(w * c, 1);
    CongProducts(w, w, c * x, c * y);
    MulAssociative(w, c, x);
    MulAssociative(w, c, y);
    CongProducts(w * c, 1, x, x);
    CongProducts(w * c, 1, y, y);
  }

  /** The step depends on residues only. */
  lemma StepResidues(x1: int, p: Points, y1: int, q: Points)
    requires Cong(x1, y1) && Cong(p.x2, q.x2) && Cong(p.z2, q.z2) && Cong(p.x3, q.x3) && Cong(p.z3, q.z3)
    ensures Step(x1, p) == Step(y1, q)
  {
    hide Mul;
    AddSame(p.x2, p.z2, q.x2, q.z2);
    AddSame(p.x3, p.z3, q.x3, q.z3);
    var e := Sub(Mul(Sub(p.x3, p.z3), Add(p.x2, p.z2)), Mul(Add(p.x3, p.z3), Sub(p.x2, p.z2)));
    MulLeft(x1, Mul(e, e));
    MulLeft(y1, Mul(e, e));
  }

  lemma AddSame(x: int, y: int, v: int, w: int)
    requires Cong(x, v) && Cong(y, w)
    ensures Add(x, y) == Add(v, w) && Sub(x, y) == Sub(v, w)
  {
    CongSums(x, v, y, w);
  }

  // Doubling.

  lemma ScaledDouble(u: int, z: int)
    ensures Sq((u * z) * (u * z) - z * z) == Sq(Sq(z)) * Sq(u * u - 1)
    ensures 4 * ((u * z) * z) * ((u * z) * (u * z) + A * ((u * z) * z) + z * z) == Sq(Sq(z)) * (4 * F(u))
  {
    var t := Sq(z);
    assert (u * z) * z == u * t && (u * z) * (u * z) == (u * u) * t;
    assert (u * u) * t - t == t * (u * u - 1);
    assert (u * u) * t + A * (u * t) + t == t * (u * u + A * u + 1);
    SquareOfProduct(t, u * u - 1);
    SwapFactors(4 * u, t, u * u + A * u + 1, t);
    assert (4 * (u * t)) == (4 * u) * t;
  }

  lemma SquareOfProduct(x: int, y: int)
    ensures Sq(x * y) == Sq(x) * Sq(y)
  {
    SwapFactors(x, y, x, y);
  }

  /** The tangent's slope times 2v gives 4v^2 times the new u as (u^2 - 1)^2. */
  lemma TangentAlgebra(u: int)
    ensures Sq(3 * Sq(u) + 2 * A * u + 1) - 4 * F(u) * (A + u + u) == Sq(u * u - 1)
  {
    Tangent(u, u * u);
  }

  lemma Tangent(u: int, t: int)
    requires t == u * u
    ensures Sq(3 * t + 2 * A * u + 1) - 4 * (u * t + A * t + u) * (A + u + u) == Sq(t - 1)
  {
  }

  /** The u-coordinate of a double, without division. */
  lemma TangentPoint(u: int, v: int, s: int, w: int)
    requires Cong(Sq(v), F(u)) && Cong(s * (2 * v), 3 * Sq(u) + 2 * A * u + 1) && Cong(w, Sq(s) - A - u - u)
    ensures Cong(4 * F(u) * w, Sq(u * u - 1))
  {
    hide Rest, F, Sq;
    var f, n := 4 * F(u), 3 * Sq(u) + 2 * A * u + 1;
    CongProducts(f, f, w, Sq(s) - A - u - u);
    Expand(f, Sq(s), -(A + u + u));
    SquareOfTwice(v);
    CongProducts(4, 4, Sq(v), F(u));
    CongProducts(Sq(s), Sq(s), f, Sq(2 * v));
    SquareOfProduct(s, 2 * v);
    CongSquares(s * (2 * v), n);
    CongSums(Sq(s) * f, Sq(n), f * (A + u + u), f * (A + u + u));
    TangentAlgebra(u);
  }

  /** A point with a vertical tangent does not have u = 1 or u = -1. */
  lemma VerticalTangent(u: int)
    requires Cong(F(u), 0)
    ensures Unit(Sq(u * u - 1))
  {
    hide Rest, F;
    var d, r := u * u - 1, 4 - (A - 2 * u) * (A + u);
    Resultant(u);
    CongProducts(A - 2 * u, A - 2 * u, F(u), 0);
    CongSums((A - 2 * u) * F(u), 0, r * d, r * d);
    DiscriminantUnit();
    UnitCong(A * A - 4, r * d);
    UnitFactor(r, d);
    UnitProduct(d, d);
  }

  lemma Resultant(u: int)
    ensures (A - 2 * u) * F(u) + (4 - (A - 2 * u) * (A + u)) * (u * u - 1) == A * A - 4
  {
  }

  lemma DiscriminantUnit()
    ensures Unit(A * A - 4)
  {
    assert A * A - 4 == 236839902240;
    PrimeIs();
    AddMultiple(1, 0x17a0069b1b);
    assert Cong(0x36d6c143fbfba334948229e71bacc4801f4321f1a7c44d3266433bfbf1edc8e8 * 236839902240, 1);
  }

  lemma UnitSquares(x: int)
    requires Unit(x)
    ensures Unit(Sq(x)) && Unit(Sq(Sq(x)))
  {
    hide Unit;
    UnitProduct(x, x);
    UnitProduct(Sq(x), Sq(x));
  }

  lemma DoubleOfInfinity(x1: int, p: Points)
    requires Unit(p.x2) && Cong(p.z2, 0)
    ensures Unit(Step(x1, p).x2) && Cong(Step(x1, p).z2, 0)
  {
    hide Rest, Step, Unit, Sq;
    var r := p.(z2 := 0);
    StepResidues(x1, p, x1, r);
    StepDoubles(x1, r);
    UnitSquares(p.x2);
    SquareIs(p.x2);
    UnitCong(Sq(p.x2 * p.x2 - 0 * 0), Step(x1, p).x2);
  }

  /** The first point after a step is the double of the first point before it. */
  lemma DoubleRepresented(x1: int, p: Points, q: Point, sum: Point)
    requires Represents(p.x2, p.z2, q) && OnCurve(q) && IsSum(q, q, sum)
    ensures Represents(Step(x1, p).x2, Step(x1, p).z2, sum)
  {
    hide Rest, Step, Unit, Sq, F;
    if q.Infinity? {
      DoubleOfInfinity(x1, p);
    } else {
      var u, v, z := q.u, q.v, p.z2;
      var r := p.(x2 := u * z);
      StepResidues(x1, p, x1, r);
      StepDoubles(x1, r);
      ScaledDouble(u, z);
      DoubleOfPoint(q, sum, Sq(Sq(z)));
      UnitSquares(z);
      var c, x, w := Sq(Sq(z)), Step(x1, p).x2, Step(x1, p).z2;
      if sum.Infinity? {
        VerticalTangent(u);
        UnitProduct(c, Sq(u * u - 1));
        UnitCong(c * Sq(u * u - 1), x);
        CongProducts(c, c, 4 * F(u), 0);
      } else {
        UnitProduct(c, 4 * F(u));
        UnitCong(c * (4 * F(u)), w);
        CongProducts(sum.u, sum.u, w, c * (4 * F(u)));
      }
    }
  }

  lemma DoubleOfPoint(q: Point, sum: Point, c: int)
    requires q.Affine? && OnCurve(q) && IsSum(q, q, sum)
    ensures sum.Infinity? ==> Cong(F(q.u), 0) && Cong(4 * F(q.u), 0)
    ensures sum.Affine? ==> Unit(4 * F(q.u)) && Cong(c * Sq(q.u * q.u - 1), sum.u * (c * (4 * F(q.u))))
  {
    hide Rest, Sq, F;
    var u, v := q.u, q.v;
    SquareOfTwice(v);
    CongProducts(4, 4, Sq(v), F(u));
    if Cong(v + v, 0) {
      SmallUnits();
      CongProducts(2 * v, 0, 2 * v, 0);
      SquareIs(2 * v);
      Cancel(4, F(u), 0);
    } else {
      var s :| Quotient(s, 3 * Sq(u) + 2 * A * u + 1, 2 * v) && OnLine(s, q, q, sum);
      TangentPoint(u, v, s, sum.u);
      UnitSquares(2 * v);
      UnitCong(Sq(2 * v), 4 * F(u));
      CongProducts(c, c, Sq(u * u - 1), 4 * F(u) * sum.u);
      assert c * (4 * F(u) * sum.u) == sum.u * (c * (4 * F(u)));
    }
  }

  // Adding two points whose difference is known.

  lemma ScaledSum(u2: int, z2: int, u3: int, z3: int)
    ensures Sq((u2 * z2) * (u3 * z3) - z2 * z3) == Sq(z2 * z3) * Sq(u2 * u3 - 1)
    ensures Sq((u3 * z3) * z2 - z3 * (u2 * z2)) == Sq(z2 * z3) * Sq(u3 - u2)
  {
    var t := z2 * z3;
    SwapFactors(u2, z2, u3, z3);
    assert (u2 * u3) * t - t == t * (u2 * u3 - 1);
    SquareOfProduct(t, u2 * u3 - 1);
    assert (u3 * z3) * z2 - z3 * (u2 * z2) == t * (u3 - u2);
    SquareOfProduct(t, u3 - u2);
  }

  function G(x: int, y: int): int { x * x + x * y + y * y + A * (x + y) + 1 }

  lemma CubicIs(x: int)
    ensures F(x) == x * (x * x) + A * (x * x) + x
  {
    Expand(x, x * x, A * x);
    Expand(x, x * x + A * x, 1);
  }

  lemma Squares(x: int, y: int)
    ensures (x + y) * (x + y) == x * x + 2 * (x * y) + y * y
    ensures (y - x) * (x + y) == y * y - x * x
    ensures Sq(y - x) == x * x - 2 * (x * y) + y * y
  {
  }

  lemma DifferenceOfCubes(x: int, y: int)
    ensures (y - x) * (x * x + x * y + y * y) == y * (y * y) - x * (x * x)
  {
  }

  lemma SumOfCubes(x: int, y: int)
    ensures (x * x + y * y) * (x + y) == x * (x * x) + y * (y * y) + (x + y) * (x * y)
  {
  }

  lemma DifferenceOfCubics(x: int, y: int)
    ensures F(y) - F(x) == (y - x) * G(x, y)
  {
    hide F;
    CubicIs(x);
    CubicIs(y);
    var d, p := y - x, x * x + x * y + y * y;
    DifferenceOfCubes(x, y);
    Squares(x, y);
    Expand(d, p, A * (x + y));
    Expand(d, p + A * (x + y), 1);
    Regroup3(d, A, x + y);
  }

  lemma Regroup3(x: int, y: int, z: int)
    ensures x * (y * z) == y * (x * z)
  {
    MulAssociative(x, y, z);
    MulAssociative(y, x, z);
  }

  lemma SumOfCubics(x: int, y: int)
    ensures F(x) + F(y) == (x * x + y * y) * (A + x + y) - (x + y) * (x * y) + (x + y)
  {
    hide F;
    CubicIs(x);
    CubicIs(y);
    SumOfCubes(x, y);
    Expand(x * x + y * y, A, x + y);
    Expand(A, x * x, y * y);
  }

  lemma ChordAlgebra(x: int, y: int)
    ensures F(y) - F(x) == (y - x) * G(x, y)
    ensures var b := A + x + y;
      Sq(G(x, y)) - b * (2 * (F(x) + F(y))) + Sq(b) * Sq(y - x) == Sq(x * y - 1)
  {
    DifferenceOfCubics(x, y);
    SumOfCubics(x, y);
    Squares(x, y);
    var b, t := x + y, x * y;
    Expand(b, A, b);
    assert G(x, y) == b * (A + b) - t + 1;
    hide F, G, Sq;
    Chord(b, t, A + b, x * x + y * y, Sq(y - x));
  }

  lemma Chord(b: int, t: int, c: int, p: int, d: int)
    requires p == b * b - 2 * t && d == b * b - 4 * t
    ensures Sq(b * c - t + 1) - c * (2 * (p * c - b * t + b)) + Sq(c) * d == Sq(t - 1)
  {
    var k, e, w, q := b * c, t - 1, c * c, b * b;
    SquareOfShifted(k, e);
    assert c * (p * c) == p * w by {
      Regroup3(c, p, c);
    }
    assert c * (b * t) == k * t && c * b == k by {
      MulAssociative(c, b, t);
    }
    assert q * w == k * k by {
      SwapFactors(b, b, c, c);
    }
    Expand(w, q, -2 * t);
    Expand(w, q, -4 * t);
    TwiceProduct(c, p * c, b * t, b);
    Expand(k, t, -1);
    assert (-2 * t) * w == -2 * (t * w) && (-4 * t) * w == -4 * (t * w) by {
      MulAssociative(-2, t, w);
      MulAssociative(-4, t, w);
    }
    assert Sq(c) == w;
  }

  lemma SquareOfShifted(k: int, e: int)
    ensures Sq(k - e) == k * k - 2 * (k * e) + Sq(e)
  {
  }

  lemma TwiceProduct(c: int, x: int, y: int, z: int)
    ensures c * (2 * (x - y + z)) == 2 * (c * x) - 2 * (c * y) + 2 * (c * z)
  {
  }

  /** The two chords, through the points and through the first and the reflected second. */
  lemma ChordPoints(q: Point, r: Point, l: int, m: int, a: int, b: int)
    requires q.Affine? && r.Affine? && OnCurve(q) && OnCurve(r) && Unit(r.u - q.u)
    requires Cong(l * (r.u - q.u), r.v - q.v) && Cong(a, Sq(l) - A - q.u - r.u)
    requires Cong(m * (q.u - r.u), -q.v - r.v) && Cong(b, Sq(m) - A - r.u - q.u)
    ensures Cong(b * (a * Sq(r.u - q.u)), Sq(q.u * r.u - 1))
  {
    hide Rest, Sq, F, G;
    var d, g, c, f := r.u - q.u, G(q.u, r.u), A + q.u + r.u, F(q.u) + F(r.u);
    ChordAlgebra(q.u, r.u);
    CongProducts(-1, -1, m * (q.u - r.u), -q.v - r.v);
    assert -1 * (m * (q.u - r.u)) == m * d;
    SlopeProduct(q, r, l, m);
    SlopeSquares(q, r, l, m);
    CongProducts(a, Sq(l) - c, Sq(d), Sq(d));
    CongProducts(b, Sq(m) - c, a * Sq(d), (Sq(l) - c) * Sq(d));
    ProductOfShifted(Sq(l), Sq(m), Sq(d), c);
    CongProducts(c, c, Sq(l) * Sq(d) + Sq(m) * Sq(d), 2 * f);
    CongSums((Sq(l) * Sq(m)) * Sq(d), Sq(g), c * (Sq(l) * Sq(d) + Sq(m) * Sq(d)), c * (2 * f));
    CongSums((Sq(l) * Sq(m)) * Sq(d) - c * (Sq(l) * Sq(d) + Sq(m) * Sq(d)), Sq(g) - c * (2 * f),
      Sq(c) * Sq(d), Sq(c) * Sq(d));
  }

  lemma ProductOfShifted(l: int, m: int, d: int, c: int)
    ensures (m - c) * ((l - c) * d) == (l * m) * d - c * (l * d + m * d) + Sq(c) * d
  {
  }

  lemma SlopeProduct(q: Point, r: Point, l: int, m: int)
    requires q.Affine? && r.Affine? && OnCurve(q) && OnCurve(r) && Unit(r.u - q.u)
    requires Cong(l * (r.u - q.u), r.v - q.v) && Cong(m * (r.u - q.u), q.v + r.v)
    ensures Cong((Sq(l) * Sq(m)) * Sq(r.u - q.u), Sq(G(q.u, r.u)))
  {
    hide Rest, Sq, F, G;
    var d, g := r.u - q.u, G(q.u, r.u);
    ChordAlgebra(q.u, r.u);
    CongProducts(l * d, r.v - q.v, m * d, q.v + r.v);
    DifferenceOfSquares(r.v, q.v);
    CongSums(Sq(r.v), F(r.u), Sq(q.v), F(q.u));
    assert (l * d) * (m * d) == d * ((l * m) * d);
    Cancel(d, (l * m) * d, g);
    CongSquares((l * m) * d, g);
    SquareOfProduct(l * m, d);
    SquareOfProduct(l, m);
  }

  lemma DifferenceOfSquares(x: int, y: int)
    ensures (x - y) * (y + x) == Sq(x) - Sq(y)
    ensures Sq(x - y) + Sq(y + x) == 2 * (Sq(y) + Sq(x))
  {
  }

  lemma SlopeSquares(q: Point, r: Point, l: int, m: int)
    requires q.Affine? && r.Affine? && OnCurve(q) && OnCurve(r)
    requires Cong(l * (r.u - q.u), r.v - q.v) && Cong(m * (r.u - q.u), q.v + r.v)
    ensures Cong(Sq(l) * Sq(r.u - q.u) + Sq(m) * Sq(r.u - q.u), 2 * (F(q.u) + F(r.u)))
  {
    hide Rest, Sq, F;
    var d := r.u - q.u;
    CongSquares(l * d, r.v - q.v);
    CongSquares(m * d, q.v + r.v);
    SquareOfProduct(l, d);
    SquareOfProduct(m, d);
    CongSums(Sq(l * d), Sq(r.v - q.v), Sq(m * d), Sq(q.v + r.v));
    DifferenceOfSquares(r.v, q.v);
    CongSums(Sq(q.v), F(q.u), Sq(r.v), F(r.u));
    CongProducts(2, 2, Sq(q.v) + Sq(r.v), F(q.u) + F(r.u));
  }

  /** What the step makes of two finite points. */
  lemma StepOfPoints(x1: int, p: Points, u2: int, u3: int)
    requires Cong(p.x2, u2 * p.z2) && Cong(p.x3, u3 * p.z3)
    ensures Cong(Step(x1, p).x3, 4 * (Sq(p.z2 * p.z3) * Sq(u2 * u3 - 1)))
    ensures Cong(Step(x1, p).z3, x1 * (4 * (Sq(p.z2 * p.z3) * Sq(u3 - u2))))
  {
    hide Rest, Step, Sq;
    var r := Points(u2 * p.z2, p.z2, u3 * p.z3, p.z3);
    StepResidues(x1, p, x1, r);
    StepAdds(x1, r);
    ScaledSum(u2, p.z2, u3, p.z3);
  }

  /** One of the points is infinite, so that the other one is the base point. */
  lemma StepOfBase(x1: int, x: int, z: int, w: int, c: int)
    requires Cong(x, x1 * z) && Unit(x1) && Unit(z) && Unit(w) && (c == w * x || c == x * w)
    ensures Unit(x1 * (4 * Sq(w * z))) && Cong(4 * Sq(c), x1 * (x1 * (4 * Sq(w * z))))
  {
    hide Rest, Unit, Sq;
    UnitProduct(w, z);
    UnitSquares(w * z);
    SmallUnits();
    UnitProduct(4, Sq(w * z));
    UnitProduct(x1, 4 * Sq(w * z));
    CongProducts(w, w, x, x1 * z);
    assert w * (x1 * z) == x1 * (w * z);
    CongSquares(w * x, x1 * (w * z));
    SquareOfProduct(x1, w * z);
    SquareIs(x1);
    CongProducts(4, 4, Sq(c), Sq(x1) * Sq(w * z));
    Regroup(x1, Sq(w * z));
  }

  lemma Regroup(x: int, y: int)
    ensures 4 * ((x * x) * y) == x * (x * (4 * y))
  {
    MulAssociative(x, x, y);
    MulAssociative(4, x, x * y);
  }

  lemma SumWithInfinity(x1: int, p: Points, q: Point, r: Point, base: Point, sum: Point)
    requires Represents(p.x2, p.z2, q) && Represents(p.x3, p.z3, r) && (q.Infinity? || r.Infinity?)
    requires base.Affine? && Cong(x1, base.u) && Unit(x1)
    requires IsSum(q, r, sum) && IsSum(r, Negated(q), base)
    ensures Represents(Step(x1, p).x3, Step(x1, p).z3, sum)
  {
    hide Rest, Step, Unit, Sq;
    var x, z := Step(x1, p).x3, Step(x1, p).z3;
    if q.Infinity? {
      StepResidues(x1, p, x1, p.(z2 := 0));
      StepAdds(x1, p.(z2 := 0));
      CongProducts(r.u, x1, p.z3, p.z3);
      StepOfBase(x1, p.x3, p.z3, p.x2, p.x2 * p.x3);
      SquareOfNegated(p.z3 * p.x2);
      UnitCong(x1 * (4 * Sq(p.x2 * p.z3)), z);
      CongProducts(sum.u, x1, z, x1 * (4 * Sq(p.x2 * p.z3)));
    } else {
      StepResidues(x1, p, x1, p.(z3 := 0));
      StepAdds(x1, p.(z3 := 0));
      CongProducts(q.u, x1, p.z2, p.z2);
      StepOfBase(x1, p.x2, p.z2, p.x3, p.x2 * p.x3);
      UnitCong(x1 * (4 * Sq(p.x3 * p.z2)), z);
      CongProducts(sum.u, x1, z, x1 * (4 * Sq(p.x3 * p.z2)));
    }
  }

  lemma SquareOfNegated(x: int)
    ensures Sq(-x) == Sq(x)
  {
  }

  /** Chords: the product of the sum's and the difference's u-coordinates. */
  lemma SumByChord(x1: int, p: Points, q: Point, r: Point, base: Point, sum: Point)
    requires Represents(p.x2, p.z2, q) && Represents(p.x3, p.z3, r) && OnCurve(q) && OnCurve(r)
    requires q.Affine? && r.Affine? && !Cong(q.u, r.u)
    requires base.Affine? && Cong(x1, base.u) && Unit(x1)
    requires IsSum(q, r, sum) && IsSum(r, Negated(q), base)
    ensures Represents(Step(x1, p).x3, Step(x1, p).z3, sum)
  {
    hide Rest, Step, Unit, Sq, F;
    var x, z, d := Step(x1, p).x3, Step(x1, p).z3, r.u - q.u;
    var l :| Quotient(l, r.v - q.v, d) && OnLine(l, q, r, sum);
    var m :| Quotient(m, -q.v - r.v, q.u - r.u) && OnLine(m, r, Negated(q), base);
    ChordPoints(q, r, l, m, sum.u, base.u);
    StepOfPoints(x1, p, q.u, r.u);
    MulAssociative(4, Sq(p.z2 * p.z3), Sq(q.u * r.u - 1));
    MulAssociative(4, Sq(p.z2 * p.z3), Sq(d));
    UnitProduct(p.z2, p.z3);
    UnitSquares(p.z2 * p.z3);
    UnitSquares(d);
    SmallUnits();
    UnitProduct(4, Sq(p.z2 * p.z3));
    CongProducts(x1, base.u, sum.u * Sq(d), sum.u * Sq(d));
    ScaledChord(x1, sum.u, 4 * Sq(p.z2 * p.z3), Sq(d), Sq(q.u * r.u - 1), x, z);
  }

  lemma ScaledChord(x1: int, u: int, c: int, d: int, e: int, x: int, z: int)
    requires Unit(x1) && Unit(c) && Unit(d)
    requires Cong(x1 * (u * d), e) && Cong(x, c * e) && Cong(z, x1 * (c * d))
    ensures Unit(z) && Cong(x, u * z)
  {
    hide Rest, Unit;
    UnitProduct(c, d);
    UnitProduct(x1, c * d);
    UnitCong(x1 * (c * d), z);
    CongProducts(c, c, x1 * (u * d), e);
    CongProducts(u, u, z, x1 * (c * d));
    Regroup4(c, x1, u, d);
  }

  lemma Regroup4(c: int, x: int, u: int, d: int)
    ensures c * (x * (u * d)) == u * (x * (c * d))
  {
    assert x * (u * d) == u * (x * d);
    assert c * (u * (x * d)) == u * (c * (x * d));
    assert c * (x * d) == x * (c * d);
  }

  /** The points are each other's reflections: their sum is infinite. */
  lemma SumOfReflections(x1: int, p: Points, q: Point, r: Point, base: Point, sum: Point)
    requires Represents(p.x2, p.z2, q) && Represents(p.x3, p.z3, r) && OnCurve(q) && OnCurve(r)
    requires q.Affine? && r.Affine? && Cong(q.u, r.u)
    requires base.Affine? && Cong(x1, base.u) && Unit(x1)
    requires IsSum(q, r, sum) && IsSum(r, Negated(q), base)
    ensures Represents(Step(x1, p).x3, Step(x1, p).z3, sum)
  {
    hide Rest, Step, Unit, Sq, F;
    var x, z, t := Step(x1, p).x3, Step(x1, p).z3, Sq(p.z2 * p.z3);
    StepOfPoints(x1, p, q.u, r.u);
    CongSums(r.u, q.u, q.u, q.u);
    CongSquares(r.u - q.u, 0);
    SquareIs(0);
    CongProducts(t, t, Sq(r.u - q.u), 0);
    CongProducts(4, 4, t * Sq(r.u - q.u), 0);
    CongProducts(x1, x1, 4 * (t * Sq(r.u - q.u)), 0);
    DifferenceIsTangent(x1, q, r, base);
    CongSums(r.v, -q.v, q.v, q.v);
    UnitProduct(p.z2, p.z3);
    UnitSquares(p.z2 * p.z3);
    UnitProduct(t, Sq(q.u * r.u - 1));
    SmallUnits();
    UnitProduct(4, t * Sq(q.u * r.u - 1));
    UnitCong(4 * (t * Sq(q.u * r.u - 1)), x);
  }

  lemma DifferenceIsTangent(x1: int, q: Point, r: Point, base: Point)
    requires q.Affine? && r.Affine? && OnCurve(r) && Cong(q.u, r.u)
    requires base.Affine? && Cong(x1, base.u) && Unit(x1) && IsSum(r, Negated(q), base)
    ensures Cong(r.v, -q.v) && Unit(Sq(q.u * r.u - 1))
  {
    hide Rest, Unit, Sq, F;
    var u, v := r.u, r.v;
    var m :| Quotient(m, 3 * Sq(u) + 2 * A * u + 1, 2 * v) && OnLine(m, r, Negated(q), base);
    CongSums(Sq(m) - A - u, Sq(m) - A - u, q.u, u);
    TangentPoint(u, v, m, base.u);
    SquareOfTwice(v);
    CongProducts(4, 4, Sq(v), F(u));
    UnitSquares(2 * v);
    UnitCong(Sq(2 * v), 4 * F(u));
    UnitCong(x1, base.u);
    UnitProduct(4 * F(u), base.u);
    UnitCong(4 * F(u) * base.u, Sq(u * u - 1));
    CongProducts(u, q.u, u, u);
    CongSums(u * u, q.u * u, 1, 1);
    CongSquares(u * u - 1, q.u * u - 1);
    UnitCong(Sq(u * u - 1), Sq(q.u * u - 1));
  }

  /** The second point after a step is the sum of the two points before it, when their difference is the base point. */
  lemma SumRepresented(x1: int, p: Points, q: Point, r: Point, base: Point, sum: Point)
    requires Represents(p.x2, p.z2, q) && Represents(p.x3, p.z3, r) && OnCurve(q) && OnCurve(r)
    requires base.Affine? && Cong(x1, base.u) && Unit(x1)
    requires IsSum(q, r, sum) && IsSum(r, Negated(q), base)
    ensures Represents(Step(x1, p).x3, Step(x1, p).z3, sum)
  {
    if q.Infinity? || r.Infinity? {
      SumWithInfinity(x1, p, q, r, base, sum);
    } else if Cong(q.u, r.u) {
      SumOfReflections(x1, p, q, r, base, sum);
    } else {
      SumByChord(x1, p, q, r, base, sum);
    }
  }
}
