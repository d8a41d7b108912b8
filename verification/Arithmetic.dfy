/**
 The few laws of integer multiplication and of powers that the proofs name.
 */
module Arithmetic {

  function Pow(b: int, e: nat): int {
    if e == 0 then 1 else b * Pow(b, e - 1)
  }

  lemma {:induction false} PowAdds(b: int, m: nat, n: nat)
    ensures Pow(b, m + n) == Pow(b, m) * Pow(b, n)
  {
    if m != 0 {
      PowAdds(b, m - 1, n);
      MulAssociative(b, Pow(b, m - 1), Pow(b, n));
    }
  }

  lemma {:induction false} PowPositive(b: int, e: nat)
    requires 0 < b
    ensures 0 < Pow(b, e)
  {
    if e != 0 {
      PowPositive(b, e - 1);
      ScaleOrder(1, b, Pow(b, e - 1));
    }
  }

  /** What n octets can count up to. */
  ghost function Pow256(n: nat): (p: nat)
    ensures 0 < p
  {
    PowPositive(0x100, n);
    Pow(0x100, n)
  }

  lemma MulAssociative(x: int, y: int, z: int)
    ensures (x * y) * z == x * (y * z)
  {
  }

  lemma ScaleOrder(x: int, y: int, z: int)
    requires x <= y && 0 <= z
    ensures x * z <= y * z
  {
  }

  lemma Expand(x: int, y: int, z: int)
    ensures x * (y + z) == x * y + x * z
    ensures (y + z) * x == y * x + z * x
  {
  }

  lemma SwapFactors(x: int, y: int, v: int, w: int)
    ensures (x * y) * (v * w) == (x * v) * (y * w)
  {
    calc {
      (x * y) * (v * w);
      { MulAssociative(x, y, v * w); }
      x * (y * (v * w));
      { assert y * (v * w) == v * (y * w) by { MulAssociative(y, v, w); MulAssociative(v, y, w); } }
      x * (v * (y * w));
      { MulAssociative(x, v, y * w); }
      (x * v) * (y * w);
    }
  }

  /** One more digit in a combination of two sums. */
  lemma CombineStep(s: int, t: int, sign: int, x: int, y: int, w: int)
    ensures (s + sign * t) + (x + sign * y) * w == (s + x * w) + sign * (t + y * w)
  {
    Expand(w, x, sign * y);
    Expand(sign, t, y * w);
    MulAssociative(sign, y, w);
  }

  /** A carry of d units of weight r * w out of a digit of weight w. */
  lemma CarryStep(x: int, c: int, y: int, d: int, r: int, w: int)
    requires x + c == y + r * d
    ensures x * w + c * w == y * w + d * (r * w)
  {
    Expand(w, x, c);
    Expand(w, y, r * d);
    MulAssociative(d, r, w);
  }

  lemma DivisionIsUnique(x: int, d: int, q: int, r: int)
    requires 0 <= r < d && x == q * d + r
    ensures x / d == q && x % d == r
  {
    var e := x / d - q;
    assert x == (x / d) * d + x % d;
    assert e * d == r - x % d by {
      Expand(d, x / d, -q);
    }
    if e >= 1 {
      ScaleOrder(1, e, d);
    } else if e <= -1 {
      ScaleOrder(e, -1, d);
    }
  }

  lemma DivideTwice(x: int, m: int, n: int)
    requires 0 < m && 0 < n
    ensures 0 < m * n && x / (m * n) == x / m / n
  {
    ScaleOrder(1, m, n);
    var q, r := x / m, x % m;
    var p, s := q / n, q % n;
    assert x == (p * n + s) * m + r;
    Expand(m, p * n, s);
    MulAssociative(p, n, m);
    ScaleOrder(0, s, m);
    ScaleOrder(s, n - 1, m);
    Expand(m, n, -1);
    DivisionIsUnique(x, m * n, p, s * m + r);
  }
}
