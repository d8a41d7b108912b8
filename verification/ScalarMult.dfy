/**
 scalarmult: the limb loop, which swaps before and after every step, computes X25519.
 */
module ScalarMult {
  import opened Arithmetic
  import opened Bytes
  import opened PrimeField
  import opened Limbs
  import opened FieldOps
  import opened Inverse
  import opened TwosComplement
  import opened Packing
  import opened Rfc7748

  /** The residues of the four working arrays, as the ladder's two projective points. */
  ghost function Working(a: array<int64>, b: array<int64>, c: array<int64>, d: array<int64>): Points
    requires a.Length == b.Length == c.Length == d.Length == 16
    reads a, b, c, d
  {
    Points(Residue(a[..]), Residue(c[..]), Residue(b[..]), Residue(d[..]))
  }

  ghost predicate AllTight(a: array<int64>, b: array<int64>, c: array<int64>, d: array<int64>)
    reads a, b, c, d
  {
    Tight(a[..]) && Tight(b[..]) && Tight(c[..]) && Tight(d[..])
  }

  /** The four products of a step: CB in a, DA in c, AA in d and BB in f. */
  method StepProducts(a: array<int64>, b: array<int64>, c: array<int64>, d: array<int64>, e: array<int64>,
    f: array<int64>)
    requires a.Length == b.Length == c.Length == d.Length == e.Length == f.Length == 16
    requires a != b && a != c && a != d && a != e && a != f && b != c && b != d && b != e && b != f
    requires c != d && c != e && c != f && d != e && d != f && e != f
    requires AllTight(a, b, c, d)
    modifies a, b, c, d, e, f
    ensures Tight(a[..]) && Tight(c[..]) && Tight(d[..]) && Tight(f[..])
    ensures var p := old(Working(a, b, c, d));
      && Residue(a[..]) == Mul(Add(p.x3, p.z3), Sub(p.x2, p.z2))
      && Residue(c[..]) == Mul(Sub(p.x3, p.z3), Add(p.x2, p.z2))
      && Residue(d[..]) == Mul(Add(p.x2, p.z2), Add(p.x2, p.z2))
      && Residue(f[..]) == Mul(Sub(p.x2, p.z2), Sub(p.x2, p.z2))
  {
    hide Add, Sub, Mul, Eval, Value, Residue;
    FieldAdd(e, a, c);
    FieldSub(a, a, c);
    FieldAdd(c, b, d);
    FieldSub(b, b, d);
    FieldMul(d, e, e);
    FieldMul(f, a, a);
    FieldMul(a, c, a);
    FieldMul(c, b, e);
  }

  lemma StepAlgebra(x1: int, p: Points, aa: int, bb: int, cb: int, da: int)
    requires aa == Mul(Add(p.x2, p.z2), Add(p.x2, p.z2)) && bb == Mul(Sub(p.x2, p.z2), Sub(p.x2, p.z2))
    requires cb == Mul(Add(p.x3, p.z3), Sub(p.x2, p.z2)) && da == Mul(Sub(p.x3, p.z3), Add(p.x2, p.z2))
    ensures Step(x1, p) == Points(
        Mul(aa, bb),
        Mul(Sub(aa, bb), Add(Mul(Sub(aa, bb), A24), aa)),
        Mul(Add(cb, da), Add(cb, da)),
        Mul(Mul(Sub(cb, da), Sub(cb, da)), x1))
  {
    SquareOfDifference(da, cb);
    MulCommutative(A24, Sub(aa, bb));
    MulCommutative(x1, Mul(Sub(da, cb), Sub(da, cb)));
    assert Add(cb, da) == Add(da, cb);
    assert Add(Mul(Sub(aa, bb), A24), aa) == Add(aa, Mul(Sub(aa, bb), A24));
  }

  /** The working arrays of the loop are pairwise different, as local variables are. */
  ghost predicate Apart(a: array<int64>, b: array<int64>, c: array<int64>, d: array<int64>,
      e: array<int64>, f: array<int64>, x: array<int64>, k: array<int64>)
  {
    && a != b && a != c && a != d && a != e && a != f && a != x && a != k
    && b != c && b != d && b != e && b != f && b != x && b != k
    && c != d && c != e && c != f && c != x && c != k
    && d != e && d != f && d != x && d != k
    && e != f && e != x && e != k && f != x && f != k
  }

  /** The sum and the difference of CB and DA, in e and squared in b, and the difference of AA and BB in c. */
  method StepSums(a: array<int64>, b: array<int64>, c: array<int64>, d: array<int64>, e: array<int64>,
    f: array<int64>)
    requires a.Length == b.Length == c.Length == d.Length == e.Length == f.Length == 16
    requires a != b && a != c && a != d && a != e && a != f && b != c && b != d && b != e && b != f
    requires c != d && c != e && c != f && d != e && d != f && e != f
    requires Tight(a[..]) && Tight(c[..]) && Tight(d[..]) && Tight(f[..])
    modifies a, b, c, e
    ensures Within(c[..], 0x400_0000) && Within(e[..], 0x400_0000) && Tight(b[..])
    ensures Residue(e[..]) == Add(old(Residue(a[..])), old(Residue(c[..])))
    ensures var s := Sub(old(Residue(a[..])), old(Residue(c[..]))); Residue(b[..]) == Mul(s, s)
    ensures Residue(c[..]) == Sub(Residue(d[..]), Residue(f[..]))
  {
    hide Add, Sub, Mul, Eval, Value, Residue;
    FieldAdd(e, a, c);
    FieldSub(a, a, c);
    FieldMul(b, a, a);
    FieldSub(c, d, f);
  }

  /** The arithmetic of one round of the loop, between its two pairs of swaps. */
  method LadderStep(a: array<int64>, b: array<int64>, c: array<int64>, d: array<int64>,
      e: array<int64>, f: array<int64>, x: array<int64>, k: array<int64>)
    requires a.Length == b.Length == c.Length == d.Length == e.Length == f.Length == x.Length == k.Length == 16
    requires Apart(a, b, c, d, e, f, x, k)
    requires AllTight(a, b, c, d) && Tight(x[..])
    requires Within(k[..], 0x400_0000) && Residue(k[..]) == A24
    modifies a, b, c, d, e, f
    ensures AllTight(a, b, c, d)
    ensures Working(a, b, c, d) == Step(Residue(x[..]), old(Working(a, b, c, d)))
  {
    hide Add, Sub, Mul, Step, Eval, Value, Residue;
    ghost var x1, p := Residue(x[..]), Working(a, b, c, d);
    StepProducts(a, b, c, d, e, f);
    StepAlgebra(x1, p, Residue(d[..]), Residue(f[..]), Residue(a[..]), Residue(c[..]));
    StepSums(a, b, c, d, e, f);
    FieldMul(a, c, k);
    FieldAdd(a, a, d);
    FieldMul(c, c, a);
    FieldMul(a, d, f);
    FieldMul(d, b, x);
    FieldMul(b, e, e);
  }

  lemma {:induction false} PowOctet(n: nat)
    ensures Pow256(n) == Pow(2, 8 * n)
  {
    if n != 0 {
      PowOctet(n - 1);
      PowAdds(2, 8, 8 * (n - 1));
      assert Pow(2, 8) == 0x100;
    }
  }

  lemma {:induction false} OctetRange(b: seq<octet>, n: nat)
    requires n <= |b|
    ensures LittleEndian(b, n) < Pow256(n)
  {
    if n != 0 {
      OctetRange(b, n - 1);
      ScaleOrder(b[n - 1] as int, 0xff, Pow256(n - 1));
    }
  }

  /** The number in the octets from j on. */
  ghost function Above(b: seq<octet>, j: nat): nat
    requires j <= |b|
    decreases |b| - j
  {
    if j == |b| then 0 else b[j] + 0x100 * Above(b, j + 1)
  }

  lemma {:induction false} SplitAbove(b: seq<octet>, j: nat)
    requires j <= |b|
    ensures LittleEndian(b, |b|) == LittleEndian(b, j) + Above(b, j) * Pow256(j)
    decreases |b| - j
  {
    if j != |b| {
      SplitAbove(b, j + 1);
      CarryStep(b[j] as int + 0x100 * Above(b, j + 1), 0, b[j] as int, Above(b, j + 1), 0x100, Pow256(j));
    }
  }

  lemma OctetBit(x: octet, h: nat, r: nat)
    requires r < 8
    ensures Bit(x + 0x100 * h, r) == Bit(x, r)
  {
    var p, q := Pow(2, r), Pow(2, 7 - r);
    PowPositive(2, r);
    PowAdds(2, r, 7 - r);
    assert Pow(2, 7) == 128;
    HighPart(x, h, p, q);
  }

  lemma HighPart(x: int, h: int, p: int, q: int)
    requires 0 < p && p * q == 128
    ensures (x + 0x100 * h) / p % 2 == x / p % 2
  {
    var y := q * h;
    assert 128 * h == y * p by {
      MulAssociative(p, q, h);
    }
    Expand(p, x / p, 2 * y);
    assert 0x100 * h == (2 * y) * p by {
      MulAssociative(2, y, p);
    }
    DivisionIsUnique(x + 0x100 * h, p, x / p + 2 * y, x % p);
  }

  /** Bit t of a little-endian number is bit t % 8 of octet t / 8. */
  lemma BitOfOctets(b: seq<octet>, t: nat)
    requires t < 8 * |b|
    ensures Bit(LittleEndian(b, |b|), t) == Bit(b[t / 8], t % 8)
  {
    var j, r := t / 8, t % 8;
    var x, w := LittleEndian(b, |b|), Pow256(j);
    SplitAbove(b, j);
    OctetRange(b, j);
    PowOctet(j);
    PowAdds(2, 8 * j, r);
    PowPositive(2, r);
    DivisionIsUnique(x, w, Above(b, j), LittleEndian(b, j));
    DivideTwice(x, w, Pow(2, r));
    OctetBit(b[j], Above(b, j + 1), r);
  }

  lemma {:induction false} PrefixOctets(b: seq<octet>, c: seq<octet>, n: nat)
    requires n <= |b| && n <= |c|
    requires forall k :: 0 <= k < n ==> b[k] == c[k]
    ensures LittleEndian(b, n) == LittleEndian(c, n)
  {
    if n != 0 {
      PrefixOctets(b, c, n - 1);
    }
  }

  lemma TwoTo255(n: nat)
    requires n == 255
    ensures Pow(2, n) == P + 19
  {
    PowAdds(2, 1, n);
    assert Pow(2, 1) == 2;
    PowOfPow(16);
    WeightValues();
  }

  /** Swapping back after a step and swapping again before the next is one deferred swap. */
  lemma DeferredSwap(p: Points, swap: int, bit: int)
    requires 0 <= swap <= 1 && 0 <= bit <= 1
    ensures Cswap(bit, Cswap(swap, p)) == Cswap(if swap == bit then 0 else 1, p)
  {
  }

  lemma OneAndZero(s: seq<int64>, t: seq<int64>)
    requires |s| == |t| == 16 && s[0] == 1
    requires forall k :: 1 <= k < 16 ==> s[k] == 0
    requires forall k :: 0 <= k < 16 ==> t[k] == 0
    ensures Residue(s) == 1 && Residue(t) == 0
  {
    EvalZero(t, 16);
    EvalUpdate(t, 0, 1, 16);
    assert t[0 := 1] == s;
    assert Weight(0) == 1;
    PrimeIs();
    ResidueIs(0);
    ResidueIs(1);
  }

  method ClampScalar(scalar: array<octet>) returns (clamped: array<octet>)
    requires scalar.Length == 32
    ensures fresh(clamped) && clamped.Length == 32 && clamped[..] == Clamp(scalar[..])
  {
    clamped := new octet[32];
    for i := 0 to 32
      invariant clamped[..i] == scalar[..i]
    {
      clamped[i] := scalar[i];
    }
    assert clamped[..] == scalar[..];
    clamped[0] := clamped[0] - clamped[0] % 8;
    clamped[31] := clamped[31] % 64 + 64;
  }

  /** The constant 121665 as two limbs. */
  method Constant121665() returns (k: array<int64>)
    ensures fresh(k) && k.Length == 16
    ensures Within(k[..], 0x400_0000) && Residue(k[..]) == A24
  {
    k := new int64[16](i => if i == 0 then 0xdb41 else if i == 1 then 1 else 0);
    ghost var zero := seq(16, i => 0 as int64);
    EvalZero(zero, 16);
    EvalUpdate(zero, 0, 0xdb41, 16);
    EvalUpdate(zero[0 := 0xdb41], 1, 1, 16);
    assert k[..] == zero[0 := 0xdb41][1 := 1];
    WeightValues();
  }

  /** One round of the loop: swap, step, swap back. */
  method LadderRound(a: array<int64>, b: array<int64>, c: array<int64>, d: array<int64>,
      e: array<int64>, f: array<int64>, x: array<int64>, k: array<int64>, bit: int64)
    requires a.Length == b.Length == c.Length == d.Length == e.Length == f.Length == x.Length == k.Length == 16
    requires Apart(a, b, c, d, e, f, x, k)
    requires AllTight(a, b, c, d) && Tight(x[..]) && (bit == 0 || bit == 1)
    requires Within(k[..], 0x400_0000) && Residue(k[..]) == A24
    modifies a, b, c, d, e, f
    ensures AllTight(a, b, c, d)
    ensures Working(a, b, c, d) == Cswap(bit as int, Step(Residue(x[..]), Cswap(bit as int, old(Working(a, b, c, d)))))
  {
    hide Step, Residue, Tight, Within;
    Swap(a, b, bit);
    Swap(c, d, bit);
    LadderStep(a, b, c, d, e, f, x, k);
    Swap(a, b, bit);
    Swap(c, d, bit);
  }

  /** The points (1 : 0) and (x : 1) that the ladder starts from. */
  method StartPoints(a: array<int64>, b: array<int64>, c: array<int64>, d: array<int64>, x: array<int64>)
    requires a.Length == b.Length == c.Length == d.Length == x.Length == 16
    requires a != b && a != c && a != d && b != c && b != d && c != d && x != a && x != b && x != c && x != d
    requires Canonical(x[..])
    modifies a, b, c, d
    ensures AllTight(a, b, c, d)
    ensures Working(a, b, c, d) == Points(1, 0, Residue(x[..]), 1)
  {
    for i := 0 to 16
      invariant forall j :: 0 <= j < i ==> b[j] == x[j] && a[j] == c[j] == d[j] == 0
    {
      b[i] := x[i];
      a[i] := 0;
      c[i] := 0;
      d[i] := 0;
    }
    a[0] := 1;
    d[0] := 1;
    OneAndZero(a[..], c[..]);
    OneAndZero(d[..], c[..]);
    assert b[..] == x[..];
  }

  /** What the loop keeps: undoing the last swap of the standard's ladder gives the arrays. */
  lemma LadderUnfolds(n: nat, x1: int, t: nat, before: Points, bit: int, after: Points)
    requires t < 255 && bit == Bit(n, t)
    requires before == Cswap(Ladder(n, x1, t + 1).1, Ladder(n, x1, t + 1).0)
    requires after == Cswap(bit, Step(x1, Cswap(bit, before)))
    ensures after == Cswap(Ladder(n, x1, t).1, Ladder(n, x1, t).0)
  {
    DeferredSwap(Ladder(n, x1, t + 1).0, Ladder(n, x1, t + 1).1, bit);
  }

  method ScalarMultiply(out: array<octet>, scalar: array<octet>, point: array<octet>)
    requires out.Length == scalar.Length == point.Length == 32
    modifies out
    ensures LittleEndian(out[..], 32) == X25519(old(scalar[..]), old(point[..]))
  {
    hide Mul, Power, Step, Bit, Ladder, Cswap, Tight, Within, Residue, Canonical, LittleEndian;
    ghost var n, x1 := DecodeScalar(scalar[..]), DecodeU(point[..]);
    var clamped := ClampScalar(scalar);
    ghost var bits := clamped[..];
    var k := Constant121665();
    var a, b, c, d := new int64[16], new int64[16], new int64[16], new int64[16];
    var e, f, x := new int64[16], new int64[16], new int64[16];
    UnpackCoordinate(x, point);
    StartPoints(a, b, c, d, x);
    LadderStart(n, x1);
    for i := 255 downto 0
      invariant Tight(x[..]) && Residue(x[..]) == x1
      invariant Within(k[..], 0x400_0000) && Residue(k[..]) == A24
      invariant clamped[..] == bits
      invariant AllTight(a, b, c, d)
      invariant Working(a, b, c, d) == Cswap(Ladder(n, x1, i).1, Ladder(n, x1, i).0)
    {
      BitOfOctets(bits, i);
      var bit := Bit(clamped[i / 8], i % 8) as int64;
      ghost var before := Working(a, b, c, d);
      LadderRound(a, b, c, d, e, f, x, k, bit);
      LadderUnfolds(n, x1, i, before, bit as int, Working(a, b, c, d));
    }
    TightWithin(c[..]);
    TightWithin(a[..]);
    Invert(c, c);
    TightWithin(c[..]);
    FieldMul(a, a, c);
    TightWithin(a[..]);
    Pack(out, a);
  }

  lemma TightWithin(s: seq<int64>)
    ensures Tight(s) ==> Within(s, 0x400_0000) && Within(s, 0x4000_0000_0000_0000)
  {
  }

  lemma LadderStart(n: nat, x1: int)
    ensures Ladder(n, x1, 255) == (Points(1, 0, x1, 1), 0)
    ensures Cswap(0, Points(1, 0, x1, 1)) == Points(1, 0, x1, 1)
  {
  }

  method UnpackCoordinate(x: array<int64>, point: array<octet>)
    requires x.Length == 16 && point.Length == 32
    modifies x
    ensures Canonical(x[..]) && Tight(x[..]) && Residue(x[..]) == DecodeU(point[..])
  {
    Unpack(x, point);
    TwoTo255(255);
  }

  /** The base point has u = 9. */
  method ScalarMultiplyBase(out: array<octet>, scalar: array<octet>)
    requires out.Length == scalar.Length == 32
    modifies out
    ensures LittleEndian(out[..], 32) == X25519(old(scalar[..]), seq(32, i => if i == 0 then 9 else 0))
  {
    var nine := new octet[32](i => if i == 0 then 9 else 0);
    assert nine[..] == seq(32, i => if i == 0 then 9 else 0);
    ScalarMultiply(out, scalar, nine);
  }
}
