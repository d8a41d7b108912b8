/**
 fadd, fsub, fmul and finverse: arithmetic modulo p on limb arrays that may alias.
 */
module FieldOps {
  import opened Arithmetic
  import opened PrimeField
  import opened Limbs
  import opened Carry

  method FieldAdd(out: array<int64>, a: array<int64>, b: array<int64>)
    requires out.Length == a.Length == b.Length == 16
    requires forall k :: 0 <= k < 16 ==> InInt64(a[k] as int + b[k] as int)
    modifies out
    ensures forall k :: 0 <= k < 16 ==> out[k] as int == old(a[k]) as int + old(b[k]) as int
    ensures Residue(out[..]) == Add(old(Residue(a[..])), old(Residue(b[..])))
  {
    ghost var s, t := a[..], b[..];
    for i := 0 to 16
      invariant forall k :: 0 <= k < i ==> out[k] as int == s[k] as int + t[k] as int
      invariant forall k :: i <= k < 16 ==> a[k] == s[k] && b[k] == t[k]
    {
      out[i] := a[i] + b[i];
    }
    EvalLinear(s, t, out[..], 1, 16);
    AddResidues(Value(s), Value(t));
  }

  method FieldSub(out: array<int64>, a: array<int64>, b: array<int64>)
    requires out.Length == a.Length == b.Length == 16
    requires forall k :: 0 <= k < 16 ==> InInt64(a[k] as int - b[k] as int)
    modifies out
    ensures forall k :: 0 <= k < 16 ==> out[k] as int == old(a[k]) as int - old(b[k]) as int
    ensures Residue(out[..]) == Sub(old(Residue(a[..])), old(Residue(b[..])))
  {
    ghost var s, t := a[..], b[..];
    for i := 0 to 16
      invariant forall k :: 0 <= k < i ==> out[k] as int == s[k] as int - t[k] as int
      invariant forall k :: i <= k < 16 ==> a[k] == s[k] && b[k] == t[k]
    {
      out[i] := a[i] - b[i];
    }
    EvalLinear(s, t, out[..], -1, 16);
    AddResidues(Value(s), Value(t));
  }

  lemma ProductBound(x: int, y: int, m: int)
    requires -m <= x <= m && -m <= y <= m
    ensures -(m * m) <= x * y <= m * m
  {
    if y >= 0 {
      ScaleOrder(-m, x, y);
      ScaleOrder(x, m, y);
      ScaleOrder(y, m, m);
    } else {
      ScaleOrder(-m, x, -y);
      ScaleOrder(x, m, -y);
      ScaleOrder(-y, m, m);
    }
  }

  /** Adding one more limb product to a partial row. */
  lemma RowStep(start: int, x: int, y: int, v: int, w: int, partial: int)
    ensures start + (x * v) * partial + (x * y) * (v * w) == start + (x * v) * (partial + y * w)
  {
    SwapFactors(x, y, v, w);
    Expand(x * v, partial, y * w);
  }

  lemma EvalNothing(s: seq<int64>)
    ensures Eval(s, 0) == 0
  {
  }

  lemma EvalMore(s: seq<int64>, j: nat)
    requires j < |s|
    ensures Eval(s, j + 1) == Eval(s, j) + s[j] as int * Weight(j)
  {
  }

  lemma WeightsAdd(i: nat, j: nat)
    ensures Weight(i + j) == Weight(i) * Weight(j)
  {
    PowAdds(0x1_0000, i, j);
  }

  /** One row of the schoolbook product: a limb of a times all of b, added in at its place. */
  method AddRow(product: array<int64>, a: array<int64>, b: array<int64>, i: nat, ghost bound: int)
    requires product.Length == 31 && a.Length == b.Length == 16 && i < 16
    requires product != a && product != b
    requires Within(a[..], 0x400_0000) && Within(b[..], 0x400_0000)
    requires Within(product[..], bound) && 0 <= bound <= 0xf0_0000_0000_0000
    modifies product
    ensures Within(product[..], bound + 0x10_0000_0000_0000)
    ensures Eval(product[..], 31) == old(Eval(product[..], 31)) + (a[i] as int * Weight(i)) * Value(b[..])
  {
    hide Weight, Eval;
    ghost var start, t := Eval(product[..], 31), b[..];
    ghost var x, v := a[i] as int, Weight(i);
    EvalNothing(t);
    for j := 0 to 16
      invariant a[i] as int == x && b[..] == t
      invariant forall k :: 0 <= k < i + j && k < 31 ==>
        -bound - 0x10_0000_0000_0000 <= product[k] as int <= bound + 0x10_0000_0000_0000
      invariant forall k :: i + j <= k < 31 ==> -bound <= product[k] as int <= bound
      invariant Eval(product[..], 31) == start + (x * v) * Eval(t, j)
    {
      ProductBound(x, t[j] as int, 0x400_0000);
      ghost var before := product[..];
      product[i + j] := product[i + j] + a[i] * b[j];
      assert product[..] == before[i + j := product[i + j]];
      EvalUpdate(before, i + j, product[i + j], 31);
      WeightsAdd(i, j);
      EvalMore(t, j);
      RowStep(start, x, t[j] as int, v, Weight(j), Eval(t, j));
    }
  }

  /** Folding the upper 15 limbs of a product down: 2^256 is worth 38. */
  lemma {:induction false} FoldedValue(s: seq<int64>, t: seq<int64>, n: nat)
    requires |s| == |t| == 31 && n <= 15
    requires forall k :: 0 <= k < n ==> t[k] as int == s[k] as int + 38 * s[k + 16] as int
    requires forall k :: n <= k < 16 ==> t[k] == s[k]
    ensures Eval(s, 16 + n) == Eval(t, 16) + 2 * UpperPart(s, n) * P
    decreases n
  {
    if n == 0 {
      EvalAgrees(s, t, 16);
    } else {
      hide Weight, Pow;
      var u := t[n - 1 := s[n - 1]];
      FoldedValue(s, u, n - 1);
      EvalUpdate(u, n - 1, t[n - 1], 16);
      EvalAgrees(u[n - 1 := t[n - 1]], t, 16);
      WeightAbove(n - 1);
      FoldStep(s[n + 15] as int, Weight(n - 1), UpperPart(s, n - 1));
    }
  }

  lemma WeightAbove(k: nat)
    ensures Weight(16 + k) == (2 * P + 38) * Weight(k)
  {
    PowAdds(0x1_0000, 16, k);
    TopWeight();
  }

  /** A limb of weight 2^256 * w is worth 38 * w more than a multiple of 2p. */
  lemma FoldStep(h: int, w: int, upper: int)
    ensures h * ((2 * P + 38) * w) == 2 * (h * w) * P + (38 * h) * w
    ensures 2 * (upper + h * w) * P == 2 * upper * P + 2 * (h * w) * P
  {
    MulAssociative(h, w, 2 * P + 38);
    Expand(h * w, 2 * P, 38);
    MulAssociative(38, h, w);
    Expand(P, 2 * upper, 2 * (h * w));
  }

  ghost function UpperPart(s: seq<int64>, n: nat): int
    requires |s| == 31 && n <= 15
  {
    if n == 0 then 0 else UpperPart(s, n - 1) + s[n + 15] as int * Weight(n - 1)
  }

  /** The limb products of a and b, collected by weight: 31 limbs worth a times b. */
  method Product(a: array<int64>, b: array<int64>) returns (product: array<int64>)
    requires a.Length == b.Length == 16
    requires Within(a[..], 0x400_0000) && Within(b[..], 0x400_0000)
    ensures fresh(product) && product.Length == 31
    ensures Within(product[..], 0x100_0000_0000_0000)
    ensures Eval(product[..], 31) == Value(a[..]) * Value(b[..])
  {
    product := new int64[31];
    for i := 0 to 31
      invariant forall k :: 0 <= k < i ==> product[k] == 0
    {
      product[i] := 0;
    }
    EvalZero(product[..], 31);
    ghost var s, t := a[..], b[..];
    for i := 0 to 16
      invariant a[..] == s && b[..] == t
      invariant Within(product[..], i * 0x10_0000_0000_0000)
      invariant Eval(product[..], 31) == Eval(s, i) * Value(t)
    {
      AddRow(product, a, b, i, i * 0x10_0000_0000_0000);
      Expand(Value(t), Eval(s, i), s[i] as int * Weight(i));
    }
  }

  method Fold(product: array<int64>)
    requires product.Length == 31
    requires Within(product[..], 0x100_0000_0000_0000)
    modifies product
    ensures forall k :: 0 <= k < 15 ==> product[k] as int == old(product[k]) as int + 38 * old(product[k + 16]) as int
    ensures product[15] == old(product[15])
    ensures old(Eval(product[..], 31)) == Eval(product[..], 16) + 2 * UpperPart(old(product[..]), 15) * P
  {
    ghost var full := product[..];
    for i := 0 to 15
      invariant forall k :: 0 <= k < i ==> product[k] as int == full[k] as int + 38 * full[k + 16] as int
      invariant forall k :: i <= k < 31 ==> product[k] == full[k]
    {
      product[i] := product[i] + 38 * product[i + 16];
    }
    FoldedValue(full, product[..], 15);
  }

  lemma FoldedBound(full: seq<int64>, folded: seq<int64>, wide: seq<int64>)
    requires |full| == |folded| == 31 && |wide| == 16
    requires Within(full, 0x100_0000_0000_0000)
    requires forall k :: 0 <= k < 15 ==> folded[k] as int == full[k] as int + 38 * full[k + 16] as int
    requires folded[15] == full[15]
    requires forall k :: 0 <= k < 16 ==> wide[k] == folded[k]
    ensures Within(wide, 0x4000_0000_0000_0000)
  {
    forall k | 0 <= k < 16
      ensures -0x4000_0000_0000_0000 <= wide[k] <= 0x4000_0000_0000_0000
    {
      assert wide[k] == folded[k];
      if k < 15 {
        assert -0x100_0000_0000_0000 <= full[k + 16] as int <= 0x100_0000_0000_0000;
      }
    }
  }

  method FieldMul(out: array<int64>, a: array<int64>, b: array<int64>)
    requires out.Length == a.Length == b.Length == 16
    requires Within(a[..], 0x400_0000) && Within(b[..], 0x400_0000)
    modifies out
    ensures Tight(out[..])
    ensures Residue(out[..]) == Mul(old(Residue(a[..])), old(Residue(b[..])))
  {
    hide Mul, IsCarried, Eval, UpperPart;
    ghost var s, t := a[..], b[..];
    var product := Product(a, b);
    ghost var full := product[..];
    Fold(product);
    ghost var folded := product[..];
    for i := 0 to 16
      invariant product[..] == folded
      invariant forall k :: 0 <= k < i ==> out[k] == folded[k]
    {
      out[i] := product[i];
    }
    ghost var wide := out[..];
    FoldedBound(full, folded, wide);
    CarryPass(out);
    ghost var once := out[..];
    FirstPass(wide, once);
    CarryPass(out);
    SecondPass(once, out[..]);
    ReducedProduct(full, folded, wide, once, out[..]);
    MulResidues(Value(s), Value(t));
  }

  /** Folding and carrying keep the residue of a product. */
  lemma ReducedProduct(full: seq<int64>, folded: seq<int64>, wide: seq<int64>, once: seq<int64>, twice: seq<int64>)
    requires |full| == |folded| == 31
    requires Eval(full, 31) == Eval(folded, 16) + 2 * UpperPart(full, 15) * P
    requires |wide| == 16 && forall k :: 0 <= k < 16 ==> wide[k] == folded[k]
    requires IsCarried(wide, once) && IsCarried(once, twice)
    ensures Residue(twice) == Eval(full, 31) % P
  {
    AddMultiple(Eval(folded, 16), 2 * UpperPart(full, 15));
    EvalAgrees(wide, folded, 16);
    CarriedResidue(wide, once);
    CarriedResidue(once, twice);
  }

  lemma {:induction false} EvalZero(s: seq<int64>, n: nat)
    requires n <= |s| && forall k :: 0 <= k < n ==> s[k] == 0
    ensures Eval(s, n) == 0
  {
    if n != 0 {
      EvalZero(s, n - 1);
    }
  }
}
