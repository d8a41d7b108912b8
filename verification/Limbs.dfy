/**
 Field elements as 16 signed 64-bit limbs in radix 2^16 (x25519.h), and what a
 limb vector is worth: the integer it stands for and its residue.
 */
module Limbs {
  import opened Arithmetic
  import opened PrimeField

  newtype int64 = x: int | -0x8000_0000_0000_0000 <= x < 0x8000_0000_0000_0000

  ghost predicate InInt64(x: int) {
    -0x8000_0000_0000_0000 <= x < 0x8000_0000_0000_0000
  }

  /** An arithmetic shift right by 16: division rounding towards minus infinity. */
  function Shift16(x: int64): int64 { x / 0x1_0000 }

  /** The 16 low bits of a two's complement number. */
  function Low16(x: int64): int64 { x % 0x1_0000 }

  /** The weight of limb k. */
  ghost function Weight(k: nat): int { Pow(0x1_0000, k) }

  /** The integer that the first n limbs stand for. */
  ghost function Eval(s: seq<int64>, n: nat): int
    requires n <= |s|
  {
    if n == 0 then 0 else Eval(s, n - 1) + s[n - 1] as int * Weight(n - 1)
  }

  ghost function Value(s: seq<int64>): int
    requires |s| == 16
  {
    Eval(s, 16)
  }

  ghost function Residue(s: seq<int64>): int
    requires |s| == 16
  {
    Value(s) % P
  }

  ghost predicate Within(s: seq<int64>, bound: int) {
    forall k :: 0 <= k < |s| ==> -bound <= s[k] as int <= bound
  }

  /** What a multiplication leaves: every limb in [0, 2^16) except limb 0, in [-38, 2^16 + 38). */
  ghost predicate Tight(s: seq<int64>) {
    && |s| == 16
    && -38 <= s[0] < 0x1_0000 + 38
    && forall k :: 1 <= k < 16 ==> 0 <= s[k] < 0x1_0000
  }

  ghost predicate Canonical(s: seq<int64>) {
    && |s| == 16
    && forall k :: 0 <= k < 16 ==> 0 <= s[k] < 0x1_0000
  }

  lemma {:induction false} EvalAgrees(s: seq<int64>, t: seq<int64>, n: nat)
    requires n <= |s| && n <= |t|
    requires forall k :: 0 <= k < n ==> s[k] == t[k]
    ensures Eval(s, n) == Eval(t, n)
  {
    if n != 0 {
      EvalAgrees(s, t, n - 1);
    }
  }

  /** Changing one limb by d changes the value by d times its weight. */
  lemma {:induction false} EvalUpdate(s: seq<int64>, i: nat, v: int64, n: nat)
    requires i < n <= |s|
    ensures Eval(s[i := v], n) == Eval(s, n) + (v as int - s[i] as int) * Weight(i)
  {
    if i == n - 1 {
      EvalAgrees(s[i := v], s, n - 1);
      Distribute(v as int, s[i] as int, Weight(i));
    } else {
      EvalUpdate(s, i, v, n - 1);
    }
  }

  lemma Distribute(x: int, y: int, w: int)
    ensures (x - y) * w == x * w - y * w
  {
  }

  lemma {:induction false} EvalLinear(s: seq<int64>, t: seq<int64>, u: seq<int64>, sign: int, n: nat)
    requires n <= |s| && n <= |t| && n <= |u|
    requires forall k :: 0 <= k < n ==> u[k] as int == s[k] as int + sign * t[k] as int
    ensures Eval(u, n) == Eval(s, n) + sign * Eval(t, n)
  {
    if n != 0 {
      EvalLinear(s, t, u, sign, n - 1);
      CombineStep(Eval(s, n - 1), Eval(t, n - 1), sign, s[n - 1] as int, t[n - 1] as int, Weight(n - 1));
    }
  }

  lemma WeightStep(k: nat)
    ensures Weight(k + 1) == 0x1_0000 * Weight(k)
  {
  }

  /** A carry out of the top limb is worth a multiple of p and 38. */
  lemma TopWeight()
    ensures Weight(0) == 1 && Weight(16) == 2 * P + 38
  {
    hide Weight;
    WeightValues();
  }

  lemma WeightValues()
    ensures Weight(0) == 1
    ensures Weight(1) == 0x1_0000
    ensures Weight(2) == 0x1_0000_0000
    ensures Weight(4) == 0x1_0000_0000_0000_0000
    ensures Weight(8) == 0x1_0000_0000_0000_0000_0000_0000_0000_0000
    ensures Weight(15) == 0x1_0000_0000_0000_0000_0000_0000_0000_0000_0000_0000_0000_0000_0000_0000_0000
    ensures Weight(16) == 2 * P + 38
  {
    PowAdds(0x1_0000, 1, 1);
    PowAdds(0x1_0000, 2, 2);
    PowAdds(0x1_0000, 4, 4);
    PowAdds(0x1_0000, 8, 8);
    PowAdds(0x1_0000, 15, 1);
    PrimeIs();
  }
}
