/**
 carry25519: one pass of carries over the 16 limbs. The carry out of limb 15 has
 weight 2^256, which is 38 modulo p, and comes back into limb 0.
 */
module Carry {
  import opened Arithmetic
  import opened PrimeField
  import opened Limbs

  /** The carry leaving limb i. */
  ghost function CarryOut(s: seq<int64>, i: nat): int
    requires i < |s|
    decreases i, 1
  {
    (s[i] as int + CarryIn(s, i)) / 0x1_0000
  }

  ghost function CarryIn(s: seq<int64>, i: nat): int
    requires i < |s|
    decreases i, 0
  {
    if i == 0 then 0 else CarryOut(s, i - 1)
  }

  /** Limb i once its carry has left. */
  ghost function Rest(s: seq<int64>, i: nat): int
    requires i < |s|
  {
    (s[i] as int + CarryIn(s, i)) % 0x1_0000
  }

  /** After the pass, t holds the rests of s, with the last carry folded into limb 0. */
  ghost predicate IsCarried(s: seq<int64>, t: seq<int64>) {
    && |s| == |t| == 16
    && t[0] as int == Rest(s, 0) + 38 * CarryOut(s, 15)
    && forall k :: 1 <= k < 16 ==> t[k] as int == Rest(s, k)
  }

  lemma {:induction false} CarryBound(s: seq<int64>, i: nat, bound: int, carry: int)
    requires i < |s| && Within(s, bound)
    requires bound + carry <= 0x1_0000 * carry
    ensures -carry <= CarryOut(s, i) <= carry
  {
    if i != 0 {
      CarryBound(s, i - 1, bound, carry);
    }
  }

  /** The limbs below i hold their rests, and the carry out of them has come to limb i. */
  ghost predicate Carried(s: seq<int64>, t: seq<int64>, i: nat)
    requires i < 16
  {
    && |s| == |t| == 16
    && (forall k :: 0 <= k < i ==> t[k] as int == Rest(s, k))
    && t[i] as int == s[i] as int + CarryIn(s, i)
    && (forall k :: i < k < 16 ==> t[k] == s[k])
  }

  lemma LimbLeaves(s: seq<int64>, i: nat, x: int64)
    requires i < |s| && x as int == s[i] as int + CarryIn(s, i)
    ensures Shift16(x) as int == CarryOut(s, i) && x as int - 0x1_0000 * Shift16(x) as int == Rest(s, i)
    ensures i + 1 < |s| ==> CarryIn(s, i + 1) == CarryOut(s, i)
  {
  }

  method CarryPass(elem: array<int64>)
    requires elem.Length == 16
    requires Within(elem[..], 0x4000_0000_0000_0000)
    modifies elem
    ensures IsCarried(old(elem[..]), elem[..])
  {
    ghost var s := elem[..];
    var carry: int64 := 0;
    for i := 0 to 16
      invariant i < 16 ==> Carried(s, elem[..], i)
      invariant i == 16 ==> IsCarried(s, elem[..])
    {
      hide CarryOut, Rest;
      CarryBound(s, i, 0x4000_0000_0000_0000, 0x8000_0000_0000);
      LimbLeaves(s, i, elem[i]);
      carry := Shift16(elem[i]);
      elem[i] := elem[i] - carry * 0x1_0000;
      if i < 15 {
        elem[i + 1] := elem[i + 1] + carry;
      } else {
        elem[0] := elem[0] + 38 * carry;
      }
    }
  }

  /** The value of the rests below limb n, plus the carry out of them, is the value of the limbs. */
  lemma {:induction false} RestsKeepValue(s: seq<int64>, t: seq<int64>, n: nat)
    requires n <= |s| && n <= |t|
    requires forall k :: 0 <= k < n ==> t[k] as int == Rest(s, k)
    ensures Eval(s, n) == Eval(t, n) + (if n == 0 then 0 else CarryOut(s, n - 1) * Weight(n))
  {
    if n != 0 {
      RestsKeepValue(s, t, n - 1);
      WeightStep(n - 1);
      CarryStep(s[n - 1] as int, CarryIn(s, n - 1), t[n - 1] as int, CarryOut(s, n - 1), 0x1_0000, Weight(n - 1));
    }
  }

  /** One pass subtracts a multiple of 2p: the final carry times 2^256 - 38. */
  lemma CarriedValue(s: seq<int64>, t: seq<int64>)
    requires IsCarried(s, t)
    ensures Value(t) == Value(s) + -2 * CarryOut(s, 15) * P
  {
    hide Weight;
    TopWeight();
    var c := CarryOut(s, 15);
    assert InInt64(Rest(s, 0));
    var u := t[0 := Rest(s, 0) as int64];
    RestsKeepValue(s, u, 16);
    EvalUpdate(u, 0, t[0], 16);
    assert u[0 := t[0]] == t;
    CarryWorth(c);
  }

  lemma CarryWorth(c: int)
    ensures 38 * c - c * (2 * P + 38) == -2 * c * P
  {
    Expand(c, 2 * P, 38);
    MulAssociative(c, 2, P);
    MulAssociative(-1, c * 2, P);
  }

  lemma CarriedResidue(s: seq<int64>, t: seq<int64>)
    requires IsCarried(s, t)
    ensures Residue(t) == Residue(s)
  {
    CarriedValue(s, t);
    var c := CarryOut(s, 15);
    hide IsCarried, Value, CarryOut;
    AddMultiple(Value(s), -2 * c);
  }

  /** A first pass brings every limb but limb 0 into range. */
  lemma FirstPass(s: seq<int64>, t: seq<int64>)
    requires IsCarried(s, t) && Within(s, 0x4000_0000_0000_0000)
    ensures -0x20_0000_0000_0000 <= t[0] <= 0x20_0000_0000_0000
    ensures forall k :: 1 <= k < 16 ==> 0 <= t[k] < 0x1_0000
  {
    CarryBound(s, 15, 0x4000_0000_0000_0000, 0x8000_0000_0000);
  }

  /** From limb 3 on, the carries of a second pass are at most one unit. */
  lemma {:induction false} SmallCarry(s: seq<int64>, i: nat)
    requires 3 <= i < |s| == 16
    requires -0x20_0000_0000_0000 <= s[0] <= 0x20_0000_0000_0000
    requires forall k :: 1 <= k < 16 ==> 0 <= s[k] < 0x1_0000
    ensures -1 <= CarryOut(s, i) <= 1
  {
    if i == 3 {
      assert -0x20_0000_0000 <= CarryOut(s, 0) <= 0x20_0000_0000;
      assert -0x20_0001 <= CarryOut(s, 1) <= 0x20_0001;
      assert -0x22 <= CarryOut(s, 2) <= 0x22;
    } else {
      SmallCarry(s, i - 1);
    }
  }

  lemma SecondPass(s: seq<int64>, t: seq<int64>)
    requires IsCarried(s, t)
    requires -0x20_0000_0000_0000 <= s[0] <= 0x20_0000_0000_0000
    requires forall k :: 1 <= k < 16 ==> 0 <= s[k] < 0x1_0000
    ensures Tight(t)
  {
    SmallCarry(s, 15);
  }

  /** If a unit carry reaches the top, it has crossed limb i, which leaves a full or an empty rest. */
  lemma {:induction false} UnitCarry(s: seq<int64>, i: nat)
    requires Tight(s) && i < 16
    ensures -1 <= CarryOut(s, i) <= 1
    ensures CarryOut(s, i) == 1 ==> Rest(s, 0) < 38
    ensures CarryOut(s, i) == -1 ==> Rest(s, 0) >= 0x1_0000 - 38
  {
    if i != 0 {
      UnitCarry(s, i - 1);
    }
  }

  /** A third pass leaves no limb out of range: three passes normalise. */
  lemma ThirdPass(s: seq<int64>, t: seq<int64>)
    requires IsCarried(s, t) && Tight(s)
    ensures Canonical(t)
  {
    UnitCarry(s, 15);
  }
}
