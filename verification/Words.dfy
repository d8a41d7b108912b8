/**
 Unsigned integers as sequences of 64-bit words, least significant first, and the word
 operations of BigInteger.cpp as functions on them.
 */
module Words {
  import opened Arithmetic

  newtype uint64 = x: int | 0 <= x < 0x1_0000_0000_0000_0000

  const MAX: uint64 := 0xffff_ffff_ffff_ffff

  /** The weight of word k. */
  ghost function Weight(k: nat): (w: nat)
    ensures 0 < w
  {
    PowPositive(0x1_0000_0000_0000_0000, k);
    Pow(0x1_0000_0000_0000_0000, k)
  }

  /** The number that the first n words stand for. */
  ghost function Prefix(s: seq<uint64>, n: nat): nat
    requires n <= |s|
  {
    if n == 0 then 0
    else
      ScaleOrder(0, s[n - 1] as int, Weight(n - 1));
      Prefix(s, n - 1) + s[n - 1] as int * Weight(n - 1)
  }

  ghost function Number(s: seq<uint64>): nat { Prefix(s, |s|) }

  /** No word of zeros on top, except in the single word zero. */
  predicate Trimmed(s: seq<uint64>) {
    |s| == 1 || (1 < |s| && s[|s| - 1] != 0)
  }

  function AddWrapped(x: uint64, y: uint64): uint64 {
    ((x as int + y as int) % 0x1_0000_0000_0000_0000) as uint64
  }

  function SubWrapped(x: uint64, y: uint64): uint64 {
    ((x as int - y as int) % 0x1_0000_0000_0000_0000) as uint64
  }

  // Addition of one word.

  function Extended(s: seq<uint64>, index: nat): (t: seq<uint64>)
    ensures |t| == if |s| <= index then index + 1 else |s|
    ensures t[..|s|] == s && forall k :: |s| <= k < |t| ==> t[k] == 0
  {
    s + seq(if |s| <= index then index + 1 - |s| else 0, i => 0 as uint64)
  }

  /** The carry loop from word k: an all-ones word is cleared only when it is the top word. */
  function Ripple(s: seq<uint64>, k: nat): (t: seq<uint64>)
    requires k <= |s|
    ensures |s| <= |t| <= |s| + 1
    decreases |s| - k
  {
    if k == |s| then s
    else if s[k] != MAX then s[k := s[k] + 1]
    else if k == |s| - 1 then s[k := 0] + [1]
    else Ripple(s, k + 1)
  }

  function Carries(s: seq<uint64>, i: uint64, index: nat): bool
    requires index < |s|
  {
    s[index] as int + i as int >= 0x1_0000_0000_0000_0000
  }

  /** BigInteger::add. */
  function Added(s: seq<uint64>, i: uint64, index: nat): (t: seq<uint64>)
    ensures |s| <= |t| && index < |t|
  {
    var e := Extended(s, index);
    var t := e[index := AddWrapped(e[index], i)];
    if !Carries(e, i, index) then t
    else if index + 1 == |t| then t + [1]
    else Ripple(t, index + 1)
  }

  /** The all-ones words from word k on that a carry passes without clearing. */
  ghost function Stuck(s: seq<uint64>, k: nat): nat
    requires k <= |s|
    decreases |s| - k
  {
    if k + 1 < |s| && s[k] == MAX then (Weight(k + 1) - Weight(k)) as nat + Stuck(s, k + 1) else 0
  }

  lemma {:induction false} PrefixAgrees(s: seq<uint64>, t: seq<uint64>, n: nat)
    requires n <= |s| && n <= |t| && forall k :: 0 <= k < n ==> s[k] == t[k]
    ensures Prefix(s, n) == Prefix(t, n)
  {
    if n != 0 {
      PrefixAgrees(s, t, n - 1);
    }
  }

  lemma {:induction false} PrefixUpdate(s: seq<uint64>, k: nat, v: uint64, n: nat)
    requires k < n <= |s|
    ensures Prefix(s[k := v], n) == Prefix(s, n) + (v as int - s[k] as int) * Weight(k)
  {
    if k == n - 1 {
      PrefixAgrees(s[k := v], s, n - 1);
      Expand(Weight(k), v as int, -(s[k] as int));
    } else {
      PrefixUpdate(s, k, v, n - 1);
    }
  }

  lemma NumberUpdate(s: seq<uint64>, k: nat, v: uint64)
    requires k < |s|
    ensures Number(s[k := v]) == Number(s) + (v as int - s[k] as int) * Weight(k)
  {
    PrefixUpdate(s, k, v, |s|);
  }

  lemma NumberAppend(s: seq<uint64>, v: uint64)
    ensures Number(s + [v]) == Number(s) + v as int * Weight(|s|)
  {
    PrefixAgrees(s + [v], s, |s|);
  }

  lemma {:induction false} PrefixZeros(s: seq<uint64>, m: nat, n: nat)
    requires m <= n <= |s| && forall k :: m <= k < n ==> s[k] == 0
    ensures Prefix(s, n) == Prefix(s, m)
  {
    if m != n {
      PrefixZeros(s, m, n - 1);
    }
  }

  lemma NumberExtended(s: seq<uint64>, index: nat)
    ensures Number(Extended(s, index)) == Number(s)
  {
    var e := Extended(s, index);
    forall k | 0 <= k < |s|
      ensures e[k] == s[k]
    {
      assert e[..|s|][k] == s[k];
    }
    PrefixAgrees(e, s, |s|);
    PrefixZeros(e, |s|, |e|);
  }

  lemma WeightStep(k: nat)
    ensures Weight(k + 1) == 0x1_0000_0000_0000_0000 * Weight(k)
  {
  }

  /** The carry loop adds its carry, and whatever all-ones words it left standing. */
  lemma {:induction false} RippleNumber(s: seq<uint64>, k: nat)
    requires k < |s|
    ensures Number(Ripple(s, k)) == Number(s) + Weight(k) + Stuck(s, k)
    decreases |s| - k
  {
    if s[k] != MAX {
      NumberUpdate(s, k, s[k] + 1);
    } else if k == |s| - 1 {
      NumberUpdate(s, k, 0);
      NumberAppend(s[k := 0], 1);
      WeightStep(k);
    } else {
      RippleNumber(s, k + 1);
    }
  }

  /** What BigInteger::add adds beyond i * 2^(64 * index). */
  ghost function Excess(s: seq<uint64>, i: uint64, index: nat): nat {
    var e := Extended(s, index);
    if Carries(e, i, index) then Stuck(e, index + 1) else 0
  }

  lemma StuckIgnores(s: seq<uint64>, t: seq<uint64>, k: nat)
    requires k <= |s| == |t| && forall j :: k <= j < |s| ==> s[j] == t[j]
    ensures Stuck(s, k) == Stuck(t, k)
    decreases |s| - k
  {
  }

  /** add raises the number by i * 2^(64 * index) and the excess. */
  lemma AddedNumber(s: seq<uint64>, i: uint64, index: nat)
    ensures Number(Added(s, i, index)) == Number(s) + i as int * Weight(index) + Excess(s, i, index)
  {
    hide Weight, Extended, Ripple;
    var e := Extended(s, index);
    var v := AddWrapped(e[index], i);
    var t := e[index := v];
    NumberExtended(s, index);
    NumberUpdate(e, index, v);
    WeightStep(index);
    if !Carries(e, i, index) {
    } else {
      CarryOfAdd(e[index] as int, i as int, v as int, Weight(index));
      if index + 1 == |t| {
        NumberAppend(t, 1);
      } else {
        RippleNumber(t, index + 1);
        StuckIgnores(t, e, index + 1);
      }
    }
  }

  lemma CarryOfAdd(x: int, y: int, v: int, w: int)
    requires v == x + y - 0x1_0000_0000_0000_0000
    ensures (v - x) * w + 0x1_0000_0000_0000_0000 * w == y * w
  {
    Expand(w, v - x, 0x1_0000_0000_0000_0000);
  }

  /** The carry of an addition meets an all-ones word that is not the top word. */
  predicate CarryMeetsFullWord(s: seq<uint64>, i: uint64, index: nat) {
    && index + 2 < |s|
    && s[index] as int + i as int >= 0x1_0000_0000_0000_0000
    && s[index + 1] == MAX
  }

  /** add is exact unless the carry meets a full word below the top. */
  lemma AddExact(s: seq<uint64>, i: uint64, index: nat)
    ensures Excess(s, i, index) == 0 <==> !CarryMeetsFullWord(s, i, index)
    ensures Number(Added(s, i, index)) == Number(s) + i as int * Weight(index) <==> !CarryMeetsFullWord(s, i, index)
  {
    AddedNumber(s, i, index);
    var e := Extended(s, index);
    if index < |s| {
      assert e == s;
      if Carries(e, i, index) && index + 2 < |s| && s[index + 1] == MAX {
        WeightStep(index + 1);
      }
    }
  }

  /** operator+=: the words of b added one after the other. */
  function AddedAll(s: seq<uint64>, b: seq<uint64>, n: nat): (t: seq<uint64>)
    requires n <= |b|
    ensures |s| <= |t| && n <= |t|
  {
    if n == 0 then s else Added(AddedAll(s, b, n - 1), b[n - 1], n - 1)
  }

  /** Some word addition of a sum is inexact. */
  ghost predicate StepLosesCarry(s: seq<uint64>, b: seq<uint64>, n: nat)
    requires n <= |b|
  {
    exists k :: 0 <= k < n && CarryMeetsFullWord(AddedAll(s, b, k), b[k], k)
  }

  /** The true carry out of the first k + 1 words of the operands goes to a full word below the top. */
  ghost predicate CarryBelowTop(s: seq<uint64>, b: seq<uint64>, k: nat)
    requires k < |b|
  {
    k + 2 < |s| && s[k + 1] == MAX && Prefix(s, k + 1) + Prefix(b, k + 1) >= Weight(k + 1)
  }

  /** Somewhere below the top, the carry of the first n words goes to a full word. */
  ghost predicate SumLosesCarry(s: seq<uint64>, b: seq<uint64>, n: nat)
    requires n <= |b|
  {
    exists k :: 0 <= k < n && CarryBelowTop(s, b, k)
  }

  lemma StepLosesMore(s: seq<uint64>, b: seq<uint64>, n: nat)
    requires 0 < n <= |b|
    ensures StepLosesCarry(s, b, n)
      <==> StepLosesCarry(s, b, n - 1) || CarryMeetsFullWord(AddedAll(s, b, n - 1), b[n - 1], n - 1)
  {
    hide CarryMeetsFullWord, AddedAll;
  }

  lemma SumLosesMore(s: seq<uint64>, b: seq<uint64>, n: nat)
    requires 0 < n <= |b|
    ensures SumLosesCarry(s, b, n) <==> SumLosesCarry(s, b, n - 1) || CarryBelowTop(s, b, n - 1)
  {
    hide CarryBelowTop;
  }

  /** A sum is exact exactly when none of its word additions meets a full word below the top. */
  lemma {:induction false} StepsExact(s: seq<uint64>, b: seq<uint64>, n: nat)
    requires n <= |b|
    ensures Number(AddedAll(s, b, n)) >= Number(s) + Prefix(b, n)
    ensures Number(AddedAll(s, b, n)) == Number(s) + Prefix(b, n) <==> !StepLosesCarry(s, b, n)
  {
    hide Weight, Added, CarryMeetsFullWord, Excess, Number, StepLosesCarry;
    if n == 0 {
      NoStepLoses(s, b);
    } else {
      StepsExact(s, b, n - 1);
      AddedNumber(AddedAll(s, b, n - 1), b[n - 1], n - 1);
      AddExact(AddedAll(s, b, n - 1), b[n - 1], n - 1);
      StepLosesMore(s, b, n);
    }
  }

  lemma NoStepLoses(s: seq<uint64>, b: seq<uint64>)
    ensures !StepLosesCarry(s, b, 0) && !SumLosesCarry(s, b, 0)
  {
  }

  /** While no carry is lost, the words above k are untouched, and word k has gained exactly the true carry. */
  ghost predicate CarryArrived(s: seq<uint64>, b: seq<uint64>, t: seq<uint64>, k: nat)
    requires k < |s| && k <= |b|
  {
    |t| == |s| && t[k + 1..] == s[k + 1..] && Prefix(t, k + 1) == Prefix(s, k + 1) + Prefix(b, k)
  }

  lemma OverflowIsCarry(x: int, m: int, w: int, p: int)
    requires 0 <= p < w
    ensures x * w + p >= m * w <==> x >= m
  {
    if x >= m {
      ScaleOrder(m, x, w);
    } else {
      ScaleOrder(x + 1, m, w);
    }
  }

  /** The word addition at k loses its carry exactly when the operands say so. */
  lemma StepAgrees(s: seq<uint64>, b: seq<uint64>, t: seq<uint64>, k: nat)
    requires k + 2 < |s| && k < |b| && CarryArrived(s, b, t, k)
    ensures t[k + 1] == s[k + 1]
    ensures t[k] as int + b[k] as int >= 0x1_0000_0000_0000_0000
      <==> Prefix(s, k + 1) + Prefix(b, k + 1) >= Weight(k + 1)
    ensures CarryMeetsFullWord(t, b[k], k) <==> CarryBelowTop(s, b, k)
  {
    hide Weight;
    assert t[k + 1] == t[k + 1..][0] == s[k + 1..][0];
    NumberRange(t, k);
    WeightStep(k);
    Expand(Weight(k), t[k] as int, b[k] as int);
    OverflowIsCarry(t[k] as int + b[k] as int, 0x1_0000_0000_0000_0000, Weight(k), Prefix(t, k));
  }

  /** An addition that keeps its carry brings it to the next word. */
  lemma StepArrives(s: seq<uint64>, b: seq<uint64>, t: seq<uint64>, k: nat)
    requires k + 2 < |s| && k < |b| && CarryArrived(s, b, t, k) && !CarryMeetsFullWord(t, b[k], k)
    ensures CarryArrived(s, b, Added(t, b[k], k), k + 1)
  {
    hide Weight, Prefix;
    StepAgrees(s, b, t, k);
    var v := AddWrapped(t[k], b[k]);
    var u := t[k := v];
    assert Extended(t, k) == t;
    PrefixUpdate(t, k, v, k + 2);
    PrefixOneMore(t, k + 1);
    PrefixOneMore(s, k + 1);
    PrefixOneMore(b, k);
    if Carries(t, b[k], k) {
      assert Added(t, b[k], k) == u[k + 1 := u[k + 1] + 1];
      PrefixUpdate(u, k + 1, u[k + 1] + 1, k + 2);
      WeightStep(k);
      CarryOfAdd(t[k] as int, b[k] as int, v as int, Weight(k));
    } else {
      assert Added(t, b[k], k) == u;
    }
    var r := Added(t, b[k], k);
    assert t[k + 2..] == t[k + 1..][1..] && s[k + 2..] == s[k + 1..][1..];
    assert r[k + 2..] == t[k + 2..];
  }

  lemma NothingBelow(s: seq<uint64>)
    ensures Weight(0) == 1 && Prefix(s, 0) == 0
  {
  }

  lemma PrefixOneMore(s: seq<uint64>, n: nat)
    requires n < |s|
    ensures Prefix(s, n + 1) == Prefix(s, n) + s[n] as int * Weight(n)
  {
  }

  lemma AddedLength(s: seq<uint64>, i: uint64, index: nat)
    ensures |Added(s, i, index)| <= (if index < |s| then |s| else index + 1) + 1
  {
  }

  /** Below the top the carries arrive; from there on the number is too short for one to be lost. */
  lemma {:induction false} SumSoFar(s: seq<uint64>, b: seq<uint64>, k: nat)
    requires k <= |b| && !SumLosesCarry(s, b, k)
    ensures !StepLosesCarry(s, b, k)
    ensures k + 1 < |s| ==> CarryArrived(s, b, AddedAll(s, b, k), k)
    ensures k + 1 >= |s| ==> |AddedAll(s, b, k)| <= k + 2
  {
    hide Weight, Prefix, Added, CarryMeetsFullWord, CarryBelowTop, CarryArrived, SumLosesCarry, StepLosesCarry;
    if k == 0 {
      NoStepLoses(s, b);
      NothingArrived(s, b);
    } else {
      var t := AddedAll(s, b, k - 1);
      SumLosesMore(s, b, k);
      StepLosesMore(s, b, k);
      SumSoFar(s, b, k - 1);
      AddedLength(t, b[k - 1], k - 1);
      if k + 1 < |s| {
        StepAgrees(s, b, t, k - 1);
        StepArrives(s, b, t, k - 1);
      } else {
        TooShort(s, b, t, k - 1);
      }
    }
  }

  lemma NothingArrived(s: seq<uint64>, b: seq<uint64>)
    ensures 1 < |s| ==> CarryArrived(s, b, s, 0)
  {
  }

  lemma TooShort(s: seq<uint64>, b: seq<uint64>, t: seq<uint64>, k: nat)
    requires k + 2 >= |s| && k < |b|
    requires |t| <= k + 2 || (k + 1 < |s| && CarryArrived(s, b, t, k))
    ensures |t| <= k + 2 && !CarryMeetsFullWord(t, b[k], k)
  {
  }

  /** What happens in the word additions is decided by the operands. */
  lemma {:induction false} LossIsDecided(s: seq<uint64>, b: seq<uint64>, n: nat)
    requires n <= |b|
    ensures StepLosesCarry(s, b, n) <==> SumLosesCarry(s, b, n)
  {
    hide Weight, Prefix, Added, CarryMeetsFullWord, CarryBelowTop, CarryArrived, SumLosesCarry, StepLosesCarry;
    if n == 0 {
      NoStepLoses(s, b);
    } else {
      LossIsDecided(s, b, n - 1);
      SumLosesMore(s, b, n);
      StepLosesMore(s, b, n);
      if !SumLosesCarry(s, b, n - 1) {
        SumSoFar(s, b, n - 1);
        var t := AddedAll(s, b, n - 1);
        if n + 1 < |s| {
          StepAgrees(s, b, t, n - 1);
        } else {
          TooShort(s, b, t, n - 1);
          TopHasNoRoom(s, b, n - 1);
        }
      }
    }
  }

  lemma TopHasNoRoom(s: seq<uint64>, b: seq<uint64>, k: nat)
    requires k + 2 >= |s| && k < |b|
    ensures !CarryBelowTop(s, b, k)
  {
  }

  /** A sum is never too small, and it is exact exactly when no true carry goes to a full word below the top. */
  lemma SumExact(s: seq<uint64>, b: seq<uint64>, n: nat)
    requires n <= |b|
    ensures Number(AddedAll(s, b, n)) >= Number(s) + Prefix(b, n)
    ensures Number(AddedAll(s, b, n)) == Number(s) + Prefix(b, n) <==> !SumLosesCarry(s, b, n)
  {
    hide SumLosesCarry, StepLosesCarry, AddedAll, Number, Prefix;
    StepsExact(s, b, n);
    LossIsDecided(s, b, n);
  }

  /** Adding one to 2^128 - 1 held in three words leaves the middle word full. */
  lemma SumLosesCarryExample()
    ensures Added([MAX, MAX, 5], 1, 0) == [0, MAX, 6]
    ensures SumLosesCarry([MAX, MAX, 5], [1], 1)
  {
    hide Prefix, Weight;
    var s := [MAX, MAX, 5];
    assert Extended(s, 0) == s;
    var t: seq<uint64> := [0, MAX, 5];
    assert Carries(s, 1, 0) && AddWrapped(s[0], 1) == 0 && s[0 := 0] == t;
    assert Ripple(t, 1) == Ripple(t, 2) == t[2 := 6] == [0, MAX, 6];
    var one: seq<uint64> := [1];
    NothingBelow(s);
    NothingBelow(one);
    WeightStep(0);
    PrefixOneMore(s, 0);
    PrefixOneMore(one, 0);
    assert CarryBelowTop(s, one, 0);
  }

  lemma {:induction false} RippleTop(s: seq<uint64>, k: nat)
    requires k < |s| && s[|s| - 1] != 0
    ensures var t := Ripple(s, k); t[|t| - 1] != 0
    decreases |s| - k
  {
    if s[k] == MAX && k != |s| - 1 {
      RippleTop(s, k + 1);
    }
  }

  /** Sums of trimmed numbers are trimmed. */
  lemma {:induction false} SumTrimmed(s: seq<uint64>, b: seq<uint64>, n: nat)
    requires Trimmed(s) && Trimmed(b) && n <= |b|
    ensures Trimmed(AddedAll(s, b, n)) || (|AddedAll(s, b, n)| == n < |b|)
  {
    if n != 0 {
      SumTrimmed(s, b, n - 1);
      TopAfterAdd(AddedAll(s, b, n - 1), b[n - 1], n - 1);
    }
  }

  lemma TopAfterAdd(s: seq<uint64>, i: uint64, index: nat)
    requires index <= |s|
    requires index < |s| ==> Trimmed(s)
    requires |s| != 0
    ensures var t := Added(s, i, index);
      (index < |s| || i != 0 ==> Trimmed(t)) && (index == |s| ==> |t| == index + 1)
  {
    var e := Extended(s, index);
    var t := e[index := AddWrapped(e[index], i)];
    if index < |s| {
      assert e == s;
      if Carries(e, i, index) && index + 1 < |t| {
        assert t[|t| - 1] == s[|s| - 1] != 0;
        RippleTop(t, index + 1);
      } else if !Carries(e, i, index) {
        assert t[index] as int == s[index] as int + i as int;
      }
    } else {
      assert e[index] == 0 && !Carries(e, i, index) && t[index] == i;
      assert Added(s, i, index) == t;
    }
  }

  // Subtraction of one word.

  /** The borrow loop from word k. */
  function Borrow(s: seq<uint64>, k: nat): (t: seq<uint64>)
    requires k <= |s|
    ensures |t| == |s|
    decreases |s| - k
  {
    if k == |s| then s
    else if s[k] == 0 then Borrow(s[k := MAX], k + 1)
    else s[k := s[k] - 1]
  }

  /** Zero words are cut from the top, unless every word is zero. */
  function Trim(s: seq<uint64>): (t: seq<uint64>)
    ensures |t| <= |s| && (|s| > 0 ==> |t| > 0)
  {
    if TopNonzero(s, |s|) == 0 then s else s[..TopNonzero(s, |s|)]
  }

  /** The number of words up to the last one below n that is not zero. */
  function TopNonzero(s: seq<uint64>, n: nat): (m: nat)
    requires n <= |s|
    ensures m <= n && (m > 0 ==> s[m - 1] != 0) && forall k :: m <= k < n ==> s[k] == 0
  {
    if n == 0 || s[n - 1] != 0 then n else TopNonzero(s, n - 1)
  }

  /** The words before trimming. */
  function Lowered(s: seq<uint64>, i: uint64, index: nat): (t: seq<uint64>)
    requires index < |s|
    ensures |t| == |s|
  {
    var t := s[index := SubWrapped(s[index], i)];
    if s[index] < i then Borrow(t, index + 1) else t
  }

  /** BigInteger::substract. */
  function Subtracted(s: seq<uint64>, i: uint64, index: nat): (t: seq<uint64>)
    requires index < |s|
    ensures 0 < |t| <= |s|
  {
    Trim(Lowered(s, i, index))
  }

  lemma TrimmedNumber(s: seq<uint64>)
    ensures Number(Trim(s)) == Number(s)
    ensures |s| > 0 ==> Trimmed(Trim(s)) || Number(s) == 0
  {
    var m := TopNonzero(s, |s|);
    PrefixZeros(s, m, |s|);
    if m != 0 {
      PrefixAgrees(s[..m], s, m);
    }
  }

  /** The borrow loop takes one unit of weight k, or wraps around the whole number. */
  lemma {:induction false} BorrowNumber(s: seq<uint64>, k: nat)
    requires k <= |s|
    ensures Number(Borrow(s, k)) == Number(s) - Weight(k) || Number(Borrow(s, k)) == Number(s) - Weight(k) + Weight(|s|)
    decreases |s| - k
  {
    hide Number;
    if k != |s| {
      if s[k] == 0 {
        NumberUpdate(s, k, MAX);
        WeightStep(k);
        BorrowNumber(s[k := MAX], k + 1);
      } else {
        NumberUpdate(s, k, s[k] - 1);
      }
    }
  }

  lemma {:induction false} NumberRange(s: seq<uint64>, n: nat)
    requires n <= |s|
    ensures Prefix(s, n) < Weight(n)
  {
    if n != 0 {
      NumberRange(s, n - 1);
      WeightStep(n - 1);
      ScaleOrder(s[n - 1] as int, 0xffff_ffff_ffff_ffff, Weight(n - 1));
    }
  }

  /** One subtraction is exact modulo 2^(64 * size): exact if the number is large enough, and a wrap otherwise. */
  lemma SubtractedNumber(s: seq<uint64>, i: uint64, index: nat)
    requires index < |s|
    ensures var d := Number(s) - i as int * Weight(index);
      Number(Subtracted(s, i, index)) == if 0 <= d then d else d + Weight(|s|)
    ensures Trimmed(Subtracted(s, i, index)) || Number(Subtracted(s, i, index)) == 0
  {
    hide Weight, Number, Borrow, Trim;
    var v := SubWrapped(s[index], i);
    var t := s[index := v];
    var r := Lowered(s, i, index);
    NumberUpdate(s, index, v);
    TrimmedNumber(r);
    RangeOf(r);
    RangeOf(s);
    if s[index] < i {
      BorrowNumber(t, index + 1);
      WeightStep(index);
      BorrowOfSubtract(s[index] as int, i as int, v as int, Weight(index));
    } else {
      BorrowFree(s[index] as int, i as int, v as int, Weight(index));
    }
  }

  lemma RangeOf(s: seq<uint64>)
    ensures Number(s) < Weight(|s|)
  {
    NumberRange(s, |s|);
  }

  lemma BorrowFree(x: int, y: int, v: int, w: int)
    requires v == x - y
    ensures (v - x) * w == -(y * w)
  {
  }

  lemma BorrowOfSubtract(x: int, y: int, v: int, w: int)
    requires v == x - y + 0x1_0000_0000_0000_0000
    ensures (v - x) * w - 0x1_0000_0000_0000_0000 * w == -(y * w)
  {
    Expand(w, v - x, -0x1_0000_0000_0000_0000);
  }

  /** operator-=: the words of b taken off one after the other, as long as the index exists. */
  function SubtractedAll(s: seq<uint64>, b: seq<uint64>, n: nat): (t: seq<uint64>)
    requires n <= |b| && 0 < |s|
    ensures 0 < |t| <= |s|
  {
    if n == 0 then s
    else
      var t := SubtractedAll(s, b, n - 1);
      if n - 1 < |t| then Subtracted(t, b[n - 1], n - 1) else t
  }

  /** Every index that operator-= uses is inside the number at that moment. */
  ghost predicate IndexesInside(s: seq<uint64>, b: seq<uint64>)
    requires 0 < |s|
  {
    forall k :: 0 <= k < |b| ==> k < |SubtractedAll(s, b, k)|
  }

  lemma {:induction false} PrefixGrows(s: seq<uint64>, m: nat, n: nat)
    requires m <= n <= |s|
    ensures Prefix(s, m) <= Prefix(s, n)
    ensures m < n && s[n - 1] != 0 ==> Prefix(s, m) + Weight(m) <= Prefix(s, n)
  {
    if m != n {
      PrefixGrows(s, m, n - 1);
      if s[n - 1] != 0 {
        ScaleOrder(1, s[n - 1] as int, Weight(n - 1));
        WeightGrows(m, n - 1);
      }
    }
  }

  lemma {:induction false} WeightGrows(m: nat, n: nat)
    requires m <= n
    ensures Weight(m) <= Weight(n)
  {
    if m != n {
      WeightGrows(m, n - 1);
      WeightStep(n - 1);
    }
  }

  /** While what is left of b still has its top word, the running difference is long enough to hold it. */
  lemma {:induction false} DifferenceSoFar(s: seq<uint64>, b: seq<uint64>, n: nat)
    requires 0 < |s| && Trimmed(b) && Number(s) >= Number(b) && n <= |b|
    ensures Number(SubtractedAll(s, b, n)) == Number(s) - Prefix(b, n)
    ensures n < |b| ==> n < |SubtractedAll(s, b, n)|
  {
    hide Subtracted, Weight, Number;
    if n != 0 {
      DifferenceSoFar(s, b, n - 1);
      PrefixGrows(b, n, |b|);
      SubtractedNumber(SubtractedAll(s, b, n - 1), b[n - 1], n - 1);
      NumberIsPrefix(b);
    }
    if n != 0 && n < |b| {
      LongEnough(SubtractedAll(s, b, n), b, n);
    }
  }

  lemma NumberIsPrefix(b: seq<uint64>)
    ensures Number(b) == Prefix(b, |b|)
  {
  }

  lemma LongEnough(t: seq<uint64>, b: seq<uint64>, n: nat)
    requires n < |b| && b[|b| - 1] != 0 && Number(t) >= Number(b) - Prefix(b, n)
    ensures n < |t|
  {
    PrefixGrows(b, n, |b|);
    RangeOf(t);
    if |t| <= n {
      WeightGrows(|t|, n);
    }
  }

  /** A difference that starts from words enough for its zero: everything goes in the first word, and no word is cut. */
  ghost predicate EndsInFirstWord(s: seq<uint64>, b: seq<uint64>) {
    Number(s) == Number(b) < 0x1_0000_0000_0000_0000 && |b| <= |s|
  }

  /** What is left of the number is at most what the words of b say, as long as no index is outside. */
  lemma {:induction false} InsideSoFar(s: seq<uint64>, b: seq<uint64>, n: nat)
    requires 0 < |s| && Number(s) >= Number(b) && n <= |b|
    requires forall k :: 0 <= k < n ==> k < |SubtractedAll(s, b, k)|
    ensures Number(SubtractedAll(s, b, n)) == Number(s) - Prefix(b, n)
    ensures n != 0 ==> Trimmed(SubtractedAll(s, b, n)) || Number(SubtractedAll(s, b, n)) == 0
  {
    hide Subtracted, Weight, Number;
    if n != 0 {
      InsideSoFar(s, b, n - 1);
      PrefixGrows(b, n, |b|);
      SubtractedNumber(SubtractedAll(s, b, n - 1), b[n - 1], n - 1);
      NumberIsPrefix(b);
    }
  }

  /** A running difference that is zero is short, unless it became zero in the first word. */
  lemma {:induction false} ZeroIsShort(s: seq<uint64>, b: seq<uint64>, n: nat)
    requires 0 < |s| && Number(s) >= Number(b) && 0 < n <= |b|
    requires forall k :: 0 <= k < n ==> k < |SubtractedAll(s, b, k)|
    ensures Number(SubtractedAll(s, b, n)) == 0 ==> |SubtractedAll(s, b, n)| <= n || Number(s) < Weight(1)
  {
    hide Subtracted, Weight, Number;
    InsideSoFar(s, b, n - 1);
    InsideSoFar(s, b, n);
    var t := SubtractedAll(s, b, n - 1);
    WordBelow(b[n - 1], n - 1);
    if n == 1 {
      NothingBelow(b);
    } else if Number(t) == 0 {
      ZeroIsShort(s, b, n - 1);
    } else if Number(t) < Weight(n) {
      LengthOf(t, n);
    }
  }

  lemma WordBelow(v: uint64, k: nat)
    ensures v as int * Weight(k) < Weight(k + 1)
  {
    WeightStep(k);
    ScaleOrder(v as int, 0xffff_ffff_ffff_ffff, Weight(k));
  }

  /** A trimmed number that is not zero has as many words as it needs. */
  lemma LengthOf(t: seq<uint64>, n: nat)
    requires Trimmed(t) && Number(t) != 0
    ensures |t| <= n <==> Number(t) < Weight(n)
  {
    RangeOf(t);
    if |t| <= n {
      WeightGrows(|t|, n);
    } else {
      if t[|t| - 1] == 0 {
        SingleZero(t);
      }
      PrefixGrows(t, |t| - 1, |t|);
      WeightGrows(n, |t| - 1);
    }
  }

  lemma SingleZero(t: seq<uint64>)
    requires Trimmed(t) && t[|t| - 1] == 0
    ensures Number(t) == 0
  {
    NothingBelow(t);
  }

  /** Numbers that agree and fit in one word: every step keeps the length. */
  lemma {:induction false} ZerosKeepLength(s: seq<uint64>, b: seq<uint64>, n: nat)
    requires 0 < |s| && 0 < |b| && EndsInFirstWord(s, b) && n <= |b|
    ensures |SubtractedAll(s, b, n)| == |s|
    ensures Number(SubtractedAll(s, b, n)) == Number(s) - Prefix(b, n)
  {
    hide Subtracted, Weight, Number;
    if n != 0 {
      ZerosKeepLength(s, b, n - 1);
      var t := SubtractedAll(s, b, n - 1);
      PrefixGrows(b, n, |b|);
      NumberIsPrefix(b);
      SubtractedNumber(t, b[n - 1], n - 1);
      SmallNumber(b, n);
      ZeroKeepsLength(t, b[n - 1], n - 1);
    }
  }

  /** Below 2^64 every word but the first is zero. */
  lemma SmallNumber(b: seq<uint64>, n: nat)
    requires 0 < n <= |b| && Number(b) < 0x1_0000_0000_0000_0000
    ensures Prefix(b, n) == Number(b)
  {
    NothingBelow(b);
    WeightStep(0);
    if Prefix(b, n) != Number(b) {
      FirstNonzero(b, n, |b|);
    }
  }

  lemma {:induction false} FirstNonzero(b: seq<uint64>, n: nat, m: nat)
    requires 0 < n <= m <= |b| && Prefix(b, n) != Prefix(b, m)
    ensures Prefix(b, m) >= Weight(1)
  {
    hide Weight;
    if b[m - 1] != 0 {
      if n < m {
        PrefixGrows(b, n, m);
        WeightGrows(1, n);
      }
    } else {
      FirstNonzero(b, n, m - 1);
    }
  }

  /** A zero result is not cut. */
  lemma ZeroKeepsLength(t: seq<uint64>, i: uint64, index: nat)
    requires index < |t| && Number(Subtracted(t, i, index)) == 0
    ensures |Subtracted(t, i, index)| == |t|
  {
    var r := Lowered(t, i, index);
    TrimmedNumber(r);
    if TopNonzero(r, |r|) != 0 {
      TopCounts(r, TopNonzero(r, |r|));
    }
  }

  lemma TopCounts(r: seq<uint64>, m: nat)
    requires 0 < m <= |r| && r[m - 1] != 0
    ensures Number(r) != 0
  {
    PrefixGrows(r, m - 1, m);
    PrefixGrows(r, m, |r|);
  }

  /**
   Where a -= b with zero words on top of b stays inside: the difference reaches as far as b, or
   all is in the first word.
   */
  lemma UntrimmedInside(s: seq<uint64>, b: seq<uint64>)
    requires 0 < |s| && 0 < |b| && Number(s) >= Number(b) && !Trimmed(b)
    ensures IndexesInside(s, b) <==> Number(s) - Number(b) >= Weight(|b| - 1) || EndsInFirstWord(s, b)
  {
    hide Subtracted, Weight, Number;
    var m := |b|;
    if IndexesInside(s, b) {
      assert m - 1 < |SubtractedAll(s, b, m - 1)|;
      InsideSoFar(s, b, m - 1);
      ZeroIsShort(s, b, m - 1);
      PrefixOneMore(b, m - 1);
      NumberIsPrefix(b);
      NothingBelow(b);
      WeightStep(0);
      SubtractedShorter(s, b, m - 1);
      if Number(SubtractedAll(s, b, m - 1)) != 0 {
        LengthOf(SubtractedAll(s, b, m - 1), m - 1);
      }
    } else if EndsInFirstWord(s, b) {
      forall k | 0 <= k < m
        ensures k < |SubtractedAll(s, b, k)|
      {
        ZerosKeepLength(s, b, k);
      }
    } else if Number(s) - Number(b) >= Weight(m - 1) {
      ReachesFar(s, b, m);
    }
  }

  lemma SubtractedShorter(s: seq<uint64>, b: seq<uint64>, n: nat)
    requires 0 < |s| && n <= |b|
    ensures |SubtractedAll(s, b, n)| <= |s|
  {
  }

  lemma {:induction false} ReachesFar(s: seq<uint64>, b: seq<uint64>, n: nat)
    requires 0 < |s| && 0 < |b| && n <= |b| && Number(s) >= Number(b) + Weight(|b| - 1)
    ensures forall k :: 0 <= k < n ==> k < |SubtractedAll(s, b, k)|
  {
    hide Subtracted, Weight, Number;
    if n != 0 {
      ReachesFar(s, b, n - 1);
      InsideSoFar(s, b, n - 1);
      var t := SubtractedAll(s, b, n - 1);
      PrefixGrows(b, n - 1, |b|);
      NumberIsPrefix(b);
      RangeOf(t);
      if |t| <= n - 1 {
        WeightGrows(|t|, |b| - 1);
      }
    }
  }

  /** What the operands must be for a -= b to stay inside its words and to be subtraction. */
  ghost predicate Subtractable(s: seq<uint64>, b: seq<uint64>)
    requires 0 < |b|
  {
    Number(s) >= Number(b) && (Trimmed(b) || Number(s) - Number(b) >= Weight(|b| - 1) || EndsInFirstWord(s, b))
  }

  /** a -= b stays inside its words and is subtraction exactly on these operands. */
  lemma DifferenceExact(s: seq<uint64>, b: seq<uint64>)
    requires 0 < |s| && 0 < |b|
    ensures IndexesInside(s, b) && Number(SubtractedAll(s, b, |b|)) == Number(s) - Number(b) <==> Subtractable(s, b)
  {
    hide Weight, Number, EndsInFirstWord;
    if Number(s) >= Number(b) {
      if Trimmed(b) {
        forall k | 0 <= k < |b|
          ensures k < |SubtractedAll(s, b, k)|
        {
          DifferenceSoFar(s, b, k);
        }
      } else {
        UntrimmedInside(s, b);
      }
      if IndexesInside(s, b) {
        InsideSoFar(s, b, |b|);
        NumberIsPrefix(b);
      }
    }
  }

  /** For numbers without zero words on top, that is a - b for every b up to a. */
  lemma DifferenceOfTrimmed(s: seq<uint64>, b: seq<uint64>)
    requires Trimmed(s) && 0 < |b|
    ensures Subtractable(s, b) <==> Number(s) >= Number(b) && (Trimmed(b) || Number(s) - Number(b) >= Weight(|b| - 1))
  {
    WeightStep(0);
    NothingBelow(s);
    if 1 < |s| {
      PrefixGrows(s, |s| - 1, |s|);
      WeightGrows(1, |s| - 1);
    }
  }

  /** The difference of equal numbers of several words keeps its zero words, and cannot always be taken off again. */
  lemma ZeroIsNotTrimmed()
    ensures SubtractedAll([5, 7], [5, 7], 2) == [0, 0]
    ensures !IndexesInside([5], SubtractedAll([5, 7], [5, 7], 2))
  {
    var s: seq<uint64> := [5, 7];
    assert SubtractedAll(s, s, 0) == s;
    assert Lowered(s, 5, 0) == [0, 7];
    assert Subtracted(s, 5, 0) == [0, 7];
    assert SubtractedAll(s, s, 1) == [0, 7];
    assert Lowered([0, 7], 7, 1) == [0, 0];
    assert TopNonzero([0, 0], 2) == TopNonzero([0, 0], 1) == TopNonzero([0, 0], 0) == 0;
    var five: seq<uint64> := [5];
    var zeros: seq<uint64> := [0, 0];
    SubtractedShorter(five, zeros, 1);
  }

  /**
   After an exact sum, the same number can be taken off again exactly where that stays inside, and
   gives the first number back.
   */
  lemma SumThenDifference(s: seq<uint64>, b: seq<uint64>)
    requires 0 < |s| && 0 < |b| && !SumLosesCarry(s, b, |b|)
    ensures var t := AddedAll(s, b, |b|);
      IndexesInside(t, b) && Number(SubtractedAll(t, b, |b|)) == Number(s)
      <==> Trimmed(b) || Number(s) >= Weight(|b| - 1) || (Number(s) == 0 && Number(b) < 0x1_0000_0000_0000_0000)
  {
    hide SumLosesCarry, AddedAll, SubtractedAll, Weight, Prefix;
    SumExact(s, b, |b|);
    NumberIsPrefix(b);
    DifferenceExact(AddedAll(s, b, |b|), b);
  }
}
