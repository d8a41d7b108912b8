/**
 unpack25519, swap25519 and pack25519: from octets to limbs and back, through the
 one representative in [0, p).
 */
module Packing {
  import opened Arithmetic
  import opened Bytes
  import opened PrimeField
  import opened Limbs
  import opened Carry
  import opened TwosComplement

  /** Section 5 of RFC 7748 reads octets in little-endian order. */
  ghost function LittleEndian(b: seq<octet>, n: nat): nat
    requires n <= |b|
  {
    if n == 0 then 0 else LittleEndian(b, n - 1) + b[n - 1] * Pow256(n - 1)
  }

  /** Two octets side by side: lo | hi << 8. */
  function Join(lo: octet, hi: octet): int { lo as int + 0x100 * hi as int }

  lemma {:induction false} Pow256Weight(k: nat)
    ensures Pow256(2 * k) == Weight(k)
  {
    if k != 0 {
      Pow256Weight(k - 1);
      assert Pow256(2 * k) == 0x100 * Pow256(2 * k - 1);
    }
  }

  /** Limbs that are pairs of octets have the value of the octets. */
  lemma {:induction false} PairsOfOctets(b: seq<octet>, s: seq<int64>, n: nat)
    requires n <= |s| && |b| == 2 * |s|
    requires forall k :: 0 <= k < n ==> s[k] as int == Join(b[2 * k], b[2 * k + 1])
    ensures Eval(s, n) == LittleEndian(b, 2 * n)
  {
    if n != 0 {
      PairsOfOctets(b, s, n - 1);
      Pow256Weight(n - 1);
      var lo, hi, w := b[2 * n - 2] as int, b[2 * n - 1] as int, Weight(n - 1);
      assert LittleEndian(b, 2 * n - 1) == LittleEndian(b, 2 * n - 2) + lo * w;
      assert Pow256(2 * n - 1) == 0x100 * w;
      CarryStep(lo + 0x100 * hi, 0, lo, hi, 0x100, w);
    }
  }

  method Unpack(out: array<int64>, input: array<octet>)
    requires out.Length == 16 && input.Length == 32
    modifies out
    ensures Canonical(out[..])
    ensures Value(out[..]) == LittleEndian(input[..], 32) % (P + 19)
  {
    for i := 0 to 16
      invariant forall k :: 0 <= k < i ==> out[k] as int == Join(input[2 * k], input[2 * k + 1])
    {
      out[i] := Join(input[2 * i], input[2 * i + 1]) as int64;
    }
    ghost var s := out[..];
    PairsOfOctets(input[..], s, 16);
    out[15] := out[15] % 0x8000;
    assert out[..] == s[15 := s[15] % 0x8000];
    TopBit(s);
  }

  lemma {:induction false} CanonicalRange(s: seq<int64>, n: nat)
    requires n <= |s|
    requires forall k :: 0 <= k < n ==> 0 <= s[k] < 0x1_0000
    ensures 0 <= Eval(s, n) < Weight(n)
  {
    if n != 0 {
      CanonicalRange(s, n - 1);
      var w, x := Weight(n - 1), s[n - 1] as int;
      ScaleOrder(0, x, w);
      ScaleOrder(x, 0xffff, w);
    }
  }

  /** Clearing bit 15 of limb 15 reduces the value modulo 2^255. */
  lemma TopBit(s: seq<int64>)
    requires Canonical(s)
    ensures Value(s[15 := s[15] % 0x8000]) == Value(s) % (P + 19)
  {
    var t := s[15 := s[15] % 0x8000];
    WeightValues();
    EvalUpdate(s, 15, s[15] % 0x8000, 16);
    EvalAgrees(s, t, 15);
    CanonicalRange(t, 15);
    assert Value(t) == Eval(t, 15) + t[15] as int * Weight(15);
    assert 0 <= Value(t) < P + 19;
    if s[15] < 0x8000 {
      assert Value(t) == Value(s);
    } else {
      assert Value(t) == Value(s) - (P + 19);
    }
  }

  /** The limbs of p. */
  function PrimeLimb(k: nat): int64 {
    if k == 0 then 0xffed else if k == 15 then 0x7fff else 0xffff
  }

  ghost function PrimeValue(n: nat): int {
    if n == 0 then 0 else PrimeValue(n - 1) + PrimeLimb(n - 1) as int * Weight(n - 1)
  }

  lemma {:induction false} PrimePrefix(n: nat)
    requires 1 <= n <= 15
    ensures PrimeValue(n) == Weight(n) - 19
  {
    if n == 1 {
      assert PrimeValue(0) == 0 && Weight(0) == 1;
      WeightStep(0);
    } else {
      hide Weight;
      WeightStep(n - 1);
      PrimePrefix(n - 1);
    }
  }

  lemma PrimeLimbs()
    ensures PrimeValue(16) == P
  {
    PrimePrefix(15);
    WeightValues();
  }

  /** Whether a limb of a difference has borrowed: bit 16 of its two's complement. */
  function Borrow(x: int64): int64 { Shift16(x) % 2 }

  /** Masking limb n - 1 and charging its borrow to limb n keeps the value. */
  lemma BorrowStep(r: seq<int64>, s: seq<int64>, t: seq<int64>, n: nat)
    requires 1 <= n < 16 && |s| == |t| == 16
    requires forall k :: 0 <= k < n - 1 ==> t[k] == s[k]
    requires -0x1_0000 <= s[n - 1] < 0x1_0000 && t[n - 1] == Low16(s[n - 1])
    requires n < |r| && t[n] as int == r[n] as int - PrimeLimb(n) as int - Borrow(s[n - 1]) as int
    requires Eval(s, n) == Eval(r, n) - PrimeValue(n)
    ensures Eval(t, n + 1) == Eval(r, n + 1) - PrimeValue(n + 1)
  {
    EvalAgrees(s, t, n - 1);
    var x, b, w := r[n] as int, Borrow(s[n - 1]) as int, Weight(n - 1);
    assert s[n - 1] as int + 0x1_0000 * b == t[n - 1] as int;
    CarryStep(t[n - 1] as int, 0, s[n - 1] as int, b, 0x1_0000, w);
    WeightStep(n - 1);
    CombineStep(0, 0, -1, x, PrimeLimb(n) as int + b, Weight(n));
    Expand(Weight(n), PrimeLimb(n) as int, b);
  }

  /** The limbs of t minus those of p, with borrows; the result says whether the top limb borrowed. */
  method Difference(t: array<int64>, m: array<int64>) returns (carry: int64)
    requires t.Length == m.Length == 16 && t != m && Canonical(t[..])
    modifies m
    ensures forall k :: 0 <= k < 15 ==> 0 <= m[k] < 0x1_0000
    ensures Value(m[..]) == Value(t[..]) - P
    ensures carry == if Value(t[..]) < P then 1 else 0
    ensures m[15] < 0x1_0000 && (carry == 0 ==> 0 <= m[15])
  {
    hide Eval, PrimeValue, Weight;
    ghost var s := t[..];
    m[0] := t[0] - 0xffed;
    FirstLimb(s, m[..]);
    for i := 1 to 15
      invariant t[..] == s
      invariant forall k :: 0 <= k < i - 1 ==> 0 <= m[k] < 0x1_0000
      invariant -0x1_0000 <= m[i - 1] < 0x1_0000
      invariant Eval(m[..], i) == Eval(s, i) - PrimeValue(i)
    {
      ghost var before := m[..];
      m[i] := t[i] - 0xffff - Borrow(m[i - 1]);
      m[i - 1] := Low16(m[i - 1]);
      BorrowStep(s, before, m[..], i);
    }
    ghost var before := m[..];
    m[15] := t[15] - 0x7fff - Borrow(m[14]);
    carry := Borrow(m[15]);
    m[14] := Low16(m[14]);
    BorrowStep(s, before, m[..], 15);
    PrimeLimbs();
    SignOfDifference(m[..]);
  }

  /** One conditional subtraction of p from canonical limbs. */
  method SubtractPrime(t: array<int64>, m: array<int64>)
    requires t.Length == m.Length == 16 && t != m && Canonical(t[..])
    modifies t, m
    ensures Canonical(t[..])
    ensures Value(t[..]) == var v := old(Value(t[..])); if v < P then v else v - P
  {
    var carry := Difference(t, m);
    Swap(t, m, 1 - carry);
  }

  lemma FirstLimb(s: seq<int64>, m: seq<int64>)
    requires |s| == |m| == 16 && m[0] as int == s[0] as int - 0xffed
    ensures Eval(m, 1) == Eval(s, 1) - PrimeValue(1)
  {
    WeightValues();
    assert Eval(m, 0) == 0 && Eval(s, 0) == 0 && PrimeValue(0) == 0;
  }

  /** The top limb has the sign of the whole. */
  lemma SignOfDifference(m: seq<int64>)
    requires |m| == 16 && forall k :: 0 <= k < 15 ==> 0 <= m[k] < 0x1_0000
    ensures 0 <= m[15] <==> 0 <= Value(m)
  {
    CanonicalRange(m, 15);
    WeightValues();
  }

  /** Canonical limbs are below 2^256 = 2p + 38, so two subtractions reach [0, p). */
  lemma TwoSubtractions(v: int, once: int, twice: int)
    requires 0 <= v < 2 * P + 38
    requires once == if v < P then v else v - P
    requires twice == if once < P then once else once - P
    ensures twice == v % P
  {
    PrimeIs();
    DivisionIsUnique(v, P, (if v < P then 0 else 1) + (if once < P then 0 else 1), twice);
  }

  /** Three passes of carries make any limbs canonical. */
  method Normalize(t: array<int64>)
    requires t.Length == 16 && Within(t[..], 0x4000_0000_0000_0000)
    modifies t
    ensures Canonical(t[..]) && Residue(t[..]) == old(Residue(t[..]))
  {
    hide Residue, IsCarried, Eval;
    ghost var s0 := t[..];
    CarryPass(t);
    ghost var s1 := t[..];
    FirstPass(s0, s1);
    CarryPass(t);
    ghost var s2 := t[..];
    SecondPass(s1, s2);
    CarryPass(t);
    ThirdPass(s2, t[..]);
    CarriedResidue(s0, s1);
    CarriedResidue(s1, s2);
    CarriedResidue(s2, t[..]);
  }

  method WriteOctets(out: array<octet>, t: array<int64>)
    requires out.Length == 32 && t.Length == 16 && Canonical(t[..])
    modifies out
    ensures LittleEndian(out[..], 32) == Value(t[..])
  {
    for i := 0 to 16
      invariant forall k :: 0 <= k < i ==> t[k] as int == Join(out[2 * k], out[2 * k + 1])
    {
      out[2 * i] := (t[i] % 0x100) as octet;
      out[2 * i + 1] := (t[i] / 0x100 % 0x100) as octet;
    }
    PairsOfOctets(out[..], t[..], 16);
  }

  method Pack(out: array<octet>, input: array<int64>)
    requires out.Length == 32 && input.Length == 16
    requires Within(input[..], 0x4000_0000_0000_0000)
    modifies out
    ensures LittleEndian(out[..], 32) == Residue(input[..])
  {
    var m, t := new int64[16], new int64[16];
    for i := 0 to 16
      invariant forall k :: 0 <= k < i ==> t[k] == input[k]
    {
      t[i] := input[i];
    }
    assert t[..] == input[..];
    Normalize(t);
    ghost var v := Value(t[..]);
    CanonicalRange(t[..], 16);
    WeightValues();
    SubtractPrime(t, m);
    ghost var w := Value(t[..]);
    SubtractPrime(t, m);
    TwoSubtractions(v, w, Value(t[..]));
    WriteOctets(out, t);
  }
}
