/**
 The field GF(2^128) of section 6.3 of NIST SP 800-38D. An element is the sequence of its
 128 coefficients, constant term first; the modulus is x^128 + x^7 + x^2 + x + 1.
 */
module Gf128 {

  type element = p: seq<bool> | |p| == 128 witness seq(128, i => false)

  function None(n: nat): (z: seq<bool>)
    ensures |z| == n && forall i :: 0 <= i < n ==> !z[i]
  {
    seq(n, i => false)
  }

  /** Coefficientwise addition of polynomials of the same length. */
  function Xor(p: seq<bool>, q: seq<bool>): (r: seq<bool>)
    requires |p| == |q|
    ensures |r| == |p| && forall i :: 0 <= i < |p| ==> r[i] == (p[i] != q[i])
  {
    seq(|p|, i requires 0 <= i < |p| => p[i] != q[i])
  }

  function When(b: bool, p: seq<bool>): (r: seq<bool>)
    ensures |r| == |p|
  {
    if b then p else None(|p|)
  }

  /** 1 + x + x^2 + x^7, which x^128 is worth. */
  function Low(i: int): bool {
    i == 0 || i == 1 || i == 2 || i == 7
  }

  function LowTerms(): (p: element)
    ensures forall i :: 0 <= i < 128 ==> p[i] == Low(i)
  {
    seq(128, i => Low(i))
  }

  /** Multiplication by x: a shift, and the low terms when x^128 appears. */
  function TimesX(p: element): element {
    Xor([false] + p[..127], When(p[127], LowTerms()))
  }

  /** x^n * p. */
  function Shifted(p: element, n: nat): element {
    if n == 0 then p else TimesX(Shifted(p, n - 1))
  }

  /** The sum of x^i * p over the terms i < n of q. */
  function PartialMul(p: element, q: element, n: nat): element
    requires n <= 128
  {
    if n == 0 then None(128) else Xor(PartialMul(p, q, n - 1), When(q[n - 1], Shifted(p, n - 1)))
  }

  function Mul(p: element, q: element): element { PartialMul(p, q, 128) }

  // Sums of coefficients modulo 2.

  lemma XorNone(p: seq<bool>)
    ensures Xor(p, None(|p|)) == p && Xor(None(|p|), p) == p
    ensures Xor(p, p) == None(|p|)
  {
  }

  lemma XorExchange(p: seq<bool>, q: seq<bool>, r: seq<bool>, s: seq<bool>)
    requires |p| == |q| == |r| == |s|
    ensures Xor(Xor(p, q), Xor(r, s)) == Xor(Xor(p, r), Xor(q, s))
  {
  }

  // Mul is linear in its first operand and commutes with multiplication by x.

  lemma TimesXLinear(p: element, q: element)
    ensures TimesX(Xor(p, q)) == Xor(TimesX(p), TimesX(q))
  {
  }

  lemma TimesXNone()
    ensures TimesX(None(128)) == None(128)
  {
  }

  lemma {:induction false} ShiftedLinear(p: element, q: element, n: nat)
    ensures Shifted(Xor(p, q), n) == Xor(Shifted(p, n), Shifted(q, n))
  {
    hide TimesX;
    if n != 0 {
      ShiftedLinear(p, q, n - 1);
      TimesXLinear(Shifted(p, n - 1), Shifted(q, n - 1));
    }
  }

  lemma {:induction false} ShiftedNone(n: nat)
    ensures Shifted(None(128), n) == None(128)
  {
    hide TimesX;
    TimesXNone();
    if n != 0 {
      ShiftedNone(n - 1);
    }
  }

  lemma {:induction false} ShiftedTimesX(p: element, n: nat)
    ensures Shifted(TimesX(p), n) == TimesX(Shifted(p, n))
  {
    hide TimesX;
    if n != 0 {
      ShiftedTimesX(p, n - 1);
    }
  }

  lemma WhenXor(b: bool, p: seq<bool>, q: seq<bool>)
    requires |p| == |q|
    ensures When(b, Xor(p, q)) == Xor(When(b, p), When(b, q))
  {
  }

  lemma {:induction false} PartialMulLinear(p: element, q: element, r: element, n: nat)
    requires n <= 128
    ensures PartialMul(Xor(p, q), r, n) == Xor(PartialMul(p, r, n), PartialMul(q, r, n))
  {
    hide Xor, When, Shifted;
    if n == 0 {
      XorNone(None(128));
    } else {
      PartialMulLinear(p, q, r, n - 1);
      ShiftedLinear(p, q, n - 1);
      WhenXor(r[n - 1], Shifted(p, n - 1), Shifted(q, n - 1));
      XorExchange(PartialMul(p, r, n - 1), PartialMul(q, r, n - 1), When(r[n - 1], Shifted(p, n - 1)),
        When(r[n - 1], Shifted(q, n - 1)));
    }
  }

  lemma {:induction false} PartialMulNone(q: element, n: nat)
    requires n <= 128
    ensures PartialMul(None(128), q, n) == None(128)
  {
    hide Xor, Shifted;
    XorNone(None(128));
    if n != 0 {
      PartialMulNone(q, n - 1);
      ShiftedNone(n - 1);
    }
  }

  lemma WhenTimesX(b: bool, p: element)
    ensures TimesX(When(b, p)) == When(b, TimesX(p))
  {
    TimesXNone();
  }

  lemma {:induction false} PartialMulTimesX(p: element, q: element, n: nat)
    requires n <= 128
    ensures PartialMul(TimesX(p), q, n) == TimesX(PartialMul(p, q, n))
  {
    hide Xor, When, Shifted, TimesX;
    if n == 0 {
      TimesXNone();
    } else {
      PartialMulTimesX(p, q, n - 1);
      ShiftedTimesX(p, n - 1);
      WhenTimesX(q[n - 1], Shifted(p, n - 1));
      TimesXLinear(PartialMul(p, q, n - 1), When(q[n - 1], Shifted(p, n - 1)));
    }
  }

  /** A factor can be taken inside the sum: (sum of x^i * p) * r is the sum of x^i * (p * r). */
  lemma {:induction false} MulOfPartial(p: element, q: element, r: element, n: nat)
    requires n <= 128
    ensures Mul(PartialMul(p, q, n), r) == PartialMul(Mul(p, r), q, n)
  {
    hide Xor, When, Shifted, Mul;
    if n == 0 {
      MulNone(r);
    } else {
      MulOfPartial(p, q, r, n - 1);
      MulXor(PartialMul(p, q, n - 1), When(q[n - 1], Shifted(p, n - 1)), r);
      MulShifted(p, r, n - 1);
      MulWhen(q[n - 1], Shifted(p, n - 1), r);
    }
  }

  lemma MulNone(q: element)
    ensures Mul(None(128), q) == None(128)
  {
    PartialMulNone(q, 128);
  }

  lemma MulXor(p: element, q: element, r: element)
    ensures Mul(Xor(p, q), r) == Xor(Mul(p, r), Mul(q, r))
  {
    PartialMulLinear(p, q, r, 128);
  }

  lemma MulWhen(b: bool, p: element, q: element)
    ensures Mul(When(b, p), q) == When(b, Mul(p, q))
  {
    hide Mul;
    MulNone(q);
  }

  lemma {:induction false} MulShifted(p: element, q: element, n: nat)
    ensures Mul(Shifted(p, n), q) == Shifted(Mul(p, q), n)
  {
    hide TimesX, PartialMul;
    if n != 0 {
      MulShifted(p, q, n - 1);
      PartialMulTimesX(Shifted(p, n - 1), q, 128);
    }
  }
}
