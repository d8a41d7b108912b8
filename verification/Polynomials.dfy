/**
 Products of polynomials over GF(2) as convolutions, their remainder modulo
 x^128 + x^7 + x^2 + x + 1, and the proof that shift-and-reduce computes it.
 */
module Polynomials {
  import opened Gf128

  /** Coefficient i of a polynomial, zero outside it. */
  function Coefficient(p: seq<bool>, i: int): bool {
    0 <= i < |p| && p[i]
  }

  /** The sum modulo 2 of the terms q_i * p_(k - i) for i < n. */
  function Convolution(p: seq<bool>, q: seq<bool>, k: int, n: nat): bool {
    if n == 0 then false
    else Convolution(p, q, k, n - 1) != (Coefficient(q, n - 1) && Coefficient(p, k - (n - 1)))
  }

  /** The part of the product that comes from the terms i < n of q. */
  function PartialProduct(p: element, q: element, n: nat): (r: seq<bool>)
    ensures |r| == 255
  {
    seq(255, k => Convolution(p, q, k, n))
  }

  function Product(p: element, q: element): (r: seq<bool>)
    ensures |r| == 255
  {
    PartialProduct(p, q, 128)
  }

  /** x^d times the low terms, as a polynomial of 128 + d coefficients. */
  function LowTermsAt(d: nat): (r: seq<bool>)
    ensures |r| == 128 + d && forall i :: 0 <= i < 128 + d ==> r[i] == Low(i - d)
  {
    seq(128 + d, i => Low(i - d))
  }

  /** One step of division: the top coefficient leaves. */
  function Divide(p: seq<bool>): (r: seq<bool>)
    requires 128 < |p|
    ensures |r| == |p| - 1
  {
    var n := |p| - 1;
    Xor(p[..n], When(p[n], LowTermsAt(n - 128)))
  }

  /** The remainder, from the top coefficient down. */
  function Remainder(p: seq<bool>): element
    requires 128 <= |p|
    decreases |p|
  {
    if |p| == 128 then p
    else Remainder(Divide(p))
  }

  lemma {:induction false} RemainderLinear(p: seq<bool>, q: seq<bool>)
    requires 128 <= |p| == |q|
    ensures Remainder(Xor(p, q)) == Xor(Remainder(p), Remainder(q))
    decreases |p|
  {
    hide Divide;
    if |p| != 128 {
      RemainderLinear(Divide(p), Divide(q));
      DivideLinear(p, q);
    }
  }

  lemma DivideLinear(p: seq<bool>, q: seq<bool>)
    requires 128 < |p| == |q|
    ensures Divide(Xor(p, q)) == Xor(Divide(p), Divide(q))
  {
  }

  lemma DividePadded(p: seq<bool>)
    requires 128 <= |p|
    ensures Divide(p + [false]) == p
  {
    hide LowTermsAt;
    assert (p + [false])[..|p|] == p;
    XorWithNone(p, LowTermsAt(|p| - 128));
  }

  lemma XorWithNone(p: seq<bool>, q: seq<bool>)
    requires |p| == |q|
    ensures Xor(p, When(false, q)) == p
  {
  }

  /** A zero on top changes nothing. */
  lemma RemainderPadded(p: seq<bool>)
    requires 128 <= |p|
    ensures Remainder(p + [false]) == Remainder(p)
  {
    DividePadded(p);
  }

  lemma {:induction false} RemainderPaddedBy(p: seq<bool>, n: nat)
    requires 128 <= |p|
    ensures Remainder(p + None(n)) == Remainder(p)
  {
    if n == 0 {
      assert p + None(0) == p;
    } else {
      RemainderPaddedBy(p, n - 1);
      RemainderPadded(p + None(n - 1));
      assert p + None(n - 1) + [false] == p + None(n);
    }
  }

  /** Multiplying by x before or after taking the remainder is the same. */
  lemma {:induction false} RemainderOfShift(p: seq<bool>)
    requires 128 <= |p|
    ensures Remainder([false] + p) == TimesX(Remainder(p))
    decreases |p|
  {
    hide Divide, TimesX;
    if |p| == 128 {
      DivideShortest(p);
    } else {
      RemainderOfShift(Divide(p));
      DivideShift(p);
    }
  }

  lemma DivideShortest(p: element)
    ensures Divide([false] + p) == TimesX(p)
  {
    assert ([false] + p)[..128] == [false] + p[..127];
    assert LowTermsAt(0) == LowTerms();
  }

  lemma DivideShift(p: seq<bool>)
    requires 128 < |p|
    ensures Divide([false] + p) == [false] + Divide(p)
  {
    var n := |p| - 1;
    assert ([false] + p)[..n + 1] == [false] + p[..n];
    assert LowTermsAt(n - 127) == [false] + LowTermsAt(n - 128);
  }

  /** x^n * p, before any reduction. */
  function Raised(p: element, n: nat): (r: seq<bool>)
    requires n <= 127
    ensures |r| == 255
  {
    None(n) + p + None(127 - n)
  }

  lemma {:induction false} RemainderOfRaised(p: element, n: nat)
    requires n <= 127
    ensures Remainder(Raised(p, n)) == Shifted(p, n)
  {
    hide Remainder, TimesX;
    if n == 0 {
      assert Raised(p, 0) == p + None(127);
      RemainderPaddedBy(p, 127);
      RemainderSmall(p);
    } else {
      RemainderOfRaised(p, n - 1);
      RemainderOfShift(Raised(p, n - 1));
      RemainderPadded(Raised(p, n));
      assert [false] + Raised(p, n - 1) == Raised(p, n) + [false];
    }
  }

  lemma RemainderSmall(p: element)
    ensures Remainder(p) == p
  {
  }

  lemma RaisedTerm(p: element, q: element, n: nat)
    requires n < 128
    ensures PartialProduct(p, q, n + 1) == Xor(PartialProduct(p, q, n), When(q[n], Raised(p, n)))
  {
    forall k | 0 <= k < 255
      ensures Coefficient(p, k - n) == Raised(p, n)[k]
    {
    }
  }

  lemma RemainderNone(n: nat)
    ensures Remainder(None(128 + n)) == None(128)
  {
    RemainderPaddedBy(None(128), n);
    assert None(128) + None(n) == None(128 + n);
  }

  lemma {:induction false} RemainderOfPartial(p: element, q: element, n: nat)
    requires n <= 128
    ensures Remainder(PartialProduct(p, q, n)) == PartialMul(p, q, n)
  {
    hide Remainder, Raised, Xor;
    RemainderNone(127);
    if n == 0 {
      assert PartialProduct(p, q, 0) == None(255);
    } else {
      RemainderOfPartial(p, q, n - 1);
      RaisedTerm(p, q, n - 1);
      RemainderLinear(PartialProduct(p, q, n - 1), When(q[n - 1], Raised(p, n - 1)));
      RemainderOfRaised(p, n - 1);
    }
  }

  /** Multiplication in the field is the remainder of the product. */
  lemma MulIsRemainder(p: element, q: element)
    ensures Mul(p, q) == Remainder(Product(p, q))
  {
    RemainderOfPartial(p, q, 128);
  }

  // Convolution is symmetric, so multiplication is commutative, and then associative.

  /** Sums over more terms, once one of the factors has run out. */
  lemma {:induction false} ConvolutionTail(p: seq<bool>, q: seq<bool>, k: int, m: nat, n: nat)
    requires m <= n && (|q| <= m || k < m)
    ensures Convolution(p, q, k, n) == Convolution(p, q, k, m)
    decreases n
  {
    if m != n {
      ConvolutionTail(p, q, k, m, n - 1);
    }
  }

  /** The terms from m on, counted from the other end. */
  lemma {:induction false} ConvolutionReversed(p: seq<bool>, q: seq<bool>, k: nat, m: nat)
    requires m <= k + 1
    ensures Convolution(p, q, k, k + 1) == (Convolution(p, q, k, k + 1 - m) != Convolution(q, p, k, m))
  {
    if m != 0 {
      ConvolutionReversed(p, q, k, m - 1);
    }
  }

  lemma ConvolutionSymmetric(p: element, q: element, k: nat)
    ensures Convolution(p, q, k, 128) == Convolution(q, p, k, 128)
  {
    ConvolutionReversed(p, q, k, k + 1);
    if k + 1 <= 128 {
      ConvolutionTail(p, q, k, k + 1, 128);
      ConvolutionTail(q, p, k, k + 1, 128);
    } else {
      ConvolutionTail(p, q, k, 128, k + 1);
      ConvolutionTail(q, p, k, 128, k + 1);
    }
  }

  lemma MulCommutes(p: element, q: element)
    ensures Mul(p, q) == Mul(q, p)
  {
    hide Mul, Remainder, Convolution;
    MulIsRemainder(p, q);
    MulIsRemainder(q, p);
    forall k | 0 <= k < 255
      ensures Product(p, q)[k] == Product(q, p)[k]
    {
      ConvolutionSymmetric(p, q, k);
    }
    assert Product(p, q) == Product(q, p);
  }

  lemma MulDistributes(p: element, q: element, r: element)
    ensures Mul(Xor(p, q), r) == Xor(Mul(p, r), Mul(q, r))
    ensures Mul(r, Xor(p, q)) == Xor(Mul(r, p), Mul(r, q))
  {
    hide Mul;
    MulXor(p, q, r);
    MulCommutes(p, r);
    MulCommutes(q, r);
    MulCommutes(Xor(p, q), r);
  }

  lemma MulAssociates(p: element, q: element, r: element)
    ensures Mul(Mul(p, q), r) == Mul(p, Mul(q, r))
  {
    MulOfPartial(p, q, r, 128);
    MulOfPartial(r, q, p, 128);
    MulCommutes(p, r);
    MulCommutes(q, r);
    MulCommutes(p, Mul(q, r));
  }
}
