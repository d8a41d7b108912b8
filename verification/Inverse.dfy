/**
 finverse: square-and-multiply over 254 bits, skipping the multiplication at
 bits 2 and 4, which is exponentiation by p - 2.
 */
module Inverse {
  import opened Arithmetic
  import opened PrimeField
  import opened Limbs
  import opened FieldOps

  /** The exponent reached after n rounds of the loop; round n has the counter at 254 - n. */
  ghost function Exponent(n: nat): nat {
    if n == 0 then 1
    else 2 * Exponent(n - 1) + (if 254 - n != 2 && 254 - n != 4 then 1 else 0)
  }

  lemma {:induction false} RunOfOnes(n: nat)
    requires n <= 249
    ensures Exponent(n) == Pow(2, n + 1) - 1
  {
    if n != 0 {
      RunOfOnes(n - 1);
    }
  }

  lemma {:induction false} PowOfPow(k: nat)
    ensures Pow(0x1_0000, k) == Pow(2, 16 * k)
  {
    if k != 0 {
      PowOfPow(k - 1);
      PowAdds(2, 16, 16 * (k - 1));
      PowAdds(2, 8, 8);
      assert Pow(2, 8) == 0x100;
    }
  }

  /** The last five rounds meet bits 4 to 0, of which two are skipped. */
  lemma LastRounds(n: nat)
    requires n == 249
    ensures Exponent(n + 5) == 32 * Pow(2, n + 1) - 21
  {
    RunOfOnes(n);
    assert Exponent(n + 1) == 2 * Exponent(n);
    assert Exponent(n + 2) == 2 * Exponent(n + 1) + 1;
    assert Exponent(n + 3) == 2 * Exponent(n + 2);
    assert Exponent(n + 4) == 2 * Exponent(n + 3) + 1;
    assert Exponent(n + 5) == 2 * Exponent(n + 4) + 1;
  }

  /** The skipped bits make the final exponent 2^255 - 21. */
  lemma FinalExponent(n: nat)
    requires n == 249
    ensures Exponent(n + 5) == P - 2
  {
    LastRounds(n);
    PowAdds(2, 6, n + 1);
    assert Pow(2, 6) == 64;
    PowOfPow(16);
    WeightValues();
    assert 64 * Pow(2, n + 1) == Weight(16);
  }

  lemma ResiduePower(x: int)
    requires 0 <= x < P
    ensures Power(x, Exponent(0)) == x
  {
    assert Power(x, 0) == 1;
    ResidueIs(x);
  }

  /** One round squares, and multiplies once more unless the bit is skipped. */
  lemma Round(x: int, n: nat)
    ensures var y := Power(x, Exponent(n));
      Power(x, Exponent(n + 1)) == if 253 - n == 2 || 253 - n == 4 then Mul(y, y) else Mul(Mul(y, y), x)
  {
    PowerAdds(x, Exponent(n), Exponent(n));
  }

  method Invert(out: array<int64>, base: array<int64>)
    requires out.Length == base.Length == 16
    requires Within(base[..], 0x400_0000)
    modifies out
    ensures Tight(out[..])
    ensures Residue(out[..]) == Power(old(Residue(base[..])), P - 2)
  {
    hide Mul, Power, Exponent;
    ghost var s, x := base[..], Residue(base[..]);
    var c := new int64[16];
    for i := 0 to 16
      invariant base[..] == s
      invariant forall k :: 0 <= k < i ==> c[k] == s[k]
    {
      c[i] := base[i];
    }
    assert c[..] == s;
    ResiduePower(x);
    for i := 254 downto 0
      invariant base[..] == s
      invariant Within(c[..], 0x400_0000) && (i < 254 ==> Tight(c[..]))
      invariant Residue(c[..]) == Power(x, Exponent(254 - i))
    {
      Round(x, 253 - i);
      FieldMul(c, c, c);
      if i != 2 && i != 4 {
        FieldMul(c, c, base);
      }
    }
    FinalExponent(249);
    ghost var result := c[..];
    for i := 0 to 16
      invariant c[..] == result
      invariant forall k :: 0 <= k < i ==> out[k] == result[k]
    {
      out[i] := c[i];
    }
    assert out[..] == result;
  }
}
