/**
 The function X25519 as section 5 of RFC 7748 defines it: decoding, the Montgomery
 ladder with one deferred swap, and encoding, over residues modulo p.
 */
module Rfc7748 {
  import opened Arithmetic
  import opened Bytes
  import opened PrimeField
  import opened Packing

  /** Bit t of a natural number. */
  function Bit(k: nat, t: nat): (b: int)
    ensures 0 <= b <= 1
  {
    PowPositive(2, t);
    k / Pow(2, t) % 2
  }

  /** decodeScalar25519: clear the three low bits, clear bit 255, set bit 254. */
  ghost function DecodeScalar(k: seq<octet>): nat
    requires |k| == 32
  {
    LittleEndian(Clamp(k), 32)
  }

  function Clamp(k: seq<octet>): (c: seq<octet>)
    requires |k| == 32
    ensures |c| == 32
  {
    k[0 := k[0] - k[0] % 8][31 := k[31] % 64 + 64]
  }

  /** decodeUCoordinate: ignore bit 255, and take the rest modulo p. */
  ghost function DecodeU(u: seq<octet>): int
    requires |u| == 32
  {
    PowPositive(2, 255);
    LittleEndian(u, 32) % Pow(2, 255) % P
  }

  datatype Points = Points(x2: int, z2: int, x3: int, z3: int)

  ghost function Cswap(swap: int, p: Points): Points {
    if swap == 1 then Points(p.x3, p.z3, p.x2, p.z2) else p
  }

  const A24: int := 121665

  /** The field operations of one ladder step. */
  ghost function Step(x1: int, p: Points): Points {
    var a := Add(p.x2, p.z2);
    var aa := Mul(a, a);
    var b := Sub(p.x2, p.z2);
    var bb := Mul(b, b);
    var e := Sub(aa, bb);
    var c := Add(p.x3, p.z3);
    var d := Sub(p.x3, p.z3);
    var da := Mul(d, a);
    var cb := Mul(c, b);
    Points(
      Mul(aa, bb),
      Mul(e, Add(aa, Mul(A24, e))),
      Mul(Add(da, cb), Add(da, cb)),
      Mul(x1, Mul(Sub(da, cb), Sub(da, cb))))
  }

  /** The ladder after bits 254 down to t, paired with the swap still pending. */
  ghost function Ladder(k: nat, x1: int, t: nat): (Points, int)
    requires t <= 255
    ensures 0 <= Ladder(k, x1, t).1 <= 1
    decreases 255 - t
  {
    if t == 255 then (Points(1, 0, x1, 1), 0)
    else
      var (p, swap) := Ladder(k, x1, t + 1);
      (Step(x1, Cswap(if swap == Bit(k, t) then 0 else 1, p)), Bit(k, t))
  }

  /** The integer whose little-endian encoding is the result. */
  ghost function X25519(k: seq<octet>, u: seq<octet>): int
    requires |k| == |u| == 32
  {
    var (p, swap) := Ladder(DecodeScalar(k), DecodeU(u), 0);
    var q := Cswap(swap, p);
    Mul(q.x2, Power(q.z2, P - 2))
  }
}
