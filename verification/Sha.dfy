/**
 sha.cpp: the padding, the message schedule and the block loop of SHA-256, over arrays
 and buffers.
 */
module Sha {
  import opened Bytes
  import opened ByteBuffers
  import opened Sha256

  /** A rotation to the right by shifts; the amount is taken modulo the width. */
  function RightRotate(v: word, n: bv8): word {
    var m := n & 31;
    if m == 0 then v else (v << (32 - m)) | (v >> m)
  }

  lemma RotationsAgree(x: word)
    ensures RightRotate(x, 2) == x.RotateRight(2) && RightRotate(x, 13) == x.RotateRight(13)
      && RightRotate(x, 22) == x.RotateRight(22)
    ensures RightRotate(x, 6) == x.RotateRight(6) && RightRotate(x, 11) == x.RotateRight(11)
      && RightRotate(x, 25) == x.RotateRight(25)
    ensures RightRotate(x, 7) == x.RotateRight(7) && RightRotate(x, 18) == x.RotateRight(18)
    ensures RightRotate(x, 17) == x.RotateRight(17) && RightRotate(x, 19) == x.RotateRight(19)
  {
  }

  method PadMessage(data: ByteBuffer) returns (result: ByteBuffer)
    requires data.Valid() && data.buffer.Length + 64 < 0x8000_0000_0000_0000
    ensures result.Valid() && fresh(result) && fresh(result.buffer)
    ensures result.Bytes() == Padded(data.Bytes()) && result.readIndex == 0
  {
    hide NumberOctets, Written, Padded;
    var size := data.buffer.Length;
    var requiredBytes := 64 - size % 64;
    result := new ByteBuffer(size + requiredBytes);
    var ok := result.WriteArray(data.buffer[..]);
    ok := result.Write(0x80);
    SkipLands(size, requiredBytes);
    ok := result.SkipWrite(Wrapped(requiredBytes - 1 - 8));
    ok := result.WriteArray(NumberOctets(Wrapped(8 * size), 8));
    PaddedParts(data.Bytes(), size + requiredBytes);
  }

  /** The value of an integer in an unsigned 64-bit variable. */
  function Wrapped(n: int): (w: nat)
    ensures w < SIZE_MODULUS
  {
    n % SIZE_MODULUS
  }

  /** From behind the marker, the skip leads to the last eight octets, forwards or backwards. */
  lemma SkipLands(size: nat, required: nat)
    requires required == 64 - size % 64 && size + 64 < 0x8000_0000_0000_0000
    ensures (size + 1 + Wrapped(required - 1 - 8)) % SIZE_MODULUS == size + required - 8
  {
    if required < 9 {
      assert Wrapped(required - 9) == required - 9 + SIZE_MODULUS;
    } else {
      assert Wrapped(required - 9) == required - 9;
    }
  }

  lemma Marked(m: seq<byte>, total: nat)
    requires |m| < total
    ensures Written(Zeros(total), 0, m)[|m| := 0x80] == m + [0x80] + Zeros(total - |m| - 1)
  {
    assert Written(Zeros(total), 0, m) == m + Zeros(total - |m|);
  }

  lemma PaddedParts(m: seq<byte>, total: nat)
    requires total == |m| + (64 - |m| % 64)
    ensures Written(Written(Zeros(total), 0, m)[|m| := 0x80], total - 8, NumberOctets(Wrapped(8 * |m|), 8)) == Padded(m)
  {
    hide NumberOctets, Zeros;
    Marked(m, total);
    assert total == |m| / 64 * 64 + 64;
    assert (m + [0x80] + Zeros(total - |m| - 1))[total..] == [];
  }

  function RotatedSmall0(x: word): word { Xor3(RightRotate(x, 7), RightRotate(x, 18), x >> 3) }

  function RotatedSmall1(x: word): word { Xor3(RightRotate(x, 17), RightRotate(x, 19), x >> 10) }

  function RotatedBig0(x: word): word { Xor3(RightRotate(x, 2), RightRotate(x, 13), RightRotate(x, 22)) }

  function RotatedBig1(x: word): word { Xor3(RightRotate(x, 6), RightRotate(x, 11), RightRotate(x, 25)) }

  lemma SigmasAgree(x: word)
    ensures RotatedSmall0(x) == SmallSigma0(x) && RotatedSmall1(x) == SmallSigma1(x)
    ensures RotatedBig0(x) == BigSigma0(x) && RotatedBig1(x) == BigSigma1(x)
  {
    hide RightRotate, Xor3;
    RotationsAgree(x);
  }

  lemma ScheduleStep(chunk: seq<byte>, t: nat)
    requires |chunk| == 64 && 16 <= t
    ensures Schedule(chunk, t) == Sum4(Schedule(chunk, t - 16), RotatedSmall0(Schedule(chunk, t - 15)),
      Schedule(chunk, t - 7), RotatedSmall1(Schedule(chunk, t - 2)))
  {
    hide SmallSigma0, SmallSigma1, RotatedSmall0, RotatedSmall1, Sum4;
    SigmasAgree(Schedule(chunk, t - 15));
    SigmasAgree(Schedule(chunk, t - 2));
  }

  method PrepareMessageSchedule(chunk: seq<byte>, w: array<word>)
    requires |chunk| == 64 && w.Length == 64
    modifies w
    ensures forall t :: 0 <= t < 64 ==> w[t] == Schedule(chunk, t)
  {
    hide WordOf, SmallSigma0, SmallSigma1;
    for i := 0 to 16
      invariant forall t :: 0 <= t < i ==> w[t] == Schedule(chunk, t)
    {
      w[i] := WordOf(chunk[4 * i], chunk[4 * i + 1], chunk[4 * i + 2], chunk[4 * i + 3]);
    }
    ExtendSchedule(chunk, w);
  }

  /** The words from 16 on, each from four earlier ones. */
  method ExtendSchedule(chunk: seq<byte>, w: array<word>)
    requires |chunk| == 64 && w.Length == 64
    requires forall t :: 0 <= t < 16 ==> w[t] == Schedule(chunk, t)
    modifies w
    ensures forall t :: 0 <= t < 64 ==> w[t] == Schedule(chunk, t)
  {
    hide RotatedSmall0, RotatedSmall1, Schedule, Sum4;
    for i := 16 to 64
      invariant forall t :: 0 <= t < i ==> w[t] == Schedule(chunk, t)
    {
      ScheduleStep(chunk, i);
      w[i] := Sum4(w[i - 16], RotatedSmall0(w[i - 15]), w[i - 7], RotatedSmall1(w[i - 2]));
    }
  }

  function RegistersOf(h: seq<word>): Registers
    requires |h| == 8
  {
    Registers(h[0], h[1], h[2], h[3], h[4], h[5], h[6], h[7])
  }

  /** The two temporary words of a round. */
  function Temporary1(h: word, e: word, f: word, g: word, k: word, w: word): word {
    Plus(Plus(Plus(Plus(h, RotatedBig1(e)), Choose(e, f, g)), k), w)
  }

  function Temporary2(a: word, b: word, c: word): word {
    Plus(RotatedBig0(a), Majority(a, b, c))
  }

  lemma RoundIs(r: Registers, k: word, w: word)
    ensures var t1, t2 := Temporary1(r.h, r.e, r.f, r.g, k, w), Temporary2(r.a, r.b, r.c);
      Round(r, k, w) == Registers(Plus(t1, t2), r.a, r.b, r.c, Plus(r.d, t1), r.e, r.f, r.g)
  {
    hide RotatedBig0, RotatedBig1, BigSigma0, BigSigma1, Choose, Majority, Plus;
    SigmasAgree(r.a);
    SigmasAgree(r.e);
  }

  /** One round: the eight words move up by one place. */
  method RoundInPlace(h: array<word>, k: word, w: word)
    requires h.Length == 8
    modifies h
    ensures RegistersOf(h[..]) == Round(old(RegistersOf(h[..])), k, w)
  {
    hide Temporary1, Temporary2, Round, Plus;
    RoundIs(RegistersOf(h[..]), k, w);
    var tmp1 := Temporary1(h[7], h[4], h[5], h[6], k, w);
    var tmp2 := Temporary2(h[0], h[1], h[2]);
    h[7] := h[6];
    h[6] := h[5];
    h[5] := h[4];
    h[4] := Plus(h[3], tmp1);
    h[3] := h[2];
    h[2] := h[1];
    h[1] := h[0];
    h[0] := Plus(tmp1, tmp2);
  }

  method RoundsInPlace(h: array<word>, chunk: seq<byte>)
    requires h.Length == 8 && |chunk| == 64
    modifies h
    ensures RegistersOf(h[..]) == Rounds(old(RegistersOf(h[..])), chunk, 64)
  {
    hide Round, Schedule, RegistersOf;
    ghost var start := RegistersOf(h[..]);
    var w := new word[64];
    PrepareMessageSchedule(chunk, w);
    for i := 0 to 64
      invariant RegistersOf(h[..]) == Rounds(start, chunk, i)
      invariant forall t :: 0 <= t < 64 ==> w[t] == Schedule(chunk, t)
    {
      RoundInPlace(h, K[i], w[i]);
    }
  }

  /** The working variables are added to the hash value and take its new value. */
  method AddInPlace(hash: array<word>, h: array<word>)
    requires hash.Length == h.Length == 8 && hash != h
    modifies hash, h
    ensures RegistersOf(hash[..]) == Added(old(RegistersOf(hash[..])), old(RegistersOf(h[..]))) && h[..] == hash[..]
  {
    hide Plus;
    for i := 0 to 8
      invariant forall k :: 0 <= k < i ==> hash[k] == h[k] == Plus(old(hash[k]), old(h[k]))
      invariant forall k :: i <= k < 8 ==> hash[k] == old(hash[k]) && h[k] == old(h[k])
    {
      hash[i] := Plus(hash[i], h[i]);
      h[i] := hash[i];
    }
    AddedIs(old(hash[..]), old(h[..]), hash[..]);
  }

  lemma AddedIs(x: seq<word>, y: seq<word>, z: seq<word>)
    requires |x| == |y| == |z| == 8 && forall k :: 0 <= k < 8 ==> z[k] == Plus(x[k], y[k])
    ensures RegistersOf(z) == Added(RegistersOf(x), RegistersOf(y))
  {
    hide Plus;
  }

  /** One turn of the block loop. */
  method HashBlock(hash: array<word>, h: array<word>, chunk: seq<byte>)
    requires hash.Length == h.Length == 8 && hash != h && |chunk| == 64 && h[..] == hash[..]
    modifies hash, h
    ensures h[..] == hash[..]
    ensures var before := old(RegistersOf(hash[..]));
      RegistersOf(hash[..]) == Added(before, Rounds(before, chunk, 64))
  {
    hide Rounds, Added, RegistersOf;
    RoundsInPlace(h, chunk);
    AddInPlace(hash, h);
  }

  method CopyWords(hash: array<word>) returns (h: array<word>)
    requires hash.Length == 8
    ensures fresh(h) && h.Length == 8 && h[..] == hash[..]
  {
    h := new word[8];
    for i := 0 to 8
      invariant h[..i] == hash[..i]
    {
      h[i] := hash[i];
    }
  }

  lemma HashValueStart(m: seq<byte>)
    ensures HashValue(m, 0) == START
  {
  }

  lemma HashValueStep(m: seq<byte>, n: nat)
    requires 64 * n + 64 <= |m|
    ensures var before := HashValue(m, n);
      HashValue(m, n + 1) == Added(before, Rounds(before, m[64 * n..64 * n + 64], 64))
  {
    hide Rounds, Added;
  }

  /** The block loop. */
  method HashBlocks(padded: ByteBuffer, hash: array<word>)
    requires padded.Valid() && padded.readIndex == 0 && hash.Length == 8 && RegistersOf(hash[..]) == START
    modifies padded`readIndex, hash
    ensures RegistersOf(hash[..]) == HashValue(padded.Bytes(), padded.buffer.Length / 64)
  {
    hide Rounds, Added, RegistersOf, HashValue;
    HashValueStart(padded.Bytes());
    var h := CopyWords(hash);
    ghost var n := 0;
    while true
      invariant padded.Valid() && padded.readIndex == 64 * n && h[..] == hash[..]
      invariant RegistersOf(hash[..]) == HashValue(padded.Bytes(), n)
      decreases padded.buffer.Length - padded.readIndex
    {
      var ok, chunk := padded.Read(64);
      if !ok {
        break;
      }
      HashBlock(hash, h, chunk);
      HashValueStep(padded.Bytes(), n);
      n := n + 1;
    }
  }

  method WriteHash(hash: array<word>) returns (out: ByteBuffer)
    requires hash.Length == 8
    ensures out.Valid() && fresh(out) && fresh(out.buffer) && out.buffer.Length == 32 && out.readIndex == 0
      && out.writeIndex == 32
    ensures out.Bytes() == Octets(RegistersOf(hash[..]))
  {
    hide OctetsOf;
    out := new ByteBuffer(32);
    for i := 0 to 8
      invariant fresh(out) && fresh(out.buffer) && out.Valid() && out.buffer.Length == 32 && out.writeIndex == 4 * i
        && out.readIndex == 0
      invariant out.Bytes()[..4 * i] == Joined(hash[..], i)
    {
      ghost var before := out.Bytes();
      var ok := out.WriteArray(OctetsOf(hash[i]));
      assert out.Bytes()[..4 * i + 4] == before[..4 * i] + OctetsOf(hash[i]);
    }
    JoinedIs(hash[..], 8);
    assert out.Bytes()[..32] == out.Bytes();
  }

  ghost function Joined(h: seq<word>, n: nat): (s: seq<byte>)
    requires n <= |h|
    ensures |s| == 4 * n
  {
    if n == 0 then [] else Joined(h, n - 1) + OctetsOf(h[n - 1])
  }

  lemma JoinedIs(h: seq<word>, n: nat)
    requires |h| == n == 8
    ensures Joined(h, n) == Octets(RegistersOf(h))
  {
    hide OctetsOf;
    assert Joined(h, n - 7) == OctetsOf(h[0]);
    assert Joined(h, n - 6) == OctetsOf(h[0]) + OctetsOf(h[1]);
    assert Joined(h, n - 5) == OctetsOf(h[0]) + OctetsOf(h[1]) + OctetsOf(h[2]);
    assert Joined(h, n - 4) == OctetsOf(h[0]) + OctetsOf(h[1]) + OctetsOf(h[2]) + OctetsOf(h[3]);
    assert Joined(h, n - 3) == OctetsOf(h[0]) + OctetsOf(h[1]) + OctetsOf(h[2]) + OctetsOf(h[3]) + OctetsOf(h[4]);
    assert Joined(h, n - 2)
      == OctetsOf(h[0]) + OctetsOf(h[1]) + OctetsOf(h[2]) + OctetsOf(h[3]) + OctetsOf(h[4]) + OctetsOf(h[5]);
    assert Joined(h, n - 1) == OctetsOf(h[0]) + OctetsOf(h[1]) + OctetsOf(h[2]) + OctetsOf(h[3]) + OctetsOf(h[4])
      + OctetsOf(h[5]) + OctetsOf(h[6]);
  }

  /** The digest of a whole buffer, whatever its cursors are. */
  method Encode256(data: ByteBuffer) returns (out: ByteBuffer)
    requires data.Valid() && data.buffer.Length + 64 < 0x8000_0000_0000_0000
    ensures out.Valid() && fresh(out) && fresh(out.buffer) && out.buffer.Length == 32 && out.readIndex == 0
      && out.writeIndex == 32
    ensures out.Bytes() == Digest(data.Bytes())
  {
    hide HashValue, Padded, Octets;
    var padded := PadMessage(data);
    var hash := new word[8][START.a, START.b, START.c, START.d, START.e, START.f, START.g, START.h];
    HashBlocks(padded, hash);
    out := WriteHash(hash);
  }
}
