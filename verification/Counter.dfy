/**
 incr: the counter block as a 128-bit big-endian number, and how it differs from the
 32-bit increment of section 6.2 of NIST SP 800-38D.
 */
module Counter {
  import opened Arithmetic
  import opened Bytes
  import opened Ghash

  /** The number in the first n octets, most significant first. */
  ghost function BigEndian(b: seq<byte>, n: nat): nat
    requires n <= |b|
  {
    if n == 0 then 0 else 0x100 * BigEndian(b, n - 1) + b[n - 1] as int
  }

  /** The loop of incr over the first n octets, from the last one. */
  function Incremented(c: seq<byte>, n: nat): (r: seq<byte>)
    requires n <= |c|
    ensures |r| == |c| && r[n..] == c[n..]
    decreases n
  {
    if n == 0 then c
    else if c[n - 1] == 0xff then Incremented(c[n - 1 := 0], n - 1)
    else c[n - 1 := c[n - 1] + 1]
  }

  method Incr(counter: array<byte>)
    requires counter.Length == 16
    modifies counter
    ensures counter[..] == Incremented(old(counter[..]), 16)
  {
    var i := 16;
    while i != 0
      invariant 0 <= i <= 16
      invariant Incremented(counter[..], i) == Incremented(old(counter[..]), 16)
    {
      counter[i - 1] := counter[i - 1] + 1;
      if counter[i - 1] != 0 {
        assert counter[..] == Incremented(old(counter[..]), 16);
        break;
      }
      i := i - 1;
    }
  }

  lemma {:induction false} BigEndianPrefix(b: seq<byte>, c: seq<byte>, n: nat)
    requires n <= |b| && n <= |c| && b[..n] == c[..n]
    ensures BigEndian(b, n) == BigEndian(c, n)
  {
    if n != 0 {
      assert b[..n - 1] == b[..n][..n - 1] == c[..n][..n - 1] == c[..n - 1];
      assert b[n - 1] == b[..n][n - 1] == c[..n][n - 1] == c[n - 1];
      BigEndianPrefix(b, c, n - 1);
    }
  }

  lemma {:induction false} BigEndianRange(b: seq<byte>, n: nat)
    requires n <= |b|
    ensures BigEndian(b, n) < Pow256(n)
  {
    if n != 0 {
      BigEndianRange(b, n - 1);
    }
  }

  lemma NextOctet(b: byte)
    ensures b == 0xff ==> b as int == 255
    ensures b != 0xff ==> (b + 1) as int == b as int + 1 && b as int < 255
  {
  }

  /** incr adds one modulo 2^(8n). */
  lemma {:induction false} IncrementedValue(c: seq<byte>, n: nat)
    requires n <= |c|
    ensures BigEndian(Incremented(c, n), n) == if BigEndian(c, n) == Pow256(n) - 1 then 0 else BigEndian(c, n) + 1
    decreases n
  {
    BigEndianRange(c, n);
    if n != 0 {
      var r := Incremented(c, n);
      NextOctet(c[n - 1]);
      BigEndianRange(c, n - 1);
      if c[n - 1] == 0xff {
        var d := c[n - 1 := 0];
        IncrementedValue(d, n - 1);
        BigEndianPrefix(c, d, n - 1);
        assert r[n - 1] == r[n - 1..][0] == d[n - 1..][0] == 0;
      } else {
        BigEndianPrefix(c, r, n - 1);
      }
    }
  }

  /** The counter block after i increments. */
  function CounterAt(c: block, i: nat): block {
    if i == 0 then c else Incremented(CounterAt(c, i - 1), 16)
  }

  lemma {:induction false} CounterValue(c: block, i: nat)
    requires i < Pow256(16)
    ensures BigEndian(CounterAt(c, i), 16)
      == var v := BigEndian(c, 16) + i; if v < Pow256(16) then v else v - Pow256(16)
  {
    BigEndianRange(c, 16);
    if i != 0 {
      CounterValue(c, i - 1);
      IncrementedValue(CounterAt(c, i - 1), 16);
    }
  }

  /** The counter blocks of a run are pairwise different. */
  lemma CountersDiffer(c: block, i: nat, j: nat)
    requires i < j < Pow256(16)
    ensures CounterAt(c, i) != CounterAt(c, j)
  {
    BigEndianRange(c, 16);
    CounterValue(c, i);
    CounterValue(c, j);
  }

  /** inc32: only the last 32 bits count. */
  function Inc32(c: block): block {
    c[..12] + Incremented(c[12..], 4)
  }

  ghost predicate AllOnes(b: seq<byte>) {
    forall k :: 0 <= k < |b| ==> b[k] == 0xff
  }

  /** A carry reaches the head only through a tail of ones. */
  lemma {:induction false} CarryThroughTail(a: seq<byte>, b: seq<byte>, n: nat)
    requires n <= |b|
    ensures Incremented(a + b, |a| + n) == (if AllOnes(b[..n]) then Incremented(a, |a|) else a) + Incremented(b, n)
    decreases n
  {
    if n == 0 {
      HeadAlone(a, b, |a|);
    } else {
      assert b[..n][..n - 1] == b[..n - 1] && b[..n][n - 1] == b[n - 1];
      if b[n - 1] == 0xff {
        var d := b[n - 1 := 0];
        assert (a + b)[|a| + n - 1 := 0] == a + d;
        CarryThroughTail(a, d, n - 1);
        assert d[..n - 1] == b[..n - 1];
        assert AllOnes(b[..n]) == AllOnes(b[..n - 1]);
      } else {
        assert (a + b)[|a| + n - 1 := b[n - 1] + 1] == a + b[n - 1 := b[n - 1] + 1];
      }
    }
  }

  lemma {:induction false} HeadAlone(a: seq<byte>, b: seq<byte>, n: nat)
    requires n <= |a|
    ensures Incremented(a + b, n) == Incremented(a, n) + b
    decreases n
  {
    if n != 0 && a[n - 1] == 0xff {
      HeadAlone(a[n - 1 := 0], b, n - 1);
      assert (a + b)[n - 1 := 0] == a[n - 1 := 0] + b;
    }
  }

  lemma IncrementChanges(a: seq<byte>)
    requires 0 < |a|
    ensures Incremented(a, |a|) != a
  {
    BigEndianRange(a, |a|);
    IncrementedValue(a, |a|);
    BigEndianRange(a[..0], 0);
    PowPositive(0x100, |a| - 1);
  }

  /** incr is inc32 exactly when the low word is not all ones. */
  lemma IncrIsInc32(c: block)
    ensures Incremented(c, 16) == Inc32(c) <==> !AllOnes(c[12..])
  {
    hide Incremented;
    var a, b := c[..12], c[12..];
    assert c == a + b && b[..4] == b;
    CarryThroughTail(a, b, 4);
    IncrementChanges(a);
    var x, y := Incremented(a, 12), Incremented(b, 4);
    assert (x + y)[..12] == x && (a + y)[..12] == a;
  }

  function Counter32At(c: block, i: nat): block {
    if i == 0 then c else Inc32(Counter32At(c, i - 1))
  }

  lemma {:induction false} AllOnesValue(b: seq<byte>, n: nat)
    requires n <= |b|
    ensures AllOnes(b[..n]) <==> BigEndian(b, n) == Pow256(n) - 1
  {
    if n != 0 {
      AllOnesValue(b, n - 1);
      BigEndianRange(b, n - 1);
      NextOctet(b[n - 1]);
      MoreOnes(b, n);
    }
  }

  lemma MoreOnes(b: seq<byte>, n: nat)
    requires 0 < n <= |b|
    ensures AllOnes(b[..n]) <==> AllOnes(b[..n - 1]) && b[n - 1] == 0xff
  {
    assert b[..n] == b[..n - 1] + [b[n - 1]];
    if AllOnes(b[..n]) {
      assert b[..n][n - 1] == b[n - 1];
      assert forall k :: 0 <= k < n - 1 ==> b[..n - 1][k] == b[..n][k];
    }
  }

  lemma AllOnesWord(b: seq<byte>)
    requires |b| == 4
    ensures AllOnes(b) <==> BigEndian(b, 4) == Pow256(4) - 1
  {
    AllOnesValue(b, 4);
    assert b[..4] == b;
  }

  /** The low word of the standard's counter counts modulo 2^32. */
  lemma LowWordCounts(c: block, i: nat)
    requires BigEndian(c[12..], 4) + i < Pow256(4)
    ensures BigEndian(Counter32At(c, i)[12..], 4) == BigEndian(c[12..], 4) + i
  {
    if i != 0 {
      LowWordCounts(c, i - 1);
      var d := Counter32At(c, i - 1);
      IncrementedValue(d[12..], 4);
      assert Inc32(d)[12..] == Incremented(d[12..], 4);
    }
  }

  /** The first n counters are the standard's exactly when the low word does not wrap among them. */
  lemma CountersAgree(c: block, n: nat)
    ensures (forall i :: 0 <= i <= n ==> CounterAt(c, i) == Counter32At(c, i))
      <==> BigEndian(c[12..], 4) + n < Pow256(4)
  {
    BigEndianRange(c[12..], 4);
    if BigEndian(c[12..], 4) + n < Pow256(4) {
      forall i | 0 <= i <= n
        ensures CounterAt(c, i) == Counter32At(c, i)
      {
        SameCounters(c, i);
      }
    } else {
      var m := Pow256(4) - 1 - BigEndian(c[12..], 4);
      SameCounters(c, m);
      LowWordCounts(c, m);
      AllOnesWord(Counter32At(c, m)[12..]);
      IncrIsInc32(Counter32At(c, m));
      assert CounterAt(c, m + 1) != Counter32At(c, m + 1);
    }
  }

  lemma {:induction false} SameCounters(c: block, i: nat)
    requires BigEndian(c[12..], 4) + i < Pow256(4)
    ensures CounterAt(c, i) == Counter32At(c, i)
  {
    if i != 0 {
      SameCounters(c, i - 1);
      LowWordCounts(c, i - 1);
      AllOnesWord(Counter32At(c, i - 1)[12..]);
      IncrIsInc32(Counter32At(c, i - 1));
    }
  }
}
