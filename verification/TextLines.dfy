/**
 Lines of octets: maximal runs without a delimiter.
 */
module TextLines {
  import opened Bytes

  /** What readLine stops at when it is given no delimiters. */
  const DELIMITERS: seq<byte> := [0x0a, 0x0d, 0x17]

  /** The length of the leading run of octets outside d. */
  function Run(s: seq<byte>, d: seq<byte>): (n: nat)
    ensures n <= |s|
    ensures forall k :: 0 <= k < n ==> s[k] !in d
    ensures n < |s| ==> s[n] in d
  {
    if s != [] && s[0] !in d then 1 + Run(s[1..], d) else 0
  }

  /** The length of the leading run of octets inside d. */
  function Gap(s: seq<byte>, d: seq<byte>): (n: nat)
    ensures n <= |s|
    ensures forall k :: 0 <= k < n ==> s[k] in d
    ensures n < |s| ==> s[n] !in d
  {
    if s != [] && s[0] in d then 1 + Gap(s[1..], d) else 0
  }

  /** How far one line reaches, with the delimiters behind it. */
  function LineLength(s: seq<byte>, d: seq<byte>): (n: nat)
    ensures n <= |s|
    ensures s != [] ==> 0 < n
  {
    Run(s, d) + Gap(s[Run(s, d)..], d)
  }

  /** The nonempty lines. */
  function Lines(s: seq<byte>, d: seq<byte>): (lines: seq<seq<byte>>)
    ensures forall k :: 0 <= k < |lines| ==> lines[k] != []
  {
    if s == [] then []
    else if Run(s, d) == 0 then Lines(s[LineLength(s, d)..], d)
    else [s[..Run(s, d)]] + Lines(s[LineLength(s, d)..], d)
  }

  predicate Free(s: seq<byte>, d: seq<byte>) {
    forall k :: 0 <= k < |s| ==> s[k] !in d
  }

  /** No line crosses the border between a and b. */
  predicate Border(a: seq<byte>, b: seq<byte>, d: seq<byte>) {
    a == [] || b == [] || a[|a| - 1] in d || b[0] in d
  }

  lemma RunIs(s: seq<byte>, d: seq<byte>, n: nat)
    requires n <= |s| && (forall k :: 0 <= k < n ==> s[k] !in d) && (n < |s| ==> s[n] in d)
    ensures Run(s, d) == n
  {
  }

  lemma GapIs(s: seq<byte>, d: seq<byte>, n: nat)
    requires n <= |s| && (forall k :: 0 <= k < n ==> s[k] in d) && (n < |s| ==> s[n] !in d)
    ensures Gap(s, d) == n
  {
  }

  lemma LineOf(x: seq<byte>, d: seq<byte>)
    requires x != [] && Free(x, d)
    ensures Lines(x, d) == [x]
  {
    RunIs(x, d, |x|);
    assert x[|x|..] == [] && x[..|x|] == x;
  }

  /** Delimiters in front make no line. */
  lemma {:induction false} SkipGap(s: seq<byte>, d: seq<byte>)
    ensures Lines(s[Gap(s, d)..], d) == Lines(s, d)
  {
    if s != [] && s[0] in d {
      assert s[0..] == s;
      assert LineLength(s, d) == Gap(s, d);
    } else {
      assert s[0..] == s;
    }
  }

  /** The lines of a string, from its first run on. */
  lemma LinesByRun(s: seq<byte>, d: seq<byte>)
    requires 0 < Run(s, d)
    ensures Lines(s, d) == [s[..Run(s, d)]] + Lines(s[Run(s, d)..], d)
  {
    var rest := s[Run(s, d)..];
    SkipGap(rest, d);
    assert rest[Gap(rest, d)..] == s[LineLength(s, d)..];
  }

  lemma LinesByOctet(s: seq<byte>, d: seq<byte>)
    requires s != [] && s[0] in d
    ensures Lines(s, d) == Lines(s[1..], d)
  {
    SkipGap(s, d);
    SkipGap(s[1..], d);
    assert Gap(s, d) == 1 + Gap(s[1..], d);
    assert s[1..][Gap(s[1..], d)..] == s[Gap(s, d)..];
  }

  /** Strings whose border no line crosses have their lines one after the other. */
  lemma {:induction false} LinesJoin(a: seq<byte>, b: seq<byte>, d: seq<byte>)
    requires Border(a, b, d)
    ensures Lines(a + b, d) == Lines(a, d) + Lines(b, d)
    decreases |a|
  {
    hide Lines, Gap;
    if a == [] {
      NoLines(d);
      assert a + b == b;
    } else if b == [] {
      NoLines(d);
      assert a + b == a;
    } else if a[0] in d {
      LinesByOctet(a, d);
      LinesByOctet(a + b, d);
      assert (a + b)[1..] == a[1..] + b;
      LinesJoin(a[1..], b, d);
    } else {
      var n := Run(a, d);
      RunIs(a + b, d, n);
      LinesByRun(a, d);
      LinesByRun(a + b, d);
      assert (a + b)[..n] == a[..n] && (a + b)[n..] == a[n..] + b;
      LinesJoin(a[n..], b, d);
    }
  }

  lemma NoLines(d: seq<byte>)
    ensures Lines([], d) == []
  {
  }

  /** A line and a tail that does not continue it. */
  lemma LineFirst(x: seq<byte>, rest: seq<byte>, d: seq<byte>)
    requires x != [] && Free(x, d) && (rest == [] || rest[0] in d)
    ensures Lines(x + rest, d) == [x] + Lines(rest, d)
  {
    hide Lines;
    LinesJoin(x, rest, d);
    LineOf(x, d);
  }

  function Concatenated(lines: seq<seq<byte>>): seq<byte> {
    if lines == [] then [] else lines[0] + Concatenated(lines[1..])
  }

  /** The octets that are no delimiters. */
  function Kept(s: seq<byte>, d: seq<byte>): seq<byte> {
    if s == [] then [] else (if s[0] in d then [] else [s[0]]) + Kept(s[1..], d)
  }

  lemma {:induction false} KeptSplit(s: seq<byte>, d: seq<byte>, n: nat)
    requires n <= |s|
    ensures Kept(s, d) == Kept(s[..n], d) + Kept(s[n..], d)
    decreases n
  {
    if n == 0 {
      assert s[0..] == s;
    } else {
      KeptSplit(s[1..], d, n - 1);
      assert s[..n][1..] == s[1..][..n - 1] && s[1..][n - 1..] == s[n..];
    }
  }

  lemma {:induction false} KeptWhole(s: seq<byte>, d: seq<byte>)
    ensures Free(s, d) ==> Kept(s, d) == s
    ensures (forall k :: 0 <= k < |s| ==> s[k] in d) ==> Kept(s, d) == []
  {
    if s != [] {
      KeptWhole(s[1..], d);
    }
  }

  /** Lines hold every octet that is no delimiter, in its order, and no delimiter. */
  lemma {:induction false} LinesKeep(s: seq<byte>, d: seq<byte>)
    ensures Concatenated(Lines(s, d)) == Kept(s, d)
    ensures forall k :: 0 <= k < |Lines(s, d)| ==> Free(Lines(s, d)[k], d)
    decreases |s|
  {
    if s != [] {
      var n, m := Run(s, d), LineLength(s, d);
      LinesKeep(s[m..], d);
      LinePart(s, d);
      hide Kept, Run, LineLength;
      if n == 0 {
        assert Lines(s, d) == Lines(s[m..], d);
      } else {
        var rest := Lines(s[m..], d);
        assert Lines(s, d) == [s[..n]] + rest && ([s[..n]] + rest)[1..] == rest;
      }
    }
  }

  lemma LinePart(s: seq<byte>, d: seq<byte>)
    requires s != []
    ensures Kept(s, d) == s[..Run(s, d)] + Kept(s[LineLength(s, d)..], d) && Free(s[..Run(s, d)], d)
  {
    hide Kept, Gap;
    var n, m := Run(s, d), LineLength(s, d);
    hide Run;
    KeptSplit(s, d, n);
    KeptSplit(s[n..], d, m - n);
    KeptWhole(s[..n], d);
    KeptWhole(s[n..][..m - n], d);
    assert s[n..][m - n..] == s[m..];
  }
}
