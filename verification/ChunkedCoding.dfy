/**
 Chunked messages: printing and parsing them, in one buffer and in two.
 */
module ChunkedCoding {
  import opened Arithmetic
  import opened Bytes
  import opened TextLines
  import opened ByteBuffers
  import opened HttpParser

  /** A chunk and the digits that spell its size. */
  datatype Chunk = Chunk(size: seq<byte>, payload: seq<byte>)

  predicate Spells(digits: seq<byte>, n: nat) {
    digits != [] && AllHex(digits) && HexValue(digits) == n
  }

  predicate Sound(c: Chunk) {
    c.payload != [] && |c.payload| < MAX_MSG_LENGTH && Free(c.payload, DELIMITERS) && Spells(c.size, |c.payload|)
  }

  predicate AllSound(chunks: seq<Chunk>) {
    forall k :: 0 <= k < |chunks| ==> Sound(chunks[k])
  }

  function Encoded(c: Chunk): seq<byte> { c.size + CRLF + c.payload + CRLF }

  /** Section 7.1 of RFC 9112 without extensions and trailers: the chunks, and a last chunk of size zero. */
  function Printed(chunks: seq<Chunk>, last: seq<byte>): seq<byte> {
    if chunks == [] then last + CRLF + CRLF else Encoded(chunks[0]) + Printed(chunks[1..], last)
  }

  function Payload(chunks: seq<Chunk>): seq<byte> {
    if chunks == [] then [] else chunks[0].payload + Payload(chunks[1..])
  }

  /** The digit of a number below sixteen, in lower case. */
  function DigitOf(n: nat): (b: byte)
    requires n < 0x10
    ensures IsHexDigit(b) && HexDigit(b) == n
  {
    [0x30, 0x31, 0x32, 0x33, 0x34, 0x35, 0x36, 0x37, 0x38, 0x39, 0x61, 0x62, 0x63, 0x64, 0x65, 0x66][n]
  }

  /** A number in hexadecimal digits. */
  function Hex(n: nat): (digits: seq<byte>)
    ensures Spells(digits, n)
  {
    if n < 0x10 then [DigitOf(n)]
    else
      var front := Hex(n / 0x10);
      var digits := front + [DigitOf(n % 0x10)];
      assert digits[..|digits| - 1] == front;
      digits
  }

  lemma HexIsFree(digits: seq<byte>)
    requires AllHex(digits)
    ensures Free(digits, DELIMITERS)
  {
  }

  lemma BreakSkipped(j: nat, rest: seq<byte>)
    requires j <= 2
    ensures Lines(CRLF[j..] + rest, DELIMITERS) == Lines(rest, DELIMITERS)
  {
    hide Lines;
    var s := CRLF[j..] + rest;
    if j == 2 {
      assert s == rest;
    } else if j == 1 {
      assert s[1..] == rest;
      LinesByOctet(s, DELIMITERS);
    } else {
      assert s[1..][1..] == rest;
      LinesByOctet(s, DELIMITERS);
      LinesByOctet(s[1..], DELIMITERS);
    }
  }

  /** A line, at least the beginning of a break behind it, and the rest. */
  lemma LineThenBreak(x: seq<byte>, rest: seq<byte>)
    requires x != [] && Free(x, DELIMITERS)
    ensures Lines(x + CRLF + rest, DELIMITERS) == [x] + Lines(rest, DELIMITERS)
  {
    hide Lines;
    LineFirst(x, CRLF + rest, DELIMITERS);
    assert x + CRLF + rest == x + (CRLF + rest);
    assert CRLF[0..] == CRLF;
    BreakSkipped(0, rest);
  }

  lemma LineThenPart(x: seq<byte>, j: nat)
    requires x != [] && Free(x, DELIMITERS) && j <= 2
    ensures Lines(x + CRLF[..j], DELIMITERS) == [x]
  {
    hide Lines;
    LineFirst(x, CRLF[..j], DELIMITERS);
    BreakSkipped(2 - j, []);
    PartOfBreak(j);
  }

  lemma PartOfBreak(j: nat)
    requires j <= 2
    ensures Lines(CRLF[..j], DELIMITERS) == []
  {
    hide Lines;
    NoLines(DELIMITERS);
    if j == 0 {
      assert CRLF[..0] == [];
    } else {
      LinesByOctet(CRLF[..j], DELIMITERS);
      if j == 1 {
        assert CRLF[..1][1..] == [];
      } else {
        LinesByOctet(CRLF[..2][1..], DELIMITERS);
        assert CRLF[..2][1..][1..] == [];
      }
    }
  }

  lemma FoldOne(st: State, x: seq<byte>, lines: seq<seq<byte>>)
    ensures Fold(st, [x] + lines) == Fold(Step(st, x), lines)
  {
    hide Step;
    assert ([x] + lines)[1..] == lines;
  }

  /** A size line opens a chunk. */
  lemma SizeStep(st: State, digits: seq<byte>, n: nat)
    requires st.Parsing? && st.remaining == MAX_MSG_LENGTH && Spells(digits, n) && n < MAX_MSG_LENGTH
    ensures Step(st, digits) == Parsing(n, st.data, n == 0)
  {
  }

  /** Part of a payload. */
  lemma PayloadStep(st: State, x: seq<byte>)
    requires st.Parsing? && x != [] && |x| <= st.remaining < MAX_MSG_LENGTH
    ensures Step(st, x)
      == Parsing(if |x| == st.remaining then MAX_MSG_LENGTH else st.remaining - |x|, st.data + x, st.end)
  {
  }

  /** An open chunk takes any number of lines, until its size is reached and no chunk is open. */
  lemma {:induction false} OpenChunk(m: nat, data: seq<byte>, end: bool, lines: seq<seq<byte>>)
    requires 0 < m < MAX_MSG_LENGTH && |Concatenated(lines)| <= m && forall k :: 0 <= k < |lines| ==> lines[k] != []
    ensures var all := Concatenated(lines);
      Fold(Parsing(m, data, end), lines)
      == Parsing(if |all| == m then MAX_MSG_LENGTH else m - |all|, data + all, end)
    decreases |lines|
  {
    hide Step;
    if lines == [] {
      assert data + [] == data;
    } else {
      var x, rest := lines[0], lines[1..];
      PayloadStep(Parsing(m, data, end), x);
      if |x| == m {
        NothingJoined(rest);
        assert data + x + [] == data + x && x + Concatenated(rest) == x;
      } else {
        OpenChunk(m - |x|, data + x, end, rest);
        assert data + x + Concatenated(rest) == data + (x + Concatenated(rest));
      }
    }
  }

  lemma NothingJoined(lines: seq<seq<byte>>)
    requires Concatenated(lines) == [] && forall k :: 0 <= k < |lines| ==> lines[k] != []
    ensures lines == []
  {
  }

  /** A whole chunk in front: its payload is added, and no chunk is open again. */
  lemma ChunkInFront(c: Chunk, rest: seq<byte>, data: seq<byte>)
    requires Sound(c)
    ensures Parse(Encoded(c) + rest, MAX_MSG_LENGTH, data) == Parse(rest, MAX_MSG_LENGTH, data + c.payload)
  {
    hide Lines, Fold, Step, HexValue;
    var tail := c.payload + CRLF + rest;
    assert Encoded(c) + rest == c.size + CRLF + tail;
    HexIsFree(c.size);
    LineThenBreak(c.size, tail);
    LineThenBreak(c.payload, rest);
    var st := Parsing(MAX_MSG_LENGTH, data, false);
    FoldOne(st, c.size, Lines(tail, DELIMITERS));
    SizeStep(st, c.size, |c.payload|);
    FoldOne(Step(st, c.size), c.payload, Lines(rest, DELIMITERS));
    PayloadStep(Step(st, c.size), c.payload);
  }

  /** The line of the last chunk, and breaks. */
  lemma LastChunk(last: seq<byte>, breaks: seq<byte>, data: seq<byte>)
    requires Spells(last, 0) && Lines(last + breaks, DELIMITERS) == [last]
    ensures Parse(last + breaks, MAX_MSG_LENGTH, data) == Parsing(0, data, true)
  {
    hide Lines, Step;
    var st := Parsing(MAX_MSG_LENGTH, data, false);
    assert [last] + [] == [last];
    FoldOne(st, last, []);
    SizeStep(st, last, 0);
  }

  lemma LastLines(last: seq<byte>, k: nat)
    requires last != [] && AllHex(last) && k <= 4
    ensures Lines(last + (CRLF + CRLF)[..k], DELIMITERS) == [last]
    ensures Lines((CRLF + CRLF)[k..], DELIMITERS) == []
  {
    hide Lines;
    HexIsFree(last);
    NoLines(DELIMITERS);
    if k <= 2 {
      LineThenPart(last, k);
      assert (CRLF + CRLF)[..k] == CRLF[..k] && (CRLF + CRLF)[k..] == CRLF[k..] + CRLF;
      BreakSkipped(k, CRLF);
    } else {
      LineThenBreak(last, CRLF[..k - 2]);
      assert last + (CRLF + CRLF)[..k] == last + CRLF + CRLF[..k - 2];
      PartOfBreak(k - 2);
      assert (CRLF + CRLF)[k..] == CRLF[k - 2..] + [];
      BreakSkipped(k - 2, []);
    }
    assert CRLF + [] == CRLF && CRLF[0..] == CRLF;
    BreakSkipped(0, []);
  }

  /** A printed message in one buffer gives the payload, nothing missing, and the end. */
  lemma {:induction false} ParseWhole(chunks: seq<Chunk>, last: seq<byte>, data: seq<byte>)
    requires AllSound(chunks) && Spells(last, 0)
    ensures Parse(Printed(chunks, last), MAX_MSG_LENGTH, data) == Parsing(0, data + Payload(chunks), true)
    decreases |chunks|
  {
    hide Parse, HexValue;
    if chunks == [] {
      LastLines(last, 4);
      assert last + (CRLF + CRLF)[..4] == last + CRLF + CRLF;
      LastChunk(last, (CRLF + CRLF)[..4], data);
      assert data + [] == data;
    } else {
      ChunkInFront(chunks[0], Printed(chunks[1..], last), data);
      ParseWhole(chunks[1..], last, data + chunks[0].payload);
      assert data + chunks[0].payload + Payload(chunks[1..]) == data + Payload(chunks);
    }
  }

  /** A split that leaves every size line whole. */
  predicate Splits(chunks: seq<Chunk>, last: seq<byte>, k: nat) {
    if chunks == [] then k == 0 || |last| <= k <= |last| + 4
    else
      || k == 0
      || |chunks[0].size| <= k < |Encoded(chunks[0])|
      || (|Encoded(chunks[0])| <= k && Splits(chunks[1..], last, k - |Encoded(chunks[0])|))
  }

  lemma {:induction false} SplitInside(chunks: seq<Chunk>, last: seq<byte>, k: nat)
    requires Splits(chunks, last, k)
    ensures k <= |Printed(chunks, last)|
    ensures |Printed(chunks, last)| >= |last| + 4
    decreases |chunks|
  {
    hide Encoded;
    if chunks != [] {
      if |Encoded(chunks[0])| <= k && Splits(chunks[1..], last, k - |Encoded(chunks[0])|) {
        SplitInside(chunks[1..], last, k - |Encoded(chunks[0])|);
      } else {
        assert Splits(chunks[1..], last, 0);
        SplitInside(chunks[1..], last, 0);
      }
    }
  }

  /** Two calls over a buffer cut in two. */
  function ParseTwice(a: seq<byte>, b: seq<byte>, data: seq<byte>): State {
    var first := Parse(a, MAX_MSG_LENGTH, data);
    if first.OutOfRange? then first else Parse(b, first.remaining, first.data)
  }

  /** Cut behind its size line, a chunk is open after the first part, with its whole payload missing. */
  lemma CutBehindSize(c: Chunk, j: nat, rest: seq<byte>, data: seq<byte>)
    requires Sound(c) && j <= 2
    ensures ParseTwice(c.size + CRLF[..j], CRLF[j..] + (c.payload + CRLF + rest), data)
      == Parse(rest, MAX_MSG_LENGTH, data + c.payload)
  {
    hide Lines, Fold, Step, HexValue;
    HexIsFree(c.size);
    LineThenPart(c.size, j);
    assert [c.size] + [] == [c.size];
    FoldOne(Parsing(MAX_MSG_LENGTH, data, false), c.size, []);
    SizeStep(Parsing(MAX_MSG_LENGTH, data, false), c.size, |c.payload|);
    FoldNone(Parsing(|c.payload|, data, false));
    BreakSkipped(j, c.payload + CRLF + rest);
    LineThenBreak(c.payload, rest);
    FoldOne(Parsing(|c.payload|, data, false), c.payload, Lines(rest, DELIMITERS));
    PayloadStep(Parsing(|c.payload|, data, false), c.payload);
  }

  lemma FoldNone(st: State)
    ensures Fold(st, []) == st
  {
  }

  /** Cut inside its payload. */
  lemma CutInPayload(c: Chunk, j: nat, rest: seq<byte>, data: seq<byte>)
    requires Sound(c) && 0 < j < |c.payload|
    ensures ParseTwice(c.size + CRLF + c.payload[..j], c.payload[j..] + CRLF + rest, data)
      == Parse(rest, MAX_MSG_LENGTH, data + c.payload)
  {
    hide Lines, Fold, Step, HexValue;
    var x, y, n := c.payload[..j], c.payload[j..], |c.payload|;
    var st, begun := Parsing(MAX_MSG_LENGTH, data, false), Parsing(n, data, false);
    var partly := Parsing(n - j, data + x, false);
    HexIsFree(c.size);
    LineThenBreak(c.size, x);
    LineOf(x, DELIMITERS);
    FoldOne(st, c.size, [x]);
    SizeStep(st, c.size, n);
    assert [x] + [] == [x];
    FoldOne(begun, x, []);
    PayloadStep(begun, x);
    FoldNone(partly);
    LineThenBreak(y, rest);
    FoldOne(partly, y, Lines(rest, DELIMITERS));
    PayloadStep(partly, y);
    assert data + x + y == data + c.payload;
  }

  /** Cut behind its payload. */
  lemma CutBehindPayload(c: Chunk, j: nat, rest: seq<byte>, data: seq<byte>)
    requires Sound(c) && j <= 2
    ensures ParseTwice(c.size + CRLF + c.payload + CRLF[..j], CRLF[j..] + rest, data)
      == Parse(rest, MAX_MSG_LENGTH, data + c.payload)
  {
    hide Lines, Fold, Step, HexValue;
    var n := |c.payload|;
    var st, begun := Parsing(MAX_MSG_LENGTH, data, false), Parsing(n, data, false);
    HexIsFree(c.size);
    assert c.size + CRLF + c.payload + CRLF[..j] == c.size + CRLF + (c.payload + CRLF[..j]);
    LineThenBreak(c.size, c.payload + CRLF[..j]);
    LineThenPart(c.payload, j);
    FoldOne(st, c.size, [c.payload]);
    SizeStep(st, c.size, n);
    assert [c.payload] + [] == [c.payload];
    FoldOne(begun, c.payload, []);
    PayloadStep(begun, c.payload);
    FoldNone(Parsing(MAX_MSG_LENGTH, data + c.payload, false));
    BreakSkipped(j, rest);
  }

  lemma CutChunk(c: Chunk, k: nat, rest: seq<byte>, data: seq<byte>)
    requires Sound(c) && |c.size| <= k < |Encoded(c)|
    ensures ParseTwice(Encoded(c)[..k], Encoded(c)[k..] + rest, data) == Parse(rest, MAX_MSG_LENGTH, data + c.payload)
  {
    hide ParseTwice, Parse, HexValue;
    var e, m, n := Encoded(c), |c.size|, |c.payload|;
    if k <= m + 2 {
      assert e[..k] == c.size + CRLF[..k - m];
      assert e[k..] + rest == CRLF[k - m..] + (c.payload + CRLF + rest);
      CutBehindSize(c, k - m, rest, data);
    } else if k < m + 2 + n {
      assert e[..k] == c.size + CRLF + c.payload[..k - m - 2];
      assert e[k..] + rest == c.payload[k - m - 2..] + CRLF + rest;
      CutInPayload(c, k - m - 2, rest, data);
    } else {
      var j := k - m - 2 - n;
      assert e[..k] == c.size + CRLF + c.payload + CRLF[..j];
      assert e[k..] + rest == CRLF[j..] + rest;
      CutBehindPayload(c, j, rest, data);
    }
  }

  /** Cut at the very beginning, nothing has been parsed. */
  lemma CutNowhere(s: seq<byte>, data: seq<byte>)
    ensures ParseTwice([], s, data) == Parse(s, MAX_MSG_LENGTH, data)
  {
    hide Lines, Fold;
    NoLines(DELIMITERS);
    FoldNone(Parsing(MAX_MSG_LENGTH, data, false));
  }

  /** Cut behind the digits of the last chunk, the second call sees no size line. */
  lemma CutBehindLast(last: seq<byte>, k: nat, data: seq<byte>)
    requires Spells(last, 0) && |last| <= k <= |last| + 4
    ensures ParseTwice((last + CRLF + CRLF)[..k], (last + CRLF + CRLF)[k..], data) == Parsing(0, data, false)
  {
    hide Lines, Fold, HexValue;
    var j := k - |last|;
    LastLines(last, j);
    assert (last + CRLF + CRLF)[..k] == last + (CRLF + CRLF)[..j];
    assert (last + CRLF + CRLF)[k..] == (CRLF + CRLF)[j..];
    LastChunk(last, (CRLF + CRLF)[..j], data);
    FoldNone(Parsing(0, data, false));
  }

  /**
   A printed message in two buffers gives the same payload with nothing missing wherever no size
   line is cut, and the last call returns true exactly when it sees the line of the last chunk.
   */
  lemma {:induction false} ParseSplit(chunks: seq<Chunk>, last: seq<byte>, k: nat, data: seq<byte>)
    requires AllSound(chunks) && Spells(last, 0) && Splits(chunks, last, k)
    ensures k <= |Printed(chunks, last)|
    ensures var p := Printed(chunks, last);
      ParseTwice(p[..k], p[k..], data) == Parsing(0, data + Payload(chunks), k <= |p| - 4 - |last|)
    decreases |chunks|
  {
    hide ParseTwice, Parse, HexValue, Encoded, Sound;
    var p := Printed(chunks, last);
    SplitInside(chunks, last, k);
    if k == 0 {
      assert p[..0] == [] && p[0..] == p;
      CutNowhere(p, data);
      ParseWhole(chunks, last, data);
    } else if chunks == [] {
      CutBehindLast(last, k, data);
      assert data + [] == data;
    } else {
      var c, rest := chunks[0], Printed(chunks[1..], last);
      var n := |Encoded(c)|;
      assert data + c.payload + Payload(chunks[1..]) == data + Payload(chunks);
      if k < n {
        assert p[..k] == Encoded(c)[..k] && p[k..] == Encoded(c)[k..] + rest;
        CutChunk(c, k, rest, data);
        ParseWhole(chunks[1..], last, data + c.payload);
        RestLength(chunks[1..], last);
      } else {
        assert p[..k] == Encoded(c) + rest[..k - n] && p[k..] == rest[k - n..];
        ChunkBeforeCut(c, rest[..k - n], rest[k - n..], data);
        ParseSplit(chunks[1..], last, k - n, data + c.payload);
      }
    }
  }

  lemma RestLength(chunks: seq<Chunk>, last: seq<byte>)
    ensures |Printed(chunks, last)| >= |last| + 4
  {
    SplitInside(chunks, last, 0);
  }

  lemma ChunkBeforeCut(c: Chunk, a: seq<byte>, b: seq<byte>, data: seq<byte>)
    requires Sound(c)
    ensures ParseTwice(Encoded(c) + a, b, data) == ParseTwice(a, b, data + c.payload)
  {
    hide Parse, Encoded, Sound;
    ChunkInFront(c, a, data);
  }

  /** The same state but for the end flag. */
  predicate Alike(x: State, y: State) {
    if x.OutOfRange? then x == y else y.Parsing? && x.remaining == y.remaining && x.data == y.data
  }

  lemma {:induction false} FoldAlike(x: State, y: State, lines: seq<seq<byte>>)
    requires Alike(x, y)
    ensures Alike(Fold(x, lines), Fold(y, lines))
    decreases |lines|
  {
    if lines != [] {
      FoldAlike(Step(x, lines[0]), Step(y, lines[0]), lines[1..]);
    }
  }

  /** Any octets at all, cut where no line is cut: two calls do what one call does, but for the end flag. */
  lemma SplitAtBorder(a: seq<byte>, b: seq<byte>, remaining: nat, data: seq<byte>)
    requires Border(a, b, DELIMITERS)
    ensures var first, whole := Parse(a, remaining, data), Parse(a + b, remaining, data);
      if first.OutOfRange? then whole == first
      else Alike(whole, Parse(b, first.remaining, first.data))
  {
    hide Lines, Fold, Step;
    var first := Parse(a, remaining, data);
    LinesJoin(a, b, DELIMITERS);
    FoldAppend(Parsing(remaining, data, false), Lines(a, DELIMITERS), Lines(b, DELIMITERS));
    if first.OutOfRange? {
      FoldStuck(first, Lines(b, DELIMITERS));
    } else {
      FoldAlike(first, Parsing(first.remaining, first.data, false), Lines(b, DELIMITERS));
    }
  }

  // Lines that open no chunk, and lines that are too long.

  /** What is left of size_t when n is taken from it. */
  function Left(remaining: nat, n: nat): nat { (remaining - n) % SIZE_MODULUS }

  /** While no chunk is open, a line that is no size line goes to the data with its break, and is counted. */
  lemma NoSizeLine(x: seq<byte>, rest: seq<byte>, data: seq<byte>)
    requires x != [] && Free(x, DELIMITERS) && !AllHex(x)
    ensures Parse(x + CRLF + rest, MAX_MSG_LENGTH, data)
      == Fold(Parsing(Left(MAX_MSG_LENGTH, |x|), data + x + CRLF, false), Lines(rest, DELIMITERS))
    ensures |x| < SIZE_MODULUS ==> Left(MAX_MSG_LENGTH, |x|) == MAX_MSG_LENGTH - |x|
  {
    hide Lines;
    LineThenBreak(x, rest);
    FoldOne(Parsing(MAX_MSG_LENGTH, data, false), x, Lines(rest, DELIMITERS));
  }

  /** A size line opens a chunk of that size; what no size_t holds is an exception. */
  lemma AnySizeLine(x: seq<byte>, rest: seq<byte>, data: seq<byte>)
    requires x != [] && AllHex(x)
    ensures Parse(x + CRLF + rest, MAX_MSG_LENGTH, data) ==
      if HexValue(x) < SIZE_MODULUS
      then Fold(Parsing(HexValue(x), data, HexValue(x) == 0), Lines(rest, DELIMITERS))
      else OutOfRange(data)
  {
    hide Lines, HexValue;
    HexIsFree(x);
    LineThenBreak(x, rest);
    FoldOne(Parsing(MAX_MSG_LENGTH, data, false), x, Lines(rest, DELIMITERS));
    if HexValue(x) >= SIZE_MODULUS {
      FoldStuck(OutOfRange(data), Lines(rest, DELIMITERS));
    }
  }

  /**
   A line longer than what is missing of the open chunk goes to the data whole. The count wraps, and
   exactly for one octet too many it looks as if no chunk were open.
   */
  lemma LongLine(m: nat, x: seq<byte>, rest: seq<byte>, data: seq<byte>)
    requires m < MAX_MSG_LENGTH && m < |x| < SIZE_MODULUS && Free(x, DELIMITERS)
    ensures Parse(x + CRLF + rest, m, data)
      == Fold(Parsing(SIZE_MODULUS - (|x| - m), data + x, false), Lines(rest, DELIMITERS))
    ensures SIZE_MODULUS - (|x| - m) == MAX_MSG_LENGTH <==> |x| == m + 1
  {
    hide Lines;
    LineThenBreak(x, rest);
    FoldOne(Parsing(m, data, false), x, Lines(rest, DELIMITERS));
    assert Left(m, |x|) == SIZE_MODULUS - (|x| - m);
  }

  /** The digits count from the front, sixteen for one. */
  lemma {:induction false} LeadingDigit(b: byte, line: seq<byte>)
    requires IsHexDigit(b) && AllHex(line)
    ensures AllHex([b] + line) && HexValue([b] + line) == HexDigit(b) * Pow(0x10, |line|) + HexValue(line)
  {
    hide HexDigit, IsHexDigit;
    if line == [] {
      assert [b] + line == [b] && [b][..0] == [];
      assert HexValue([b]) == 0x10 * HexValue([]) + HexDigit(b);
    } else {
      var front, last := line[..|line| - 1], line[|line| - 1];
      LeadingDigit(b, front);
      var s := [b] + line;
      assert s[..|s| - 1] == [b] + front && s[|s| - 1] == last;
      MulAssociative(HexDigit(b), Pow(0x10, |front|), 0x10);
    }
  }

  /** Upper case letters have the values of lower case ones. */
  lemma UpperCase(b: byte)
    requires 0x61 <= b <= 0x66
    ensures IsHexDigit(b - 0x20) && HexDigit(b - 0x20) == HexDigit(b)
  {
  }

  // Lines from the tests of the parser.

  lemma NoBreakLeft()
    ensures Lines([0x17], DELIMITERS) == []
  {
    LinesByOctet([0x17], DELIMITERS);
    NoLines(DELIMITERS);
    assert [0x17 as byte][1..] == [];
  }

  const TEXT: seq<byte> := [0x74, 0x45, 0x78, 0x74]

  /** A line of text where a size should be. */
  lemma TextLine()
    ensures Parse(TEXT + CRLF + [0x17], MAX_MSG_LENGTH, []) == Parsing(MAX_MSG_LENGTH - 4, TEXT + CRLF, false)
  {
    hide Lines;
    assert !IsHexDigit(TEXT[0]);
    NoSizeLine(TEXT, [0x17], []);
    NoBreakLeft();
    assert [] + TEXT + CRLF == TEXT + CRLF;
  }

  const WORDS: seq<byte> := [0x74, 0x65, 0x73, 0x74, 0x5f, 0x64, 0x61, 0x74, 0x61]

  /** A line break, a chunk of nine octets and a last chunk. */
  lemma BreakInFront()
    ensures Parse([0x0a, 0x39] + CRLF + WORDS + CRLF + ([0x30] + CRLF + [0x17]), MAX_MSG_LENGTH, [])
      == Parsing(0, WORDS, true)
  {
    hide Lines, Step;
    var nine, zero, tail: seq<byte> := [0x39], [0x30], [0x30] + CRLF + [0x17];
    Nine();
    var s := [0x0a, 0x39] + CRLF + WORDS + CRLF + tail;
    LinesByOctet(s, DELIMITERS);
    assert s[1..] == nine + CRLF + (WORDS + CRLF + tail);
    HexIsFree(nine);
    LineThenBreak(nine, WORDS + CRLF + tail);
    LineThenBreak(WORDS, tail);
    HexIsFree(zero);
    LineThenBreak(zero, [0x17]);
    NoBreakLeft();
    var st := Parsing(MAX_MSG_LENGTH, [], false);
    FoldOne(st, nine, [WORDS] + ([zero] + []));
    FoldOne(Parsing(9, [], false), WORDS, [zero] + []);
    FoldOne(Parsing(MAX_MSG_LENGTH, WORDS, false), zero, []);
    SizeStep(st, nine, 9);
    PayloadStep(Parsing(9, [], false), WORDS);
    SizeStep(Parsing(MAX_MSG_LENGTH, WORDS, false), zero, 0);
    assert [] + WORDS == WORDS;
  }

  lemma Nine()
    ensures Spells([0x39], 9) && Spells([0x30], 0)
  {
    assert [0x39 as byte][..0] == [] && [0x30 as byte][..0] == [];
    assert HexValue([]) == 0;
  }
}
