/**
 HttpParser.cpp: chunked payload read line by line, in one buffer or in several, and
 its relation to the chunked coding of section 7.1 of RFC 9112.
 */
module HttpParser {
  import opened Bytes
  import opened TextLines
  import opened ByteBuffers

  /** The largest size_t, which stands for "no chunk is open". */
  const MAX_MSG_LENGTH: nat := SIZE_MODULUS - 1

  const CRLF: seq<byte> := [0x0d, 0x0a]

  predicate IsHexDigit(b: byte) {
    0x30 <= b <= 0x39 || 0x41 <= b <= 0x46 || 0x61 <= b <= 0x66
  }

  function HexDigit(b: byte): (n: nat)
    requires IsHexDigit(b)
  {
    if b <= 0x39 then (b - 0x30) as nat else if b <= 0x46 then (b - 0x37) as nat else (b - 0x57) as nat
  }

  predicate AllHex(line: seq<byte>) {
    forall k :: 0 <= k < |line| ==> IsHexDigit(line[k])
  }

  function HexValue(line: seq<byte>): (n: nat)
    requires AllHex(line)
  {
    if line == [] then 0 else 0x10 * HexValue(line[..|line| - 1]) + HexDigit(line[|line| - 1])
  }

  /**
   Where the parser is: octets missing in the open chunk, the payload so far, and whether the last
   size line was zero.
   */
  datatype State =
    | Parsing(remaining: nat, data: seq<byte>, end: bool)
    | OutOfRange(data: seq<byte>)

  /** What a line does to the state; a size line that no size_t holds is an exception. */
  function Step(st: State, line: seq<byte>): State {
    if line == [] || st.OutOfRange? then st
    else if st.remaining == MAX_MSG_LENGTH then
      if !AllHex(line) then Parsing((st.remaining - |line|) % SIZE_MODULUS, st.data + line + CRLF, st.end)
      else if HexValue(line) >= SIZE_MODULUS then OutOfRange(st.data)
      else Parsing(HexValue(line), st.data, HexValue(line) == 0)
    else
      var left := (st.remaining - |line|) % SIZE_MODULUS;
      Parsing(if left == 0 then MAX_MSG_LENGTH else left, st.data + line, st.end)
  }

  function Fold(st: State, lines: seq<seq<byte>>): State
    decreases |lines|
  {
    if lines == [] then st else Fold(Step(st, lines[0]), lines[1..])
  }

  lemma {:induction false} FoldAppend(st: State, xs: seq<seq<byte>>, ys: seq<seq<byte>>)
    ensures Fold(st, xs + ys) == Fold(Fold(st, xs), ys)
    decreases |xs|
  {
    hide Step;
    if xs == [] {
      assert xs + ys == ys;
    } else {
      assert (xs + ys)[1..] == xs[1..] + ys;
      FoldAppend(Step(st, xs[0]), xs[1..], ys);
    }
  }

  lemma {:induction false} FoldStuck(st: State, lines: seq<seq<byte>>)
    requires st.OutOfRange?
    ensures Fold(st, lines) == st
    decreases |lines|
  {
    if lines != [] {
      FoldStuck(Step(st, lines[0]), lines[1..]);
    }
  }

  /** One call over a whole buffer: the end flag starts at false. */
  function Parse(s: seq<byte>, remaining: nat, data: seq<byte>): State {
    Fold(Parsing(remaining, data, false), Lines(s, DELIMITERS))
  }

  /** The loop from the read cursor: what is left of the buffer, the state, and whether the loop has ended. */
  datatype Machine = Machine(cursor: nat, st: State, halted: bool)

  /** One evaluation of the loop guard and, if it holds, of the body. */
  function Turn(s: seq<byte>, writeIndex: nat, m: Machine): Machine
    requires m.cursor <= |s|
    ensures Turn(s, writeIndex, m).cursor <= |s|
  {
    if m.halted || m.st.OutOfRange? then m.(halted := true)
    else
      var rest := s[m.cursor..];
      var line := rest[..Run(rest, DELIMITERS)];
      var next := m.cursor + LineLength(rest, DELIMITERS);
      if next == writeIndex && line == [] then Machine(next, m.st, true)
      else Machine(next, Step(m.st, line), false)
  }

  function After(s: seq<byte>, writeIndex: nat, m: Machine, n: nat): (r: Machine)
    requires m.cursor <= |s|
    ensures r.cursor <= |s|
  {
    if n == 0 then m else Turn(s, writeIndex, After(s, writeIndex, m, n - 1))
  }

  /** The loop ends at once when the first line is empty and the cursor lands on the write cursor. */
  predicate EndsAtOnce(s: seq<byte>, cursor: nat, writeIndex: nat)
    requires cursor <= |s|
  {
    Run(s[cursor..], DELIMITERS) == 0 && cursor + LineLength(s[cursor..], DELIMITERS) == writeIndex
  }

  /** The buffer is full up to its size, or the loop ends at once, or a size line is out of range. */
  predicate Halts(s: seq<byte>, cursor: nat, writeIndex: nat, st: State)
    requires cursor <= |s|
  {
    || writeIndex == |s|
    || EndsAtOnce(s, cursor, writeIndex)
    || Fold(st, Lines(s[cursor..], DELIMITERS)).OutOfRange?
  }

  /** The state when the loop has ended. */
  function Result(s: seq<byte>, cursor: nat, writeIndex: nat, st: State): State
    requires cursor <= |s|
  {
    if EndsAtOnce(s, cursor, writeIndex) then st else Fold(st, Lines(s[cursor..], DELIMITERS))
  }

  /** A turn that does not end the loop takes one line off the front. */
  lemma TurnTakesLine(s: seq<byte>, cursor: nat, st: State)
    requires cursor <= |s|
    ensures var rest := s[cursor..];
      var line, next := rest[..Run(rest, DELIMITERS)], cursor + LineLength(rest, DELIMITERS);
      && next <= |s|
      && Fold(st, Lines(rest, DELIMITERS)) == Fold(Step(st, line), Lines(s[next..], DELIMITERS))
      && (cursor < |s| ==> cursor < next)
      && (next < |s| ==> 0 < Run(s[next..], DELIMITERS))
  {
    var rest := s[cursor..];
    var next := cursor + LineLength(rest, DELIMITERS);
    assert rest[LineLength(rest, DELIMITERS)..] == s[next..];
    if rest != [] {
      var line := rest[..Run(rest, DELIMITERS)];
      if line != [] {
        assert Lines(rest, DELIMITERS) == [line] + Lines(s[next..], DELIMITERS);
      }
      if next < |s| {
        NextStartsLine(rest, DELIMITERS);
      }
    }
  }

  lemma NextStartsLine(s: seq<byte>, d: seq<byte>)
    requires LineLength(s, d) < |s|
    ensures 0 < Run(s[LineLength(s, d)..], d)
  {
    var n := Run(s, d);
    assert s[LineLength(s, d)] == s[n..][Gap(s[n..], d)];
  }

  /** A turn that does not end the loop keeps what will come out of it, and makes progress. */
  lemma TurnKeeps(s: seq<byte>, cursor: nat, writeIndex: nat, st: State)
    requires cursor <= |s| && st.Parsing? && Halts(s, cursor, writeIndex, st) && !EndsAtOnce(s, cursor, writeIndex)
    ensures var rest := s[cursor..];
      var line, next := rest[..Run(rest, DELIMITERS)], cursor + LineLength(rest, DELIMITERS);
      && cursor < next <= |s|
      && Halts(s, next, writeIndex, Step(st, line))
      && Result(s, next, writeIndex, Step(st, line)) == Result(s, cursor, writeIndex, st)
  {
    hide Step, Run, LineLength, Lines;
    TurnTakesLine(s, cursor, st);
    var rest := s[cursor..];
    var next := cursor + LineLength(rest, DELIMITERS);
    NothingLeft(s);
    if next == |s| {
      assert s[next..] == [];
    }
  }

  lemma NothingLeft(s: seq<byte>)
    ensures s[|s|..] == [] && Run([], DELIMITERS) == 0 && LineLength([], DELIMITERS) == 0 && Lines([], DELIMITERS) == []
  {
  }

  lemma {:induction false} AfterFirst(s: seq<byte>, writeIndex: nat, m: Machine, n: nat)
    requires m.cursor <= |s|
    ensures After(s, writeIndex, m, n + 1) == After(s, writeIndex, Turn(s, writeIndex, m), n)
  {
    hide Turn;
    if n != 0 {
      AfterFirst(s, writeIndex, m, n - 1);
    }
  }

  lemma {:induction false} RunsToEnd(s: seq<byte>, cursor: nat, writeIndex: nat, st: State) returns (n: nat)
    requires cursor <= |s| && Halts(s, cursor, writeIndex, st)
    ensures var r := After(s, writeIndex, Machine(cursor, st, false), n);
      r.halted && (st.Parsing? ==> r.st == Result(s, cursor, writeIndex, st)) && (st.OutOfRange? ==> r.st == st)
    decreases |s| - cursor
  {
    hide Halts, Result, Step, Run, LineLength, Lines, Fold, Turn, EndsAtOnce;
    var m := Machine(cursor, st, false);
    TurnIs(s, cursor, writeIndex, st);
    if st.OutOfRange? || EndsAtOnce(s, cursor, writeIndex) {
      n := 1;
      AfterFirst(s, writeIndex, m, 0);
      ResultAtOnce(s, cursor, writeIndex, st);
    } else {
      TurnKeeps(s, cursor, writeIndex, st);
      var rest := s[cursor..];
      var line, next := rest[..Run(rest, DELIMITERS)], cursor + LineLength(rest, DELIMITERS);
      var k := RunsToEnd(s, next, writeIndex, Step(st, line));
      n := k + 1;
      AfterFirst(s, writeIndex, m, k);
      if Step(st, line).OutOfRange? {
        ResultStuck(s, next, writeIndex, Step(st, line));
      }
    }
  }

  lemma TurnIs(s: seq<byte>, cursor: nat, writeIndex: nat, st: State)
    requires cursor <= |s|
    ensures var m, rest := Machine(cursor, st, false), s[cursor..];
      Turn(s, writeIndex, m) ==
        if st.OutOfRange? || EndsAtOnce(s, cursor, writeIndex) then Machine(Turn(s, writeIndex, m).cursor, st, true)
        else Machine(cursor + LineLength(rest, DELIMITERS), Step(st, rest[..Run(rest, DELIMITERS)]), false)
  {
    hide Step, Run, LineLength;
  }

  /** On a full buffer the result is what all its lines give. */
  lemma FullBuffer(s: seq<byte>, cursor: nat, remaining: nat, data: seq<byte>)
    requires cursor <= |s|
    ensures Result(s, cursor, |s|, Parsing(remaining, data, false)) == Parse(s[cursor..], remaining, data)
  {
    hide Step, Run, LineLength;
    var rest := s[cursor..];
    if EndsAtOnce(s, cursor, |s|) {
      assert rest[LineLength(rest, DELIMITERS)..] == [];
      NoLines(DELIMITERS);
      assert Lines(rest, DELIMITERS) == [];
    }
  }

  lemma ResultAtOnce(s: seq<byte>, cursor: nat, writeIndex: nat, st: State)
    requires cursor <= |s|
    ensures EndsAtOnce(s, cursor, writeIndex) ==> Result(s, cursor, writeIndex, st) == st
  {
  }

  lemma ResultStuck(s: seq<byte>, cursor: nat, writeIndex: nat, st: State)
    requires cursor <= |s| && st.OutOfRange?
    ensures Result(s, cursor, writeIndex, st) == st
  {
    FoldStuck(st, Lines(s[cursor..], DELIMITERS));
  }

  /** Still running after n turns, with no way to end. */
  ghost predicate Endless(s: seq<byte>, m: Machine, first: bool) {
    && m.cursor <= |s| && !m.halted && m.st.Parsing?
    && Fold(m.st, Lines(s[m.cursor..], DELIMITERS)).Parsing?
    && (first || m.cursor == |s| || 0 < Run(s[m.cursor..], DELIMITERS))
  }

  lemma {:induction false} NeverEnds(s: seq<byte>, cursor: nat, writeIndex: nat, st: State, n: nat)
    requires cursor <= |s| && st.Parsing? && !Halts(s, cursor, writeIndex, st)
    ensures Endless(s, After(s, writeIndex, Machine(cursor, st, false), n), n == 0)
  {
    hide Step, Run, LineLength, Lines;
    if n != 0 {
      NeverEnds(s, cursor, writeIndex, st, n - 1);
      var m := After(s, writeIndex, Machine(cursor, st, false), n - 1);
      TurnTakesLine(s, m.cursor, m.st);
      NothingLeft(s);
      var rest := s[m.cursor..];
      var line, next := rest[..Run(rest, DELIMITERS)], m.cursor + LineLength(rest, DELIMITERS);
      if Step(m.st, line).OutOfRange? {
        FoldStuck(Step(m.st, line), Lines(s[next..], DELIMITERS));
      }
    }
  }

  /** The loop ends, with the state that the lines give, exactly when Halts says so. */
  lemma Termination(s: seq<byte>, cursor: nat, writeIndex: nat, st: State)
    requires cursor <= |s| && st.Parsing?
    ensures (exists n: nat :: After(s, writeIndex, Machine(cursor, st, false), n).halted)
      <==> Halts(s, cursor, writeIndex, st)
    ensures forall n: nat :: After(s, writeIndex, Machine(cursor, st, false), n).halted ==>
      After(s, writeIndex, Machine(cursor, st, false), n).st == Result(s, cursor, writeIndex, st)
  {
    hide Halts, After, Result;
    var m := Machine(cursor, st, false);
    if Halts(s, cursor, writeIndex, st) {
      var n := RunsToEnd(s, cursor, writeIndex, st);
      forall k: nat | After(s, writeIndex, m, k).halted
        ensures After(s, writeIndex, m, k).st == Result(s, cursor, writeIndex, st)
      {
        StaysHalted(s, writeIndex, m, k, n);
        StaysHalted(s, writeIndex, m, n, k);
      }
    } else {
      forall n: nat
        ensures !After(s, writeIndex, m, n).halted
      {
        NeverEnds(s, cursor, writeIndex, st, n);
      }
    }
  }

  lemma {:induction false} StaysHalted(s: seq<byte>, writeIndex: nat, m: Machine, k: nat, n: nat)
    requires m.cursor <= |s| && After(s, writeIndex, m, k).halted
    ensures k <= n ==> After(s, writeIndex, m, n) == After(s, writeIndex, m, k)
  {
    hide Step, Run, LineLength;
    if k < n {
      StaysHalted(s, writeIndex, m, k, n - 1);
    }
  }

  /** The scan for a character that is no hexadecimal digit. */
  method IsSizeLine(line: seq<byte>) returns (yes: bool)
    ensures yes == AllHex(line)
  {
    yes := true;
    for k := 0 to |line|
      invariant yes && forall j :: 0 <= j < k ==> IsHexDigit(line[j])
    {
      if !IsHexDigit(line[k]) {
        yes := false;
        break;
      }
    }
  }

  /** The body of the loop for a nonempty line. */
  method TakeLine(st: State, line: seq<byte>) returns (next: State)
    requires st.Parsing? && line != []
    ensures next == Step(st, line)
  {
    if st.remaining == MAX_MSG_LENGTH {
      var sizeLine := IsSizeLine(line);
      if !sizeLine {
        return Parsing((st.remaining - |line|) % SIZE_MODULUS, st.data + line + CRLF, st.end);
      }
      if HexValue(line) >= SIZE_MODULUS {
        return OutOfRange(st.data);
      }
      return Parsing(HexValue(line), st.data, HexValue(line) == 0);
    }
    var left := (st.remaining - |line|) % SIZE_MODULUS;
    if left == 0 {
      left := MAX_MSG_LENGTH;
    }
    next := Parsing(left, st.data + line, st.end);
  }

  /** parseHttpFragment. */
  method ParseFragment(fragment: ByteBuffer, remaining: nat, data: seq<byte>) returns (st: State)
    requires fragment.Valid()
    requires Halts(fragment.Bytes(), fragment.readIndex, fragment.writeIndex, Parsing(remaining, data, false))
    modifies fragment`readIndex
    ensures fragment.Valid()
    ensures st == Result(fragment.Bytes(), old(fragment.readIndex), fragment.writeIndex,
      Parsing(remaining, data, false))
    ensures st.Parsing? ==> fragment.readIndex == fragment.writeIndex
  {
    hide Halts, Result, Step, Run, LineLength;
    ghost var s, w := fragment.Bytes(), fragment.writeIndex;
    st := Parsing(remaining, data, false);
    while true
      invariant fragment.Valid() && fragment.Bytes() == s && fragment.writeIndex == w && st.Parsing?
      invariant Halts(s, fragment.readIndex, w, st)
      invariant Result(s, fragment.readIndex, w, st)
        == Result(s, old(fragment.readIndex), w, Parsing(remaining, data, false))
      decreases fragment.buffer.Length - fragment.readIndex
    {
      ghost var cursor := fragment.readIndex;
      ResultAtOnce(s, cursor, w, st);
      var more, line := fragment.ReadLine(DELIMITERS);
      if !more && line == [] {
        break;
      }
      TurnKeeps(s, cursor, w, st);
      if line == [] {
        StepEmpty(st);
        continue;
      }
      ghost var before := st;
      st := TakeLine(st, line);
      if st.OutOfRange? {
        ResultStuck(s, fragment.readIndex, w, st);
        break;
      }
    }
  }

  lemma StepEmpty(st: State)
    ensures Step(st, []) == st
  {
  }
}
