/**
 parseHttpChunkedMessage: the start line and the header fields are read, and what
 follows is parsed as chunks.
 */
module HttpMessages {
  import opened Bytes
  import opened TextLines
  import opened ByteBuffers
  import opened HttpParser
  import opened ChunkedCoding

  const NEWLINE: seq<byte> := [0x0a]
  const COLON: byte := 0x3a

  type Meta = map<seq<byte>, seq<byte>>

  datatype Entry = NoColon | Entry(name: seq<byte>, value: seq<byte>) | OutsideLine

  function Upper(b: byte): byte { if 0x61 <= b <= 0x7a then b - 0x20 else b }

  function AllUpper(s: seq<byte>): (u: seq<byte>)
    ensures |u| == |s|
  {
    seq(|s|, k requires 0 <= k < |s| => Upper(s[k]))
  }

  /** Where the first colon is, or the length. */
  function ColonAt(line: seq<byte>): (n: nat)
    ensures n <= |line| && (n < |line| ==> line[n] == COLON)
    ensures forall k :: 0 <= k < n ==> line[k] != COLON
  {
    if line == [] || line[0] == COLON then 0 else 1 + ColonAt(line[1..])
  }

  /**
   What a header line adds: the name in upper case, and the text from the second place behind the colon to
   the last but one. A colon at the very end makes substr throw; one place before it, the count wraps.
   */
  function EntryOf(line: seq<byte>): Entry {
    var pos := ColonAt(line);
    if pos == |line| then NoColon
    else if pos + 2 > |line| then OutsideLine
    else Entry(AllUpper(line[..pos]), if pos + 2 == |line| then [] else line[pos + 2..|line| - 1])
  }

  /** emplace: a name that is there already keeps its value. */
  function Added(meta: Meta, e: Entry): Meta {
    if e.Entry? && e.name !in meta then meta[e.name := e.value] else meta
  }

  datatype Header = Header(meta: Meta, rest: seq<byte>, thrown: bool)

  /** The header lines, up to an empty one or one of a carriage return alone. */
  function ReadHeader(s: seq<byte>, meta: Meta): (h: Header)
    ensures |h.rest| <= |s|
    decreases |s|
  {
    var line, rest := s[..Run(s, NEWLINE)], s[LineLength(s, NEWLINE)..];
    if line == [] || line == [0x0d] then Header(meta, rest, false)
    else if EntryOf(line).OutsideLine? then Header(meta, rest, true)
    else ReadHeader(rest, Added(meta, EntryOf(line)))
  }

  /** The start line goes with every delimiter behind it. */
  function MessageHeader(s: seq<byte>): (h: Header)
    ensures |h.rest| <= |s|
  {
    ReadHeader(s[LineLength(s, DELIMITERS)..], map[])
  }

  /** The scan for a colon, and the entry that a line makes. */
  method MakeEntry(line: seq<byte>) returns (e: Entry)
    ensures e == EntryOf(line)
  {
    hide AllUpper;
    var pos := 0;
    while pos < |line| && line[pos] != COLON
      invariant 0 <= pos <= |line| && forall k :: 0 <= k < pos ==> line[k] != COLON
    {
      pos := pos + 1;
    }
    ColonIs(line, pos);
    if pos == |line| {
      return NoColon;
    }
    if pos + 2 > |line| {
      return OutsideLine;
    }
    e := Entry(AllUpper(line[..pos]), if pos + 2 == |line| then [] else line[pos + 2..|line| - 1]);
  }

  lemma ColonIs(line: seq<byte>, n: nat)
    requires n <= |line| && (forall k :: 0 <= k < n ==> line[k] != COLON) && (n < |line| ==> line[n] == COLON)
    ensures ColonAt(line) == n
  {
  }

  /** The header loop. */
  method ReadFields(msg: ByteBuffer) returns (meta: Meta, thrown: bool)
    requires msg.Valid()
    modifies msg`readIndex
    ensures msg.Valid()
    ensures var h := ReadHeader(msg.Bytes()[old(msg.readIndex)..], map[]);
      && meta == h.meta && thrown == h.thrown
      && msg.readIndex == |msg.Bytes()| - |h.rest| && msg.Bytes()[msg.readIndex..] == h.rest
  {
    hide Run, LineLength, EntryOf, Added;
    ghost var s, start := msg.Bytes(), msg.readIndex;
    meta, thrown := map[], false;
    while true
      invariant msg.Valid() && msg.Bytes() == s && !thrown
      invariant ReadHeader(s[msg.readIndex..], meta) == ReadHeader(s[start..], map[])
      decreases msg.buffer.Length - msg.readIndex
    {
      ghost var rest, at := s[msg.readIndex..], msg.readIndex;
      var more, line := msg.ReadLine(NEWLINE);
      assert s[msg.readIndex..] == rest[LineLength(rest, NEWLINE)..];
      if line == [] || line == [0x0d] {
        break;
      }
      var e := MakeEntry(line);
      if e.OutsideLine? {
        thrown := true;
        break;
      }
      meta := Added(meta, e);
    }
  }

  /** An exception of the header loop leaves the caller with no payload and no chunk open. */
  method ParseChunkedMessage(msg: ByteBuffer, data: seq<byte>)
    returns (header: seq<byte>, meta: Meta, thrown: bool, st: State)
    requires msg.Valid()
    requires msg.writeIndex != 0 ==>
      var s := msg.Bytes();
      var h := MessageHeader(s[msg.readIndex..]);
      !h.thrown ==> Halts(s, |s| - |h.rest|, msg.writeIndex, Parsing(MAX_MSG_LENGTH, data, false))
    modifies msg`readIndex
    ensures msg.Valid()
    ensures msg.writeIndex == 0 ==>
      header == [] && meta == map[] && !thrown && st == Parsing(MAX_MSG_LENGTH, data, true)
        && msg.readIndex == old(msg.readIndex)
    ensures msg.writeIndex != 0 ==>
      var s := msg.Bytes();
      var rest := s[old(msg.readIndex)..];
      var h := MessageHeader(rest);
      && header == rest[..Run(rest, DELIMITERS)] && meta == h.meta && thrown == h.thrown
      && (thrown ==> st == Parsing(MAX_MSG_LENGTH, data, false) && msg.readIndex == |s| - |h.rest|)
      && (!thrown ==> st == Result(s, |s| - |h.rest|, msg.writeIndex, Parsing(MAX_MSG_LENGTH, data, false)))
      && (!thrown && st.Parsing? ==> msg.readIndex == msg.writeIndex)
  {
    hide Run, LineLength, ReadHeader, Halts, Result;
    st := Parsing(MAX_MSG_LENGTH, data, true);
    if msg.writeIndex == 0 {
      return [], map[], false, st;
    }
    ghost var s, rest := msg.Bytes(), msg.Bytes()[msg.readIndex..];
    var more: bool;
    more, header := msg.ReadLine(DELIMITERS);
    assert s[msg.readIndex..] == rest[LineLength(rest, DELIMITERS)..];
    meta, thrown := ReadFields(msg);
    st := Parsing(MAX_MSG_LENGTH, data, false);
    if !thrown {
      st := ParseFragment(msg, MAX_MSG_LENGTH, data);
    }
  }

  predicate SoundField(f: seq<byte>) {
    f != [] && Free(f, NEWLINE)
  }

  predicate AllFields(fields: seq<seq<byte>>) {
    forall k :: 0 <= k < |fields| ==> SoundField(fields[k])
  }

  function Fields(fields: seq<seq<byte>>): seq<byte> {
    if fields == [] then CRLF else fields[0] + CRLF + Fields(fields[1..])
  }

  /** A name, a colon, one more octet, and the value. */
  function FieldEntry(f: seq<byte>): Entry {
    var pos := ColonAt(f);
    if pos == |f| then NoColon else Entry(AllUpper(f[..pos]), if pos + 2 <= |f| then f[pos + 2..] else [])
  }

  function MetaOf(fields: seq<seq<byte>>, meta: Meta): Meta
    decreases |fields|
  {
    if fields == [] then meta else MetaOf(fields[1..], Added(meta, FieldEntry(fields[0])))
  }

  /** With its carriage return a field never makes the loop throw, and its value is kept whole. */
  lemma FieldLine(f: seq<byte>)
    ensures EntryOf(f + [0x0d]) == FieldEntry(f)
  {
    var line, pos := f + [0x0d], ColonAt(f);
    hide AllUpper;
    if pos == |f| {
      ColonIs(line, |line|);
    } else {
      ColonIs(line, pos);
      assert line[..pos] == f[..pos];
      if pos + 2 <= |f| {
        assert line[pos + 2..|line| - 1] == f[pos + 2..];
      }
    }
  }

  /** "Host: a" with its carriage return is the field HOST with the value a. */
  lemma HostLine()
    ensures EntryOf([0x48, 0x6f, 0x73, 0x74, 0x3a, 0x20, 0x61, 0x0d]) == Entry([0x48, 0x4f, 0x53, 0x54], [0x61])
  {
    var line: seq<byte> := [0x48, 0x6f, 0x73, 0x74, 0x3a, 0x20, 0x61, 0x0d];
    ColonIs(line, 4);
    assert line[..4] == [0x48, 0x6f, 0x73, 0x74];
    assert AllUpper(line[..4]) == [0x48, 0x4f, 0x53, 0x54];
    assert line[6..7] == [0x61];
  }

  predicate Differs(e: Entry, name: seq<byte>) { e.Entry? ==> e.name != name }

  /** Of several fields of one name the first counts. */
  lemma {:induction false} FirstFieldCounts(fields: seq<seq<byte>>, meta: Meta, i: nat)
    requires i < |fields| && FieldEntry(fields[i]).Entry? && FieldEntry(fields[i]).name !in meta
    requires forall j :: 0 <= j < i ==> Differs(FieldEntry(fields[j]), FieldEntry(fields[i]).name)
    ensures var e := FieldEntry(fields[i]); e.name in MetaOf(fields, meta) && MetaOf(fields, meta)[e.name] == e.value
    decreases |fields|
  {
    hide FieldEntry;
    if i == 0 {
      EntriesStay(fields[1..], Added(meta, FieldEntry(fields[0])), FieldEntry(fields[0]).name);
    } else {
      assert Differs(FieldEntry(fields[0]), FieldEntry(fields[i]).name);
      FirstFieldCounts(fields[1..], Added(meta, FieldEntry(fields[0])), i - 1);
    }
  }

  lemma {:induction false} EntriesStay(fields: seq<seq<byte>>, meta: Meta, name: seq<byte>)
    requires name in meta
    ensures name in MetaOf(fields, meta) && MetaOf(fields, meta)[name] == meta[name]
    decreases |fields|
  {
    hide FieldEntry;
    if fields != [] {
      EntriesStay(fields[1..], Added(meta, FieldEntry(fields[0])), name);
    }
  }

  /** A line, its break and what follows, seen by a reader that stops at newlines. */
  lemma NewlineLine(x: seq<byte>, rest: seq<byte>)
    requires Free(x, NEWLINE) && (rest == [] || rest[0] != 0x0a)
    ensures var s := x + CRLF + rest;
      Run(s, NEWLINE) == |x| + 1 && s[..Run(s, NEWLINE)] == x + [0x0d] && s[LineLength(s, NEWLINE)..] == rest
  {
    var s := x + CRLF + rest;
    RunIs(s, NEWLINE, |x| + 1);
    GapIs(s[|x| + 1..], NEWLINE, 1);
  }

  /** One field is one turn of the header loop. */
  lemma FieldRead(f: seq<byte>, fields: seq<seq<byte>>, body: seq<byte>, meta: Meta)
    requires SoundField(f) && AllFields(fields) && (body == [] || body[0] != 0x0a)
    ensures ReadHeader(Fields([f] + fields) + body, meta)
      == ReadHeader(Fields(fields) + body, Added(meta, FieldEntry(f)))
  {
    hide Run, LineLength, EntryOf, Added;
    var rest := Fields(fields) + body;
    FieldsStart(fields, body);
    NewlineLine(f, rest);
    FieldLine(f);
    assert ([f] + fields)[1..] == fields;
    assert f + CRLF + rest == Fields([f] + fields) + body;
    assert (f + [0x0d])[0] == f[0] && |f + [0x0d]| > 1;
    NoThrow(f);
  }

  lemma NoThrow(f: seq<byte>)
    ensures !FieldEntry(f).OutsideLine?
  {
  }

  lemma FieldsStart(fields: seq<seq<byte>>, body: seq<byte>)
    requires AllFields(fields)
    ensures var w := Fields(fields) + body; w != [] && w[0] != 0x0a
  {
    if fields != [] {
      assert SoundField(fields[0]);
      assert (Fields(fields) + body)[0] == fields[0][0];
    }
  }

  /** Fields are collected, and the body is left. */
  lemma {:induction false} FieldsRead(fields: seq<seq<byte>>, body: seq<byte>, meta: Meta)
    requires AllFields(fields) && (body == [] || body[0] != 0x0a)
    ensures ReadHeader(Fields(fields) + body, meta) == Header(MetaOf(fields, meta), body, false)
    decreases |fields|
  {
    hide Run, LineLength, EntryOf, FieldEntry, Added;
    if fields == [] {
      NewlineLine([], body);
      assert [] + CRLF + body == Fields(fields) + body && [] + [0x0d] == [0x0d];
    } else {
      FieldsRead(fields[1..], body, Added(meta, FieldEntry(fields[0])));
      FieldRead(fields[0], fields[1..], body, meta);
      assert fields == [fields[0]] + fields[1..];
    }
  }

  predicate Blank(f: seq<byte>) {
    forall k :: 0 <= k < |f| ==> f[k] in DELIMITERS
  }

  /** The fields that are left when every delimiter in front is skipped. */
  function Unskipped(fields: seq<seq<byte>>): seq<seq<byte>> {
    if fields == [] then []
    else if Blank(fields[0]) then Unskipped(fields[1..])
    else [fields[0][Gap(fields[0], DELIMITERS)..]] + fields[1..]
  }

  lemma GapJoin(x: seq<byte>, y: seq<byte>)
    requires Blank(x)
    ensures Gap(x + y, DELIMITERS) == |x| + Gap(y, DELIMITERS)
  {
    var n := |x| + Gap(y, DELIMITERS);
    forall k | 0 <= k < n
      ensures (x + y)[k] in DELIMITERS
    {
      assert (x + y)[k] == if k < |x| then x[k] else y[k - |x|];
    }
    assert n < |x + y| ==> (x + y)[n] == y[n - |x|];
    GapIs(x + y, DELIMITERS, n);
  }

  /** Behind something that is no delimiter, nothing is skipped. */
  lemma GapInside(x: seq<byte>, y: seq<byte>)
    requires !Blank(x)
    ensures Gap(x, DELIMITERS) < |x| && Gap(x + y, DELIMITERS) == Gap(x, DELIMITERS)
    ensures (x + y)[Gap(x, DELIMITERS)..] == x[Gap(x, DELIMITERS)..] + y
  {
    var n := Gap(x, DELIMITERS);
    if n == |x| {
      BlankWhole(x);
    }
    forall k | 0 <= k < n
      ensures (x + y)[k] in DELIMITERS
    {
      assert (x + y)[k] == x[k];
    }
    GapIs(x + y, DELIMITERS, n);
  }

  lemma BlankWhole(x: seq<byte>)
    requires Gap(x, DELIMITERS) == |x|
    ensures Blank(x)
  {
  }

  lemma FieldsOf(f: seq<byte>, fields: seq<seq<byte>>, body: seq<byte>)
    ensures Fields([f] + fields) + body == f + (CRLF + (Fields(fields) + body))
  {
    assert ([f] + fields)[1..] == fields;
  }

  lemma SkipFirst(f: seq<byte>, fields: seq<seq<byte>>, body: seq<byte>)
    requires !Blank(f)
    ensures var w := Fields([f] + fields) + body;
      w[Gap(w, DELIMITERS)..] == Fields([f[Gap(f, DELIMITERS)..]] + fields) + body
  {
    hide Fields, Gap, Blank;
    FieldsOf(f, fields, body);
    GapInside(f, CRLF + (Fields(fields) + body));
    FieldsOf(f[Gap(f, DELIMITERS)..], fields, body);
  }

  lemma SkipBlank(f: seq<byte>, fields: seq<seq<byte>>, body: seq<byte>)
    requires Blank(f)
    ensures var w, rest := Fields([f] + fields) + body, Fields(fields) + body;
      w[Gap(w, DELIMITERS)..] == rest[Gap(rest, DELIMITERS)..]
  {
    hide Fields, Gap, Blank;
    var rest := Fields(fields) + body;
    FieldsOf(f, fields, body);
    GapJoin(f, CRLF + rest);
    BlankBreak();
    GapJoin(CRLF, rest);
    assert (f + (CRLF + rest))[|f| + (2 + Gap(rest, DELIMITERS))..] == rest[Gap(rest, DELIMITERS)..];
  }

  lemma BlankBreak()
    ensures Blank(CRLF)
  {
  }

  lemma SoundCut(f: seq<byte>, n: nat, fields: seq<seq<byte>>)
    requires SoundField(f) && AllFields(fields) && n < |f|
    ensures AllFields([f[n..]] + fields)
  {
  }

  /** Delimiters in front of fields: those of the first field with anything else in it are the last to be skipped. */
  lemma {:induction false} SkipInFields(fields: seq<seq<byte>>, body: seq<byte>)
    requires AllFields(fields) && body != [] && body[0] !in DELIMITERS
    ensures AllFields(Unskipped(fields))
    ensures var w := Fields(fields) + body;
      w[Gap(w, DELIMITERS)..] == (if Unskipped(fields) == [] then body else Fields(Unskipped(fields)) + body)
    ensures Unskipped(fields) == [] <==> forall k :: 0 <= k < |fields| ==> Blank(fields[k])
    decreases |fields|
  {
    hide Gap, Blank, SoundField;
    if fields == [] {
      GapIs(body, DELIMITERS, 0);
      BlankBreak();
      GapJoin(CRLF, body);
    } else {
      var f, tail := fields[0], fields[1..];
      hide Fields;
      assert fields == [f] + tail && SoundField(f);
      if Blank(f) {
        SkipInFields(tail, body);
        SkipBlank(f, tail, body);
      } else {
        GapInside(f, []);
        SoundCut(f, Gap(f, DELIMITERS), tail);
        SkipFirst(f, tail, body);
      }
    }
  }

  /** A start line takes every delimiter behind it with it. */
  lemma StartSkipped(start: seq<byte>, rest: seq<byte>)
    requires Free(start, DELIMITERS)
    ensures var s := start + CRLF + rest; s[LineLength(s, DELIMITERS)..] == rest[Gap(rest, DELIMITERS)..]
  {
    var s := start + CRLF + rest;
    RunIs(s, DELIMITERS, |start|);
    assert s[|start|..] == CRLF + rest;
    GapJoin(CRLF, rest);
  }

  lemma PrintedStarts(chunks: seq<Chunk>, last: seq<byte>)
    requires AllSound(chunks) && Spells(last, 0)
    ensures Printed(chunks, last) != [] && Printed(chunks, last)[0] !in DELIMITERS
  {
    if chunks != [] {
      HexIsFree(chunks[0].size);
    } else {
      HexIsFree(last);
    }
  }

  /** The chunks as lines of a header. */
  function ChunkLines(chunks: seq<Chunk>, last: seq<byte>): seq<seq<byte>> {
    if chunks == [] then [last] else [chunks[0].size, chunks[0].payload] + ChunkLines(chunks[1..], last)
  }

  lemma {:induction false} PrintedAsFields(chunks: seq<Chunk>, last: seq<byte>)
    requires AllSound(chunks) && Spells(last, 0)
    ensures Fields(ChunkLines(chunks, last)) == Printed(chunks, last)
    ensures AllFields(ChunkLines(chunks, last))
    decreases |chunks|
  {
    hide HexValue, IsHexDigit;
    if chunks == [] {
      HexIsFree(last);
      assert [last][1..] == [];
    } else {
      PrintedAsFields(chunks[1..], last);
      var c, rest := chunks[0], ChunkLines(chunks[1..], last);
      HexIsFree(c.size);
      var lines := [c.size, c.payload] + rest;
      assert lines[1..] == [c.payload] + rest && lines[1..][1..] == rest;
      assert Fields(lines) == c.size + CRLF + (c.payload + CRLF + Fields(rest));
      SoundLines(c, rest);
    }
  }

  lemma SoundLines(c: Chunk, rest: seq<seq<byte>>)
    requires Sound(c) && AllFields(rest)
    ensures AllFields([c.size, c.payload] + rest)
  {
    hide HexValue, IsHexDigit;
    HexIsFree(c.size);
  }

  /** A message: a start line, header fields, an empty line, and chunks. */
  function Message(start: seq<byte>, fields: seq<seq<byte>>, chunks: seq<Chunk>, last: seq<byte>): seq<byte> {
    start + CRLF + Fields(fields) + Printed(chunks, last)
  }

  lemma HeaderRead(start: seq<byte>, fields: seq<seq<byte>>, chunks: seq<Chunk>, last: seq<byte>)
    requires Free(start, DELIMITERS) && AllFields(fields) && AllSound(chunks) && Spells(last, 0)
    ensures MessageHeader(Message(start, fields, chunks, last)) ==
      if Unskipped(fields) == [] then Header(MetaOf(ChunkLines(chunks, last), map[]), [], false)
      else Header(MetaOf(Unskipped(fields), map[]), Printed(chunks, last), false)
  {
    hide Run, LineLength, ReadHeader, MetaOf, Sound, HexValue, Printed, Fields, Unskipped, Gap;
    var body, s := Printed(chunks, last), Message(start, fields, chunks, last);
    PrintedStarts(chunks, last);
    StartSkipped(start, Fields(fields) + body);
    assert start + CRLF + (Fields(fields) + body) == s;
    SkipInFields(fields, body);
    if Unskipped(fields) == [] {
      PrintedAsFields(chunks, last);
      FieldsRead(ChunkLines(chunks, last), [], map[]);
      assert body + [] == body;
    } else {
      FieldsRead(Unskipped(fields), body, map[]);
    }
  }

  /**
   The payload comes out exactly when some header field holds more than delimiters. Otherwise the start line takes
   the empty line with it, the chunks are taken for header fields, and no payload is found.
   */
  lemma WholeMessage(start: seq<byte>, fields: seq<seq<byte>>, chunks: seq<Chunk>, last: seq<byte>, data: seq<byte>)
    requires Free(start, DELIMITERS) && AllFields(fields) && AllSound(chunks) && Spells(last, 0)
    ensures !MessageHeader(Message(start, fields, chunks, last)).thrown
    ensures var st := Parse(MessageHeader(Message(start, fields, chunks, last)).rest, MAX_MSG_LENGTH, data);
      && (st == Parsing(0, data + Payload(chunks), true) <==> exists k :: 0 <= k < |fields| && !Blank(fields[k]))
      && (st == Parsing(MAX_MSG_LENGTH, data, false) <==> forall k :: 0 <= k < |fields| ==> Blank(fields[k]))
  {
    hide MessageHeader, Message, Lines, Sound, HexValue, Printed, Unskipped, MetaOf, Gap;
    PrintedStarts(chunks, last);
    SkipInFields(fields, Printed(chunks, last));
    HeaderRead(start, fields, chunks, last);
    if Unskipped(fields) == [] {
      NoLines(DELIMITERS);
    } else {
      ParseWhole(chunks, last, data);
    }
  }

  /** When the first field does not begin with a delimiter, the map holds the fields. */
  lemma MetaCollected(start: seq<byte>, fields: seq<seq<byte>>, chunks: seq<Chunk>, last: seq<byte>)
    requires Free(start, DELIMITERS) && AllFields(fields) && AllSound(chunks) && Spells(last, 0)
    requires fields != [] && SoundField(fields[0]) && fields[0][0] !in DELIMITERS
    ensures MessageHeader(Message(start, fields, chunks, last)).meta == MetaOf(fields, map[])
  {
    hide MessageHeader, Message, Sound, HexValue, Printed, MetaOf;
    HeaderRead(start, fields, chunks, last);
    GapIs(fields[0], DELIMITERS, 0);
    assert fields[0][0..] == fields[0] && [fields[0]] + fields[1..] == fields;
  }
}
