/**
 base64.cpp: both directions through buffer cursors and a 32-bit accumulator.
 */
module Base64Codec {
  import opened Bytes
  import opened ByteBuffers
  import opened Base64

  type accumulator = bv32

  function Packed(x: byte, y: byte, z: byte): accumulator {
    (x as bv32 << 16) | (y as bv32 << 8) | z as bv32
  }

  function Index1(t: accumulator): (v: byte) ensures v < 64 { ((t & 0x00fc_0000) >> 18) as byte }

  function Index2(t: accumulator): (v: byte) ensures v < 64 { ((t & 0x0003_f000) >> 12) as byte }

  function Index3(t: accumulator): (v: byte) ensures v < 64 { ((t & 0x0000_0fc0) >> 6) as byte }

  function Index4(t: accumulator): (v: byte) ensures v < 64 { (t & 0x0000_003f) as byte }

  lemma IndexesAre(x: byte, y: byte, z: byte)
    ensures var t := Packed(x, y, z); Index1(t) == Six1(x) && Index2(t) == Six2(x, y)
    ensures var t := Packed(x, y, z); Index3(t) == Six3(y, z) && Index4(t) == Six4(z)
  {
  }

  /** n octets one after the other, up to the first failure. */
  method ReadEach(input: ByteBuffer, n: nat) returns (ok: bool, data: seq<byte>)
    requires input.Valid()
    modifies input`readIndex
    ensures input.Valid() && ok == (old(input.readIndex) + n <= input.buffer.Length)
    ensures ok ==>
      input.readIndex == old(input.readIndex) + n && data == input.Bytes()[old(input.readIndex)..input.readIndex]
    ensures !ok ==> input.readIndex == input.buffer.Length
  {
    ok, data := true, [];
    for i := 0 to n
      invariant input.Valid() && ok && input.readIndex == old(input.readIndex) + i
      invariant data == input.Bytes()[old(input.readIndex)..input.readIndex]
    {
      var b: seq<byte>;
      ok, b := input.Read(1);
      if !ok {
        return;
      }
      data := data + b;
    }
  }

  /** Octets written one after the other where there is room. */
  method WriteEach(out: ByteBuffer, data: seq<byte>)
    requires out.Valid() && out.writeIndex + |data| <= out.buffer.Length
    modifies out`writeIndex, out.buffer
    ensures out.Valid() && out.writeIndex == old(out.writeIndex) + |data|
    ensures out.Bytes() == Written(old(out.Bytes()), old(out.writeIndex), data)
  {
    ghost var start, at := out.Bytes(), out.writeIndex;
    for i := 0 to |data|
      invariant out.Valid() && out.writeIndex == at + i
      invariant out.Bytes() == Written(start, at, data[..i])
    {
      var ok := out.Write(data[i]);
      WrittenOneMore(start, at, data, i);
    }
    assert data[..|data|] == data;
  }

  lemma WrittenOneMore(start: seq<byte>, at: nat, data: seq<byte>, i: nat)
    requires i < |data| && at + |data| <= |start|
    ensures Written(start, at, data[..i])[at + i := data[i]] == Written(start, at, data[..i + 1])
  {
  }

  /** The symbols of a packed group of n octets. */
  function Symbols(t: accumulator, n: nat): (s: seq<byte>)
    requires 1 <= n <= 3
    ensures |s| == 4
  {
    [
      Symbol(Index1(t)), Symbol(Index2(t)),
      if n < 2 then PAD else Symbol(Index3(t)), if n < 3 then PAD else Symbol(Index4(t))
    ]
  }

  lemma SymbolsAre(g: seq<byte>)
    requires 1 <= |g| <= 3
    ensures Symbols(Packed(g[0], if |g| < 2 then 0 else g[1], if |g| < 3 then 0 else g[2]), |g|) == Encoded(g)
  {
    hide Symbol, Six1, Six2, Six3, Six4, Index1, Index2, Index3, Index4, Packed, Encoded;
    IndexesAre(g[0], if |g| < 2 then 0 else g[1], if |g| < 3 then 0 else g[2]);
    EncodedShort(g, []);
    EncodedNone();
    assert g + [] == g;
  }

  /** One group of n octets read, packed and written as four characters; false when an octet is missing. */
  method EncodeGroup(input: ByteBuffer, out: ByteBuffer, n: nat) returns (ok: bool)
    requires 1 <= n <= 3 && input.Valid() && out.Valid() && input != out && input.buffer != out.buffer
    requires out.writeIndex + 4 <= out.buffer.Length
    modifies input`readIndex, out`writeIndex, out.buffer
    ensures input.Valid() && out.Valid() && ok == (old(input.readIndex) + n <= input.buffer.Length)
    ensures ok ==> input.readIndex == old(input.readIndex) + n && out.writeIndex == old(out.writeIndex) + 4
    ensures ok ==> |Encoded(input.Bytes()[old(input.readIndex)..input.readIndex])| == 4
    ensures ok ==> var group := Encoded(input.Bytes()[old(input.readIndex)..input.readIndex]);
      out.Bytes() == Written(old(out.Bytes()), old(out.writeIndex), group)
    ensures !ok ==> input.readIndex == input.buffer.Length
  {
    hide Symbols, Encoded, Packed;
    var g: seq<byte>;
    ok, g := ReadEach(input, n);
    if ok {
      var temp := Packed(g[0], if n < 2 then 0 else g[1], if n < 3 then 0 else g[2]);
      SymbolsAre(g);
      WriteEach(out, Symbols(temp, n));
    }
  }

  /** encryptBase64; from a read cursor that is not zero some octet is missing, and the result is empty. */
  method EncryptBase64(input: ByteBuffer) returns (out: ByteBuffer)
    requires input.Valid() && input.buffer.Length / 3 * 4 + 4 < 0x8000_0000_0000_0000
    modifies input`readIndex
    ensures input.Valid() && out.Valid() && fresh(out) && fresh(out.buffer) && out.readIndex == 0
    ensures input.readIndex == input.buffer.Length
    ensures out.Bytes() == if old(input.readIndex) == 0 then Encoded(input.Bytes()) else []
    ensures out.writeIndex == out.buffer.Length
  {
    hide Encoded, Written, EncodedSoFar;
    ghost var r, s := input.readIndex, input.Bytes();
    var size := input.buffer.Length;
    out := new ByteBuffer((size / 3 + if size % 3 > 0 then 1 else 0) * 4);
    NothingEncoded(out.Bytes(), s, r);
    for idx := 0 to size / 3
      invariant input.Valid() && out.Valid() && fresh(out) && fresh(out.buffer)
      invariant out.buffer.Length == (size / 3 + if size % 3 > 0 then 1 else 0) * 4 && out.readIndex == 0
      invariant input.readIndex == r + 3 * idx && out.writeIndex == 4 * idx
      invariant EncodedSoFar(out.Bytes(), s, r, 3 * idx, 4 * idx)
    {
      ghost var before := out.Bytes();
      var ok := EncodeGroup(input, out, 3);
      if !ok {
        out.Resize(0);
        return;
      }
      GroupAdded(before, s, r, 3 * idx, 3, 4 * idx);
    }
    if size % 3 != 0 {
      ghost var before := out.Bytes();
      var ok := EncodeGroup(input, out, size % 3);
      if !ok {
        out.Resize(0);
        return;
      }
      GroupAdded(before, s, r, size / 3 * 3, size % 3, size / 3 * 4);
    }
    AllEncoded(out.Bytes(), s, r, size);
  }

  /** The first octets of the output encode the first n octets from the cursor on. */
  ghost predicate EncodedSoFar(out: seq<byte>, s: seq<byte>, r: nat, n: nat, written: nat) {
    r + n <= |s| && written <= |out| && out[..written] == Encoded(s[r..r + n])
  }

  lemma NothingEncoded(out: seq<byte>, s: seq<byte>, r: nat)
    requires r <= |s|
    ensures EncodedSoFar(out, s, r, 0, 0)
  {
    EncodedNone();
  }

  lemma AllEncoded(out: seq<byte>, s: seq<byte>, r: nat, n: nat)
    requires EncodedSoFar(out, s, r, n, |out|) && r + n == |s| && n == |s|
    ensures out == Encoded(s)
  {
    assert s[0..|s|] == s && out[..|out|] == out;
  }

  lemma GroupAdded(out: seq<byte>, s: seq<byte>, r: nat, at: nat, n: nat, written: nat)
    requires EncodedSoFar(out, s, r, at, written) && r + at + n <= |s| && at % 3 == 0 && 1 <= n <= 3
      && written + 4 <= |out|
    ensures EncodedSoFar(Written(out, written, Encoded(s[r + at..r + at + n])), s, r, at + n, written + 4)
  {
    hide Encoded;
    EncodedAppend(s[r..r + at], s[r + at..r + at + n]);
    assert s[r..r + at] + s[r + at..r + at + n] == s[r..r + at + n];
  }

  /** One more group of six bits at the low end; what leaves at the high end is never used. */
  function Push(t: accumulator, v: byte): accumulator { (t << 6) | v as bv32 }

  function Octet16(t: accumulator): byte { ((t >> 16) & 0xff) as byte }

  function Octet10(t: accumulator): byte { ((t >> 10) & 0xff) as byte }

  function Octet8(t: accumulator): byte { ((t >> 8) & 0xff) as byte }

  function Octet0(t: accumulator): byte { (t & 0xff) as byte }

  /** Whatever the accumulator held before the group, its octets are those of the group. */
  lemma FullGroup(t: accumulator, a: byte, b: byte, c: byte, d: byte)
    requires a < 64 && b < 64 && c < 64 && d < 64
    ensures var p := Push(Push(Push(Push(t, a), b), c), d);
      Octet16(p) == Octet1(a, b) && Octet8(p) == Octet2(b, c) && Octet0(p) == Octet3(c, d)
  {
  }

  lemma TwoSymbolGroup(t: accumulator, a: byte, b: byte)
    requires a < 64 && b < 64
    ensures Octet10(Push(Push(Push(t, a), b), 0)) == Octet1(a, b)
  {
  }

  /** The accumulator after the first q characters of a group. */
  ghost function Pushed(t: accumulator, g: seq<byte>, q: nat): accumulator
    requires q <= |g| && forall j :: 0 <= j < q ==> IsSymbol(g[j])
  {
    if q == 0 then t else Push(Pushed(t, g, q - 1), Value(g[q - 1]))
  }

  lemma PushedOctets(t: accumulator, g: seq<byte>, n: nat)
    requires |g| == 4 && n == 4
    ensures (forall j :: 0 <= j < 4 ==> IsSymbol(g[j])) ==>
      var p := Pushed(t, g, n);
      GroupOctets(g, false) == Some([Octet16(p), Octet8(p), Octet0(p)])
    ensures (forall j :: 0 <= j < 3 ==> IsSymbol(g[j])) && g[3] == PAD ==>
      var p := Push(Pushed(t, g, n - 1), 0);
      GroupOctets(g, true) == Some([Octet16(p), Octet8(p)])
    ensures (forall j :: 0 <= j < 2 ==> IsSymbol(g[j])) && g[2] == PAD ==>
      var p := Push(Pushed(t, g, n - 2), 0);
      GroupOctets(g, true) == Some([Octet10(p)])
  {
    hide IsSymbol, Value, Octet1, Octet2, Octet3, Push, Octet16, Octet10, Octet8, Octet0;
    PadIsNoSymbol();
    if IsSymbol(g[0]) && IsSymbol(g[1]) {
      assert Pushed(t, g, n - 4) == t && Pushed(t, g, n - 3) == Push(t, Value(g[0]));
      assert Pushed(t, g, n - 2) == Push(Push(t, Value(g[0])), Value(g[1]));
      if g[2] == PAD {
        TwoSymbolGroup(t, Value(g[0]), Value(g[1]));
      } else if IsSymbol(g[2]) {
        assert Pushed(t, g, n - 1) == Push(Pushed(t, g, n - 2), Value(g[2]));
        if g[3] == PAD {
          FullGroup(t, Value(g[0]), Value(g[1]), Value(g[2]), 0);
        } else if IsSymbol(g[3]) {
          FullGroup(t, Value(g[0]), Value(g[1]), Value(g[2]), Value(g[3]));
        }
      }
    }
  }

  datatype Outcome = More | Finished | Refused

  /** A character that is no symbol, and no padding where padding may stand, ends the decoding. */
  lemma StopsAt(g: seq<byte>, q: nat, isLast: bool)
    requires |g| == 4 && q < 4 && (forall j :: 0 <= j < q ==> IsSymbol(g[j])) && !IsSymbol(g[q])
    requires g[q] != PAD || !isLast || q < 2
    ensures GroupOctets(g, isLast).None?
  {
    hide IsSymbol, Value, Octet1, Octet2, Octet3;
    PadIsNoSymbol();
    if q == 3 {
      assert IsSymbol(g[2]);
    }
  }

  /** The next four octets from a cursor on, with zeros behind the end. */
  ghost predicate Ahead(g: seq<byte>, s: seq<byte>, cursor: nat)
    requires |g| == 4
  {
    forall q :: 0 <= q < 4 ==> g[q] == if cursor + q < |s| then s[cursor + q] else 0
  }

  lemma AheadAt(g: seq<byte>, s: seq<byte>, cursor: nat, q: nat)
    requires |g| == 4 && q < 4 && Ahead(g, s, cursor)
    ensures if cursor + q < |s| then s[cursor + q..cursor + q + 1] == [g[q]] else g[q] == 0
  {
  }

  function Least(m: nat, n: nat): nat { if m <= n then m else n }

  /** The first character of a group that is no symbol is the last one read. */
  lemma TakenUpTo(g: seq<byte>, q: nat)
    requires |g| == 4 && q <= 4 && (forall j :: 0 <= j < q ==> IsSymbol(g[j])) && (q < 4 ==> !IsSymbol(g[q]))
    ensures GroupTaken(g) == if q < 4 then q + 1 else 4
  {
    hide IsSymbol;
    if 2 < q {
      assert IsSymbol(g[2]);
    }
  }

  /** The inner loop and the writes behind it: a group of four characters. */
  method TakeGroup(input: ByteBuffer, out: ByteBuffer, temp: accumulator, idx: nat, ghost g: seq<byte>)
    returns (newTemp: accumulator, outcome: Outcome)
    requires input.Valid() && out.Valid() && input != out && input.buffer != out.buffer
    requires idx + 4 <= input.buffer.Length && (input.buffer.Length - idx) % 4 == 0 && |g| == 4
    requires Ahead(g, input.Bytes(), input.readIndex)
    requires var d := GroupOctets(g, idx + 4 == input.buffer.Length);
      d.Some? ==> out.writeIndex + |d.value| <= out.buffer.Length
    modifies input`readIndex, out`writeIndex, out.buffer
    ensures input.Valid() && out.Valid()
    ensures var d := GroupOctets(g, idx + 4 == input.buffer.Length);
      if d.None? then outcome == Refused
      else
        && outcome == (if |d.value| == 3 then More else Finished)
        && out.writeIndex == old(out.writeIndex) + |d.value|
        && out.Bytes() == Written(old(out.Bytes()), old(out.writeIndex), d.value)
    ensures input.readIndex == Least(old(input.readIndex) + GroupTaken(g), input.buffer.Length)
  {
    hide IsSymbol, Value, Push, Octet16, Octet10, Octet8, Octet0, GroupOctets, GroupTaken, Written, Ahead;
    ghost var start, isLast, s := input.readIndex, idx + 4 == input.buffer.Length, input.Bytes();
    newTemp := temp;
    PadIsNoSymbol();
    ZeroIsNothing();
    PushedOctets(temp, g, 4);
    for q := 0 to 4
      invariant input.Valid() && out.Valid() && input.readIndex == start + q && input.Bytes() == s
      invariant out.writeIndex == old(out.writeIndex) && out.Bytes() == old(out.Bytes())
      invariant forall j :: 0 <= j < q ==> IsSymbol(g[j])
      invariant newTemp == Pushed(temp, g, q)
    {
      AheadAt(g, s, start, q);
      var ok, read := input.Read(1);
      if !ok {
        StopsAt(g, q, isLast);
        TakenUpTo(g, q);
        return newTemp, Refused;
      }
      var b := read[0];
      assert read == [g[q]];
      if IsSymbol(b) {
        assert IsSymbol(g[q]);
        newTemp := Push(newTemp, Value(b));
      } else if b == PAD {
        newTemp := Push(newTemp, 0);
        var left := input.buffer.Length - (idx + q);
        LeftIs(input.buffer.Length, idx, q);
        TakenUpTo(g, q);
        if left == 1 {
          WriteEach(out, [Octet16(newTemp), Octet8(newTemp)]);
          return newTemp, Finished;
        } else if left == 2 {
          WriteEach(out, [Octet10(newTemp)]);
          return newTemp, Finished;
        }
        StopsAt(g, q, isLast);
        return newTemp, Refused;
      } else {
        StopsAt(g, q, isLast);
        TakenUpTo(g, q);
        return newTemp, Refused;
      }
    }
    TakenUpTo(g, 4);
    NotPadded(g, isLast);
    WriteEach(out, [Octet16(newTemp), Octet8(newTemp), Octet0(newTemp)]);
    outcome := More;
  }

  lemma LeftIs(n: nat, idx: nat, q: nat)
    requires idx + 4 <= n && (n - idx) % 4 == 0 && q < 4
    ensures n - (idx + q) == 1 <==> idx + 4 == n && q == 3
    ensures n - (idx + q) == 2 <==> idx + 4 == n && q == 2
  {
  }

  lemma NotPadded(g: seq<byte>, isLast: bool)
    requires |g| == 4 && forall j :: 0 <= j < 4 ==> IsSymbol(g[j])
    ensures GroupOctets(g, isLast) == GroupOctets(g, false)
  {
    hide IsSymbol, Value, Octet1, Octet2, Octet3;
    PadIsNoSymbol();
    assert IsSymbol(g[2]) && IsSymbol(g[3]);
  }

  lemma TakenUnfolds(v: seq<byte>, idx: nat)
    requires |v| % 4 == 0 && idx % 4 == 0 && idx + 4 <= |v|
    ensures |v[idx..]| % 4 == 0 && |v[idx + 4..]| % 4 == 0
    ensures var d := GroupOctets(v[idx..idx + 4], idx + 4 == |v|);
      CharactersTaken(v[idx..])
        == if d.Some? && |d.value| == 3 then 4 + CharactersTaken(v[idx + 4..]) else GroupTaken(v[idx..idx + 4])
  {
    hide GroupOctets, GroupTaken;
    var rest := v[idx..];
    assert rest[..4] == v[idx..idx + 4] && rest[4..] == v[idx + 4..];
  }

  lemma NothingTaken(v: seq<byte>)
    requires |v| % 4 == 0
    ensures v[|v|..] == [] && CharactersTaken([]) == 0 && v[0..] == v
  {
  }

  /** done has been written, zeros are behind it, and what is left to read from idx on completes the result. */
  ghost predicate Decoding(v: seq<byte>, idx: nat, done: seq<byte>, out: seq<byte>) {
    && |v| % 4 == 0 && idx <= |v| && idx % 4 == 0
    && |done| == idx / 4 * 3 && |done| <= |out| && out == done + Zeros(|out| - |done|)
    && Read(v) == if Read(v[idx..]).None? then None else Some(done + Read(v[idx..]).value)
  }

  /** The result in a buffer of the counted size: empty where reading fails, and zeros behind what was read. */
  ghost predicate Complete(out: seq<byte>, v: seq<byte>, size: nat)
    requires |v| % 4 == 0
  {
    if Read(v).None? then out == []
    else |Read(v).value| <= size && out == Read(v).value + Zeros(size - |Read(v).value|)
  }

  lemma DecodingStart(v: seq<byte>, out: seq<byte>)
    requires |v| % 4 == 0 && out == Zeros(|out|)
    ensures Decoding(v, 0, [], out)
  {
    hide Read;
    assert v[0..] == v;
    if Read(v).Some? {
      assert [] + Read(v).value == Read(v).value;
    }
  }

  lemma ReadUnfolds(v: seq<byte>, idx: nat)
    requires |v| % 4 == 0 && idx % 4 == 0 && idx + 4 <= |v|
    ensures |v[idx..]| % 4 == 0 && |v[idx + 4..]| % 4 == 0
    ensures var d := GroupOctets(v[idx..idx + 4], idx + 4 == |v|);
      Read(v[idx..]) == if d.None? || Read(v[idx + 4..]).None? then None else Some(d.value + Read(v[idx + 4..]).value)
  {
    hide GroupOctets;
    var rest := v[idx..];
    assert rest[..4] == v[idx..idx + 4] && rest[4..] == v[idx + 4..];
  }

  lemma DecodingStep(v: seq<byte>, idx: nat, done: seq<byte>, out: seq<byte>, d: seq<byte>)
    requires Decoding(v, idx, done, out) && idx + 4 <= |v|
    requires GroupOctets(v[idx..idx + 4], idx + 4 == |v|) == Some(d) && |d| == 3 && |done| + 3 <= |out|
    ensures Decoding(v, idx + 4, done + d, Written(out, |done|, d))
  {
    hide GroupOctets, Read;
    ReadUnfolds(v, idx);
    var rest := Read(v[idx + 4..]);
    if rest.Some? {
      assert done + (d + rest.value) == done + d + rest.value;
    }
    WrittenBehind(done, |out|, d);
  }

  lemma WrittenBehind(done: seq<byte>, size: nat, d: seq<byte>)
    requires |done| + |d| <= size
    ensures Written(done + Zeros(size - |done|), |done|, d) == done + d + Zeros(size - |done| - |d|)
  {
    assert Zeros(size - |done|)[|d|..] == Zeros(size - |done| - |d|);
  }

  /** A short group ends the string and the result. */
  lemma DecodingFinish(v: seq<byte>, idx: nat, done: seq<byte>, out: seq<byte>, d: seq<byte>)
    requires Decoding(v, idx, done, out) && idx + 4 == |v|
    requires GroupOctets(v[idx..idx + 4], true) == Some(d) && |done| + |d| <= |out|
    ensures Complete(Written(out, |done|, d), v, |out|) && Read(v) == Some(done + d)
  {
    hide GroupOctets, Read;
    ReadUnfolds(v, idx);
    ReadNone();
    assert v[idx + 4..] == [] && d + [] == d;
    WrittenBehind(done, |out|, d);
  }

  lemma DecodingRefused(v: seq<byte>, idx: nat, done: seq<byte>, out: seq<byte>)
    requires Decoding(v, idx, done, out) && idx + 4 <= |v|
    requires GroupOctets(v[idx..idx + 4], idx + 4 == |v|).None?
    ensures Complete([], v, |out|) && Read(v).None?
  {
    hide GroupOctets, Read;
    ReadUnfolds(v, idx);
  }

  lemma DecodingEnd(v: seq<byte>, done: seq<byte>, out: seq<byte>)
    requires Decoding(v, |v|, done, out)
    ensures Complete(out, v, |out|) && Read(v) == Some(done)
  {
    hide Read;
    ReadNone();
    assert v[|v|..] == [] && done + [] == done;
  }

  /** The group at idx, octet by octet, from the read cursor. */
  lemma GroupAt(s: seq<byte>, r: nat, idx: nat)
    requires r <= |s| && idx + 4 <= |s|
    ensures Ahead(Rest(s, r)[idx..idx + 4], s, r + idx)
  {
  }

  /** Every group fits where the groups before it end. */
  lemma GroupFits(s: seq<byte>, r: nat, idx: nat)
    requires |s| % 4 == 0 && r <= |s| && idx % 4 == 0 && idx + 4 <= |s|
    ensures var d := GroupOctets(Rest(s, r)[idx..idx + 4], idx + 4 == |s|);
      d.Some? ==>
        && 1 <= |d.value| <= 3 && idx / 4 * 3 + |d.value| <= |s| / 4 * 3 - PaddingOf(s)
        && (|d.value| < 3 ==> idx + 4 == |s|)
  {
    hide Rest, PaddingOf, GroupOctets;
    var g := Rest(s, r)[idx..idx + 4];
    if idx + 4 == |s| {
      assert g == Rest(s, r)[|s| - 4..];
      LastGroupFits(s, r);
    } else {
      if GroupOctets(g, false).Some? {
        InnerGroup(g);
      }
      GroupsBefore(idx, |s|);
    }
  }

  lemma GroupsBefore(idx: nat, n: nat)
    requires idx % 4 == 0 && n % 4 == 0 && idx + 4 < n
    ensures idx / 4 * 3 + 3 <= n / 4 * 3 - 2
  {
    assert idx / 4 + 2 <= n / 4;
  }

  method CountPadding(input: ByteBuffer) returns (padding: nat)
    requires input.Valid() && 4 <= input.buffer.Length
    ensures padding == PaddingOf(input.Bytes())
  {
    padding := 0;
    if input.buffer[input.buffer.Length - 1] == PAD {
      padding := padding + 1;
    }
    if input.buffer[input.buffer.Length - 2] == PAD {
      padding := padding + 1;
    }
  }

  /** The cursors after decoding: the result's at its last octet, the input's behind the last character read. */
  ghost predicate CursorsEnd(s: seq<byte>, r: nat, written: nat, cursor: nat)
    requires r <= |s| && |s| % 4 == 0
  {
    && written == (if Read(Rest(s, r)).None? then 0 else |Read(Rest(s, r)).value|)
    && cursor == Least(r + CharactersTaken(Rest(s, r)), |s|)
  }

  /** decryptBase64: no write fails, and every refused input gives an empty buffer. */
  method DecryptBase64(input: ByteBuffer) returns (out: ByteBuffer)
    requires input.Valid() && input.buffer.Length / 4 * 3 < 0x8000_0000_0000_0000
    modifies input`readIndex
    ensures input.Valid() && out.Valid() && fresh(out) && fresh(out.buffer) && out.readIndex == 0
    ensures out.Bytes() == DecodedFrom(input.Bytes(), old(input.readIndex))
    ensures var s := input.Bytes();
      if |s| % 4 == 0 && s != [] then CursorsEnd(s, old(input.readIndex), out.writeIndex, input.readIndex)
      else out.writeIndex == 0 && input.readIndex == old(input.readIndex)
  {
    hide Read, PaddingOf, Rest, CursorsEnd;
    out := new ByteBuffer(0);
    var inputLen := input.buffer.Length;
    if inputLen % 4 != 0 || inputLen == 0 {
      return;
    }
    var padding := CountPadding(input);
    RoomForPadding(inputLen);
    out.Resize(inputLen / 4 * 3 - padding);
    DecodeGroups(input, out);
  }

  /** The loop over groups, into a zeroed buffer of the counted size. */
  method DecodeGroups(input: ByteBuffer, out: ByteBuffer)
    requires input.Valid() && out.Valid() && input != out && input.buffer != out.buffer
    requires input.buffer.Length % 4 == 0 && input.buffer.Length != 0 && out.readIndex == out.writeIndex == 0
    requires out.buffer.Length == input.buffer.Length / 4 * 3 - PaddingOf(input.Bytes())
      && out.Bytes() == Zeros(out.buffer.Length)
    modifies input`readIndex, out, out.buffer
    ensures input.Valid() && out.Valid() && out.readIndex == 0 && (out.buffer == old(out.buffer) || fresh(out.buffer))
    ensures Complete(out.Bytes(), Rest(input.Bytes(), old(input.readIndex)), old(out.buffer).Length)
    ensures CursorsEnd(input.Bytes(), old(input.readIndex), out.writeIndex, input.readIndex)
  {
    hide Read, PaddingOf, Rest, GroupOctets, Decoding, Written, Zeros, Complete, Ahead, GroupTaken, CharactersTaken;
    ghost var r, s := input.readIndex, input.Bytes();
    ghost var v, done := Rest(s, r), [];
    var inputLen := input.buffer.Length;
    DecodingStart(v, out.Bytes());
    NothingTaken(v);
    var temp: accumulator, idx := 0, 0;
    while idx != inputLen
      invariant idx % 4 == 0 && 0 <= idx <= inputLen
      invariant input.Valid() && input.readIndex == r + idx && input.Bytes() == s
      invariant out.Valid() && out.buffer == old(out.buffer) && out.readIndex == 0
      invariant out.writeIndex == idx / 4 * 3 == |done|
      invariant Decoding(v, idx, done, out.Bytes())
      invariant |v[idx..]| % 4 == 0 && CharactersTaken(v) == idx + CharactersTaken(v[idx..])
      decreases inputLen - idx
    {
      ghost var g, before := v[idx..idx + 4], out.Bytes();
      GroupAt(s, r, idx);
      GroupFits(s, r, idx);
      TakenUnfolds(v, idx);
      var outcome: Outcome;
      temp, outcome := TakeGroup(input, out, temp, idx, g);
      match outcome
      case Refused =>
        DecodingRefused(v, idx, done, before);
        out.Resize(0);
        return;
      case Finished =>
        DecodingFinish(v, idx, done, before, GroupOctets(g, true).value);
        return;
      case More =>
        ghost var d := GroupOctets(g, idx + 4 == inputLen).value;
        DecodingStep(v, idx, done, before, d);
        FullInside(s, r, idx);
        done := done + d;
        idx := idx + 4;
    }
    DecodingEnd(v, done, out.Bytes());
  }

  /** A full group lies inside the input. */
  lemma FullInside(s: seq<byte>, r: nat, idx: nat)
    requires r <= |s| && |s| % 4 == 0 && idx % 4 == 0 && idx + 4 <= |s|
    requires var d := GroupOctets(Rest(s, r)[idx..idx + 4], idx + 4 == |s|); d.Some? && |d.value| == 3
    ensures r + idx + 4 <= |s| && GroupTaken(Rest(s, r)[idx..idx + 4]) == 4
  {
    hide Value, Octet1, Octet2, Octet3, GroupTaken;
    var g := Rest(s, r)[idx..idx + 4];
    FullGroupTaken(g, idx + 4 == |s|);
    GroupAt(s, r, idx);
    ZeroIsNothing();
    LastSymbol(g, idx + 4 == |s|);
    AheadAt(g, s, r + idx, 3);
  }

  lemma LastSymbol(g: seq<byte>, isLast: bool)
    requires |g| == 4 && GroupOctets(g, isLast).Some? && |GroupOctets(g, isLast).value| == 3
    ensures IsSymbol(g[3])
  {
    hide IsSymbol, Value, Octet1, Octet2, Octet3;
  }

  lemma RoomForPadding(n: nat)
    requires n % 4 == 0 && 0 < n
    ensures 4 <= n && 3 <= n / 4 * 3
  {
  }
}
