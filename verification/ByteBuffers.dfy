/**
 ByteBuffer: an owned block of bytes with a read cursor and a write cursor. Reads run up
 to the allocated size, not up to the write cursor.
 */
module ByteBuffers {
  import opened Bytes
  import opened TextLines

  /** size_t arithmetic wraps. */
  const SIZE_MODULUS: nat := 0x1_0000_0000_0000_0000

  /** The octets after data has been written over them from offset at on. */
  function Written(octets: seq<byte>, at: nat, data: seq<byte>): (r: seq<byte>)
    requires at + |data| <= |octets|
    ensures |r| == |octets|
  {
    octets[..at] + data + octets[at + |data|..]
  }

  /** Two strings written one after the other fill a block of their size. */
  lemma WrittenTwice(a: seq<byte>, b: seq<byte>)
    ensures Written(Written(Zeros(|a| + |b|), 0, a), |a|, b) == a + b
  {
    assert Written(Zeros(|a| + |b|), 0, a)[..|a|] == a;
  }

  /** A part of a line and then some delimiters have been read. */
  ghost predicate PartRead(s: seq<byte>, part: seq<byte>, trailed: nat, d: seq<byte>) {
    && |part| + trailed <= |s| && part == s[..|part|] && Free(part, d)
    && forall k :: |part| <= k < |part| + trailed ==> s[k] in d
  }

  lemma NothingRead(s: seq<byte>, d: seq<byte>)
    ensures PartRead(s, [], 0, d)
  {
  }

  lemma OctetRead(s: seq<byte>, part: seq<byte>, trailed: nat, d: seq<byte>)
    requires PartRead(s, part, trailed, d) && |part| + trailed < |s|
    ensures var b := s[|part| + trailed];
      if b in d then PartRead(s, part, trailed + 1, d) else trailed == 0 ==> PartRead(s, part + [b], 0, d)
  {
  }

  lemma LineEnds(s: seq<byte>, part: seq<byte>, trailed: nat, d: seq<byte>)
    requires PartRead(s, part, trailed, d)
    requires var n := |part| + trailed; n < |s| ==> trailed != 0 && s[n] !in d
    ensures Run(s, d) == |part| && LineLength(s, d) == |part| + trailed && s[..Run(s, d)] == part
  {
    var n := |part|;
    forall k | 0 <= k < n
      ensures s[k] !in d
    {
      assert s[k] == part[k];
    }
    RunIs(s, d, n);
    GapIs(s[n..], d, trailed);
  }

  lemma SuffixAt(s: seq<byte>, start: nat, k: nat)
    requires start + k < |s|
    ensures s[start..][k] == s[start + k] && s[start + k..start + k + 1] == [s[start + k]]
  {
  }

  class ByteBuffer {
    var buffer: array<byte>
    var readIndex: nat
    var writeIndex: nat

    /** Both cursors stay inside the block, and the block is small enough for a pointer difference. */
    ghost predicate Valid()
      reads this
    {
      && readIndex <= buffer.Length
      && writeIndex <= buffer.Length
      && buffer.Length < 0x8000_0000_0000_0000
    }

    ghost function Bytes(): (s: seq<byte>)
      reads this, buffer
    {
      buffer[..]
    }

    constructor (size: nat)
      requires size < 0x8000_0000_0000_0000
      ensures Valid() && fresh(buffer)
      ensures Bytes() == Zeros(size) && readIndex == writeIndex == 0
    {
      buffer := new byte[size](i => 0);
      readIndex, writeIndex := 0, 0;
    }

    /** A full copy of an array. */
    constructor Copy(data: seq<byte>)
      requires |data| < 0x8000_0000_0000_0000
      ensures Valid() && fresh(buffer)
      ensures Bytes() == data && readIndex == 0 && writeIndex == |data|
    {
      buffer := new byte[|data|](i requires 0 <= i < |data| => data[i]);
      readIndex, writeIndex := 0, |data|;
    }

    method ResetRead()
      requires Valid()
      modifies this`readIndex
      ensures Valid() && readIndex == 0
    {
      readIndex := 0;
    }

    method Clear()
      requires Valid()
      modifies this`readIndex, this`writeIndex, buffer
      ensures Valid() && Bytes() == Zeros(buffer.Length) && readIndex == writeIndex == 0
    {
      for i := 0 to buffer.Length
        invariant forall k :: 0 <= k < i ==> buffer[k] == 0
      {
        buffer[i] := 0;
      }
      readIndex, writeIndex := 0, 0;
    }

    /** A new zeroed block; what was in the buffer is gone. */
    method Resize(size: nat)
      requires size < 0x8000_0000_0000_0000
      modifies this
      ensures Valid() && fresh(buffer) && Bytes() == Zeros(size) && readIndex == writeIndex == 0
    {
      readIndex, writeIndex := 0, 0;
      buffer := new byte[size](i => 0);
    }

    /** The cursor sum wraps, so a huge count moves the write cursor backwards. */
    method SkipWrite(n: nat) returns (ok: bool)
      requires Valid() && n < SIZE_MODULUS
      modifies this`writeIndex
      ensures Valid()
      ensures ok == ((old(writeIndex) + n) % SIZE_MODULUS <= buffer.Length)
      ensures writeIndex == if ok then (old(writeIndex) + n) % SIZE_MODULUS else old(writeIndex)
    {
      ok := (writeIndex + n) % SIZE_MODULUS <= buffer.Length;
      if ok {
        writeIndex := (writeIndex + n) % SIZE_MODULUS;
      }
    }

    method WriteArray(data: seq<byte>) returns (ok: bool)
      requires Valid() && writeIndex + |data| < SIZE_MODULUS
      modifies this`writeIndex, buffer
      ensures Valid()
      ensures ok == (old(writeIndex) + |data| <= buffer.Length)
      ensures ok ==> writeIndex == old(writeIndex) + |data|
      ensures ok ==> Bytes() == Written(old(Bytes()), old(writeIndex), data)
      ensures !ok ==> writeIndex == old(writeIndex) && Bytes() == old(Bytes())
    {
      ok := writeIndex + |data| <= buffer.Length;
      if ok {
        var start := writeIndex;
        for i := 0 to |data|
          invariant writeIndex == start
          invariant forall k :: 0 <= k < i ==> buffer[start + k] == data[k]
          invariant forall k :: 0 <= k < start || start + i <= k < buffer.Length ==> buffer[k] == old(buffer[k])
        {
          buffer[start + i] := data[i];
        }
        writeIndex := start + |data|;
      }
    }

    method Write(b: byte) returns (ok: bool)
      requires Valid()
      modifies this`writeIndex, buffer
      ensures Valid()
      ensures ok == (old(writeIndex) < buffer.Length)
      ensures ok ==> writeIndex == old(writeIndex) + 1 && Bytes() == old(Bytes())[old(writeIndex) := b]
      ensures !ok ==> writeIndex == old(writeIndex) && Bytes() == old(Bytes())
    {
      ok := writeIndex < buffer.Length;
      if ok {
        buffer[writeIndex] := b;
        writeIndex := writeIndex + 1;
      }
    }

    /** Reading leaves the cursor alone when too few bytes are left. */
    method Read(n: nat) returns (ok: bool, data: seq<byte>)
      requires Valid() && readIndex + n < SIZE_MODULUS
      modifies this`readIndex
      ensures Valid()
      ensures ok == (old(readIndex) + n <= buffer.Length)
      ensures ok ==> readIndex == old(readIndex) + n && data == Bytes()[old(readIndex)..readIndex]
      ensures !ok ==> readIndex == old(readIndex) && data == []
    {
      ok := readIndex + n <= buffer.Length;
      data := [];
      if ok {
        data := buffer[readIndex..readIndex + n];
        readIndex := readIndex + n;
      }
    }

    /** A new full buffer of the octets read, or an empty one. */
    method ReadSlice(n: nat) returns (slice: ByteBuffer)
      requires Valid() && readIndex + n < SIZE_MODULUS
      modifies this`readIndex
      ensures Valid() && slice.Valid() && fresh(slice) && fresh(slice.buffer)
      ensures slice.readIndex == 0 && slice.writeIndex == slice.buffer.Length
      ensures slice.Bytes()
        == if old(readIndex) + n <= buffer.Length then Bytes()[old(readIndex)..old(readIndex) + n] else []
      ensures readIndex == if old(readIndex) + n <= buffer.Length then old(readIndex) + n else old(readIndex)
    {
      if readIndex + n > buffer.Length {
        slice := new ByteBuffer(0);
        return;
      }
      slice := new ByteBuffer.Copy(buffer[readIndex..readIndex + n]);
      readIndex := readIndex + n;
    }

    /**
     Moves n bytes from this read cursor to the other buffer's write cursor, or nothing at all. Inside one
     buffer the two stretches may not overlap, as memcpy demands.
     */
    method ReadToBuffer(other: ByteBuffer, n: nat) returns (ok: bool)
      requires Valid() && other.Valid() && (other == this || other.buffer != buffer)
      requires readIndex + n < SIZE_MODULUS && other.writeIndex + n < SIZE_MODULUS
      requires other == this
        ==> readIndex + n <= writeIndex || writeIndex + n <= readIndex || readIndex + n > buffer.Length
      modifies this`readIndex, other`writeIndex, other.buffer
      ensures Valid() && other.Valid()
      ensures ok == (old(readIndex) + n <= buffer.Length && old(other.writeIndex) + n <= other.buffer.Length)
      ensures ok ==> readIndex == old(readIndex) + n && other.writeIndex == old(other.writeIndex) + n
      ensures ok ==>
        other.Bytes() == Written(old(other.Bytes()), old(other.writeIndex), old(Bytes()[readIndex..readIndex + n]))
      ensures !ok ==> readIndex == old(readIndex) && other.writeIndex == old(other.writeIndex)
      ensures !ok ==> other.Bytes() == old(other.Bytes())
    {
      if readIndex + n > buffer.Length || other.writeIndex + n > other.buffer.Length {
        return false;
      }
      var data: seq<byte>;
      ok, data := Read(n);
      ok := other.WriteArray(data);
    }

    /** One octet goes to the cache, which goes to the line when it is full. */
    method Collect(b: byte, cache: array<byte>, index: nat, line: seq<byte>) returns (newIndex: nat, newLine: seq<byte>)
      requires cache.Length == 64 && index < 64 && cache != buffer
      modifies cache
      ensures newIndex < 64 && newLine + cache[..newIndex] == line + old(cache[..index]) + [b]
    {
      cache[index] := b;
      newIndex, newLine := index + 1, line;
      if newIndex == 64 {
        newLine := newLine + cache[..];
        newIndex := 0;
      }
    }

    /**
     readLine: the next run without delimiters, with the delimiters behind it; is anything left
     before the write cursor?
     */
    method ReadLine(delimiters: seq<byte>) returns (more: bool, line: seq<byte>)
      requires Valid()
      modifies this`readIndex
      ensures Valid()
      ensures var s := Bytes()[old(readIndex)..];
        line == s[..Run(s, delimiters)] && readIndex == old(readIndex) + LineLength(s, delimiters)
      ensures more == (writeIndex != readIndex)
    {
      hide Run, LineLength, PartRead;
      ghost var start, s := readIndex, Bytes()[readIndex..];
      var cache := new byte[64];
      var index: nat, trailed: nat := 0, 0;
      line := [];
      NothingRead(s, delimiters);
      assert line + cache[..index] == [];
      while true
        invariant Valid() && index < 64 && fresh(cache) && Bytes() == old(Bytes())
        invariant readIndex == start + |line| + index + trailed
        invariant PartRead(s, line + cache[..index], trailed, delimiters)
        decreases buffer.Length - readIndex
      {
        var ok, data := Read(1);
        if !ok {
          break;
        }
        var b := data[0];
        SuffixAt(Bytes(), start, |line| + index + trailed);
        OctetRead(s, line + cache[..index], trailed, delimiters);
        if b in delimiters {
          trailed := trailed + 1;
        } else {
          if trailed != 0 {
            readIndex := readIndex - 1;
            break;
          }
          index, line := Collect(b, cache, index, line);
        }
      }
      line := line + cache[..index];
      LineEnds(s, line, trailed, delimiters);
      more := writeIndex != readIndex;
    }

    /**
     operator+: both buffers whole, one after the other, both read cursors at their ends. A buffer added to
     itself has a single read cursor, so nothing is left for the second copy, and zeros stay in its place.
     */
    method Plus(other: ByteBuffer) returns (sum: ByteBuffer)
      requires Valid() && other.Valid()
      requires buffer.Length + other.buffer.Length < 0x8000_0000_0000_0000
      modifies this`readIndex, other`readIndex
      ensures Valid() && other.Valid() && sum.Valid() && fresh(sum) && fresh(sum.buffer)
      ensures sum.Bytes() == Bytes() + (if other == this then Zeros(buffer.Length) else other.Bytes())
      ensures sum.readIndex == 0
      ensures sum.writeIndex == if other == this then buffer.Length else sum.buffer.Length
      ensures readIndex == buffer.Length && other.readIndex == other.buffer.Length
    {
      hide Written;
      ResetRead();
      other.ResetRead();
      sum := new ByteBuffer(buffer.Length + other.buffer.Length);
      var ok := ReadToBuffer(sum, buffer.Length);
      ghost var once := sum.Bytes();
      ok := other.ReadToBuffer(sum, other.buffer.Length);
      assert Bytes()[0..buffer.Length] == Bytes() && other.Bytes()[0..other.buffer.Length] == other.Bytes();
      WrittenTwice(Bytes(), other.Bytes());
      WrittenOnce(Bytes(), other.buffer.Length);
      if other == this && buffer.Length == 0 {
        assert sum.Bytes() == [];
      }
    }
  }

  /** Octets written to the start of a zeroed block leave zeros behind them. */
  lemma WrittenOnce(a: seq<byte>, n: nat)
    ensures Written(Zeros(|a| + n), 0, a) == a + Zeros(n)
  {
  }

  /** A sum of two buffers is their concatenation, except that a nonzero buffer is not doubled. */
  lemma PlusConcatenates(a: seq<byte>, b: seq<byte>, same: bool)
    requires same ==> a == b
    ensures a + (if same then Zeros(|a|) else b) == a + b <==> !same || a == Zeros(|a|)
  {
    var z := if same then Zeros(|a|) else b;
    assert (a + z)[|a|..] == z && (a + b)[|a|..] == b;
  }
}
