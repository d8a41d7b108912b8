/**
 aes.hpp: the transformations in place on a 4 by 4 array stored row by row, the key
 schedule, and encryption and decryption of byte strings of any length.
 */
module Aes {
  import opened Bytes
  import opened ByteBuffers
  import opened AesTables
  import opened AesRounds

  method SubstituteInPlace(box: byte -> byte, state: array<byte>)
    requires state.Length == 16
    modifies state
    ensures forall k :: 0 <= k < 16 ==> state[k] == box(old(state[k]))
  {
    for k := 0 to 16
      invariant forall j :: 0 <= j < k ==> state[j] == box(old(state[j]))
      invariant forall j :: k <= j < 16 ==> state[j] == old(state[j])
    {
      state[k] := box(state[k]);
    }
  }

  /** A row read as a little-endian 32-bit word. */
  function RowWord(b0: byte, b1: byte, b2: byte, b3: byte): bv32 {
    b0 as bv32 | (b1 as bv32 << 8) | (b2 as bv32 << 16) | (b3 as bv32 << 24)
  }

  function WordByte(w: bv32, i: nat): byte
    requires i < 4
  {
    ((if i == 0 then w else if i == 1 then w >> 8 else if i == 2 then w >> 16 else w >> 24) & 0xff) as byte
  }

  function ShiftedRight(w: bv32): bv32 { w >> 8 }

  function ShiftedLeft(w: bv32): bv32 { w << 8 }

  lemma RightBytes(b0: byte, b1: byte, b2: byte, b3: byte)
    ensures var w := RowWord(b0, b1, b2, b3) >> 8;
      WordByte(w, 0) == b1 && WordByte(w, 1) == b2 && WordByte(w, 2) == b3
  {
  }

  lemma LeftBytes(b0: byte, b1: byte, b2: byte, b3: byte)
    ensures var w := RowWord(b0, b1, b2, b3) << 8;
      WordByte(w, 1) == b0 && WordByte(w, 2) == b1 && WordByte(w, 3) == b2
  {
  }

  lemma ShiftedWord(b0: byte, b1: byte, b2: byte, b3: byte)
    ensures var w := ShiftedRight(RowWord(b0, b1, b2, b3));
      WordByte(w, 0) == b1 && WordByte(w, 1) == b2 && WordByte(w, 2) == b3
    ensures var w := ShiftedLeft(RowWord(b0, b1, b2, b3));
      WordByte(w, 1) == b0 && WordByte(w, 2) == b1 && WordByte(w, 3) == b2
  {
    hide RowWord, WordByte;
    RightBytes(b0, b1, b2, b3);
    LeftBytes(b0, b1, b2, b3);
  }

  /** A word stored over four octets. */
  method StoreWord(state: array<byte>, at: nat, w: bv32)
    requires at + 4 <= state.Length
    modifies state
    ensures state[at] == WordByte(w, 0) && state[at + 1] == WordByte(w, 1)
    ensures state[at + 2] == WordByte(w, 2) && state[at + 3] == WordByte(w, 3)
    ensures forall k :: 0 <= k < at || at + 4 <= k < state.Length ==> state[k] == old(state[k])
  {
    hide WordByte;
    state[at] := WordByte(w, 0);
    state[at + 1] := WordByte(w, 1);
    state[at + 2] := WordByte(w, 2);
    state[at + 3] := WordByte(w, 3);
  }

  /** A right shift of the row's word, and the lowest byte put back on top: a rotation to the left. */
  method RotateRowLeft(state: array<byte>, at: nat)
    requires at + 4 <= state.Length
    modifies state
    ensures state[at] == old(state[at + 1]) && state[at + 1] == old(state[at + 2])
    ensures state[at + 2] == old(state[at + 3]) && state[at + 3] == old(state[at])
    ensures forall k :: 0 <= k < at || at + 4 <= k < state.Length ==> state[k] == old(state[k])
  {
    hide RowWord, WordByte, ShiftedRight, ShiftedLeft;
    var t := state[at];
    var w := RowWord(state[at], state[at + 1], state[at + 2], state[at + 3]);
    ShiftedWord(state[at], state[at + 1], state[at + 2], state[at + 3]);
    StoreWord(state, at, ShiftedRight(w));
    state[at + 3] := t;
  }

  method RotateRowRight(state: array<byte>, at: nat)
    requires at + 4 <= state.Length
    modifies state
    ensures state[at] == old(state[at + 3]) && state[at + 1] == old(state[at])
    ensures state[at + 2] == old(state[at + 1]) && state[at + 3] == old(state[at + 2])
    ensures forall k :: 0 <= k < at || at + 4 <= k < state.Length ==> state[k] == old(state[k])
  {
    hide RowWord, WordByte, ShiftedRight, ShiftedLeft;
    var t := state[at + 3];
    var w := RowWord(state[at], state[at + 1], state[at + 2], state[at + 3]);
    ShiftedWord(state[at], state[at + 1], state[at + 2], state[at + 3]);
    StoreWord(state, at, ShiftedLeft(w));
    state[at] := t;
  }

  method ShiftRowsInPlace(state: array<byte>)
    requires state.Length == 16
    modifies state
    ensures state[..] == ShiftRows(old(state[..]))
  {
    hide ShiftRows;
    ghost var shifted := ShiftRows(state[..]);
    RotatedRows(state[..]);
    RotateRowLeft(state, 4);
    state[8], state[10] := state[10], state[8];
    state[9], state[11] := state[11], state[9];
    RotateRowRight(state, 12);
    EntriesDetermine(state[..], shifted);
  }

  method InvShiftRowsInPlace(state: array<byte>)
    requires state.Length == 16
    modifies state
    ensures state[..] == InvShiftRows(old(state[..]))
  {
    hide InvShiftRows;
    ghost var shifted := InvShiftRows(state[..]);
    RotatedBack(state[..]);
    RotateRowRight(state, 4);
    state[8], state[10] := state[10], state[8];
    state[9], state[11] := state[11], state[9];
    RotateRowLeft(state, 12);
    EntriesDetermine(state[..], shifted);
  }

  method StoreColumn(state: array<byte>, c: nat, b: Column)
    requires state.Length == 16 && c < 4
    modifies state
    ensures ColumnOf(state[..], c) == b
    ensures forall j :: 0 <= j < 4 && j != c ==> ColumnOf(state[..], j) == old(ColumnOf(state[..], j))
  {
    state[c] := b.b0;
    state[4 + c] := b.b1;
    state[8 + c] := b.b2;
    state[12 + c] := b.b3;
  }

  method MixColumnsInPlace(state: array<byte>)
    requires state.Length == 16
    modifies state
    ensures state[..] == MixColumns(old(state[..]))
  {
    hide MixColumn, MixColumns;
    ghost var s: block := state[..];
    for c := 0 to 4
      invariant forall j :: 0 <= j < c ==> ColumnOf(state[..], j) == MixColumn(ColumnOf(s, j))
      invariant forall j :: c <= j < 4 ==> ColumnOf(state[..], j) == ColumnOf(s, j)
    {
      var a := Column(state[c], state[4 + c], state[8 + c], state[12 + c]);
      assert a == ColumnOf(state[..], c);
      StoreColumn(state, c, MixColumn(a));
    }
    forall c | 0 <= c < 4
      ensures ColumnOf(state[..], c) == ColumnOf(MixColumns(s), c)
    {
      ColumnOfMixed(s, c);
    }
    ColumnsDetermine(state[..], MixColumns(s));
  }

  method InvMixColumnsInPlace(state: array<byte>)
    requires state.Length == 16
    modifies state
    ensures state[..] == InvMixColumns(old(state[..]))
  {
    hide InvMixColumn, InvMixColumns;
    ghost var s: block := state[..];
    for c := 0 to 4
      invariant forall j :: 0 <= j < c ==> ColumnOf(state[..], j) == InvMixColumn(ColumnOf(s, j))
      invariant forall j :: c <= j < 4 ==> ColumnOf(state[..], j) == ColumnOf(s, j)
    {
      var a := Column(state[c], state[4 + c], state[8 + c], state[12 + c]);
      assert a == ColumnOf(state[..], c);
      StoreColumn(state, c, InvMixColumn(a));
    }
    forall c | 0 <= c < 4
      ensures ColumnOf(state[..], c) == ColumnOf(InvMixColumns(s), c)
    {
      ColumnOfMixed(s, c);
    }
    ColumnsDetermine(state[..], InvMixColumns(s));
  }

  method ApplySubKey(key: block, state: array<byte>)
    requires state.Length == 16
    modifies state
    ensures state[..] == AddRoundKey(key, old(state[..]))
  {
    ghost var sum := AddRoundKey(key, state[..]);
    for k := 0 to 16
      invariant forall j :: 0 <= j < k ==> state[j] == sum[j]
      invariant forall j :: k <= j < 16 ==> state[j] == old(state[j])
    {
      assert Transposed(key)[k] == key[k % 4 * 4 + k / 4];
      assert sum[k] == old(state[..])[k] ^ Transposed(key)[k];
      state[k] := state[k] ^ key[k % 4 * 4 + k / 4];
    }
  }

  method DoRoundKeyEncode(key: block, state: array<byte>, final: bool)
    requires state.Length == 16
    modifies state
    ensures state[..] == EncodeRound(key, old(state[..]), final)
  {
    hide SBox, ShiftRows, MixColumns, AddRoundKey;
    SubstituteInPlace(SBox, state);
    assert state[..] == SubBytes(old(state[..]));
    ShiftRowsInPlace(state);
    if !final {
      MixColumnsInPlace(state);
    }
    ApplySubKey(key, state);
  }

  method DoRoundKeyDecode(key: block, state: array<byte>, final: bool)
    requires state.Length == 16
    modifies state
    ensures state[..] == DecodeRound(key, old(state[..]), final)
  {
    hide IBox, InvShiftRows, InvMixColumns, AddRoundKey;
    InvShiftRowsInPlace(state);
    SubstituteInPlace(IBox, state);
    assert state[..] == InvSubBytes(InvShiftRows(old(state[..])));
    ApplySubKey(key, state);
    if !final {
      InvMixColumnsInPlace(state);
    }
  }

  /** writeBlock: at most 16 octets into a state, column by column; the other entries stay. */
  method WriteBlock(data: seq<byte>, state: array<byte>)
    requires state.Length == 16
    modifies state
    ensures forall k :: 0 <= k < 16 ==> state[Cell(k)] == if k < |data| then data[k] else old(state[Cell(k)])
    ensures |data| == 16 ==> state[..] == Transposed(data)
  {
    hide Cell, Transposed;
    var size := if |data| > 16 then 16 else |data|;
    for k := 0 to size
      invariant forall j :: 0 <= j < 16 ==> state[Cell(j)] == if j < k then data[j] else old(state[Cell(j)])
    {
      ghost var before := state[..];
      state[Cell(k)] := data[k];
      forall j | 0 <= j < 16
        ensures state[Cell(j)] == if j < k + 1 then data[j] else old(state[Cell(j)])
      {
        CellTwice(j);
        CellTwice(k);
        assert before[Cell(j)] == if j < k then data[j] else old(state[Cell(j)]);
      }
    }
    if |data| == 16 {
      CellsDetermine(state[..], data);
    }
  }

  lemma CellsDetermine(s: block, data: block)
    requires forall k :: 0 <= k < 16 ==> s[Cell(k)] == data[k]
    ensures s == Transposed(data)
  {
    hide Cell;
    forall k | 0 <= k < 16
      ensures s[k] == data[Cell(k)]
    {
      CellTwice(k);
    }
  }

  /** readBlock: the first size octets of a state, read column by column, at most 16. */
  method ReadBlock(state: array<byte>, out: array<byte>, at: nat, size: nat)
    requires state.Length == 16 && out != state
    requires at + (if size > 16 then 16 else size) <= out.Length
    modifies out
    ensures var n := if size > 16 then 16 else size;
      out[..] == old(out[..])[..at] + Transposed(state[..])[..n] + old(out[..])[at + n..]
  {
    hide Cell;
    var n := if size > 16 then 16 else size;
    for k := 0 to n
      invariant forall j :: 0 <= j < k ==> out[at + j] == state[Cell(j)]
      invariant forall j :: 0 <= j < at || at + k <= j < out.Length ==> out[j] == old(out[j])
    {
      out[at + k] := state[Cell(k)];
    }
  }

  /** One octet block through the cipher: in by columns, the rounds, out by columns. */
  function EncryptOctets(keys: seq<block>, data: block): block
    requires 1 < |keys|
  {
    Transposed(EncryptState(keys, Transposed(data)))
  }

  function DecryptOctets(keys: seq<block>, data: block): block
    requires 1 < |keys|
  {
    Transposed(DecryptState(keys, Transposed(data)))
  }

  lemma OctetsRoundTrip(keys: seq<block>, data: block)
    requires 1 < |keys|
    ensures DecryptOctets(keys, EncryptOctets(keys, data)) == data
  {
    hide Transposed;
    TransposedTwice(EncryptState(keys, Transposed(data)));
    TransposedTwice(data);
    StateRoundTrip(keys, Transposed(data));
  }

  method EncodeRounds(keys: seq<block>, state: array<byte>)
    requires state.Length == 16 && 1 < |keys|
    modifies state
    ensures state[..] == EncryptState(keys, old(state[..]))
  {
    hide AddRoundKey, EncodeRound;
    ghost var s: block := state[..];
    ApplySubKey(keys[0], state);
    for round := 1 to |keys| - 1
      invariant state[..] == Encoded(keys, s, round - 1)
    {
      DoRoundKeyEncode(keys[round], state, false);
    }
    DoRoundKeyEncode(keys[|keys| - 1], state, true);
  }

  method DecodeRounds(keys: seq<block>, state: array<byte>)
    requires state.Length == 16 && 1 < |keys|
    modifies state
    ensures state[..] == DecryptState(keys, old(state[..]))
  {
    hide AddRoundKey, DecodeRound;
    ghost var s: block := state[..];
    ApplySubKey(keys[|keys| - 1], state);
    for round := |keys| - 1 downto 1
      invariant state[..] == Decoded(keys, s, round)
    {
      DoRoundKeyDecode(keys[round], state, false);
    }
    DoRoundKeyDecode(keys[0], state, true);
  }

  /** One group of 16 octets through the cipher, written to the output. */
  method EncryptGroup(keys: seq<block>, data: block, out: array<byte>, at: nat)
    requires 1 < |keys| && at + 16 <= out.Length
    modifies out
    ensures out[..] == old(out[..])[..at] + EncryptOctets(keys, data) + old(out[..])[at + 16..]
  {
    hide Transposed, EncryptState;
    var state := new byte[16];
    WriteBlock(data, state);
    EncodeRounds(keys, state);
    ReadBlock(state, out, at, 16);
  }

  method DecryptGroup(keys: seq<block>, data: block, out: array<byte>, at: nat, size: nat)
    requires 1 < |keys| && size <= 16 && at + size <= out.Length
    modifies out
    ensures out[..] == old(out[..])[..at] + DecryptOctets(keys, data)[..size] + old(out[..])[at + size..]
  {
    hide Transposed, DecryptState;
    var state := new byte[16];
    WriteBlock(data, state);
    DecodeRounds(keys, state);
    ReadBlock(state, out, at, size);
  }
}
