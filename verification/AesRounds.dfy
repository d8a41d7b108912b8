/**
 The AES block cipher (section 5 of FIPS 197) on a state of four rows, as values: the
 four transformations, their inverses, and the rounds that undo each other.
 */
module AesRounds {
  import opened Bytes
  import opened AesTables

  // In a state, entry (r, c) is at index 4 * r + c.

  function SubBytes(s: block): block { seq(16, k requires 0 <= k < 16 => SBox(s[k])) }

  function InvSubBytes(s: block): block { seq(16, k requires 0 <= k < 16 => IBox(s[k])) }

  /** Row r rotated left by r. */
  function ShiftRows(s: block): block {
    seq(16, k requires 0 <= k < 16 => s[k / 4 * 4 + (k % 4 + k / 4) % 4])
  }

  function InvShiftRows(s: block): block {
    seq(16, k requires 0 <= k < 16 => s[k / 4 * 4 + (k % 4 + 4 - k / 4) % 4])
  }

  lemma RotatedRows(s: block)
    ensures var r := ShiftRows(s); r[0] == s[0] && r[1] == s[1] && r[2] == s[2] && r[3] == s[3]
    ensures var r := ShiftRows(s); r[4] == s[5] && r[5] == s[6] && r[6] == s[7] && r[7] == s[4]
    ensures var r := ShiftRows(s); r[8] == s[10] && r[9] == s[11] && r[10] == s[8] && r[11] == s[9]
    ensures var r := ShiftRows(s); r[12] == s[15] && r[13] == s[12] && r[14] == s[13] && r[15] == s[14]
  {
  }

  lemma RotatedBack(s: block)
    ensures var r := InvShiftRows(s); r[0] == s[0] && r[1] == s[1] && r[2] == s[2] && r[3] == s[3]
    ensures var r := InvShiftRows(s); r[4] == s[7] && r[5] == s[4] && r[6] == s[5] && r[7] == s[6]
    ensures var r := InvShiftRows(s); r[8] == s[10] && r[9] == s[11] && r[10] == s[8] && r[11] == s[9]
    ensures var r := InvShiftRows(s); r[12] == s[13] && r[13] == s[14] && r[14] == s[15] && r[15] == s[12]
  {
  }

  lemma EntriesDetermine(a: block, b: block)
    requires a[0] == b[0] && a[1] == b[1] && a[2] == b[2] && a[3] == b[3]
    requires a[4] == b[4] && a[5] == b[5] && a[6] == b[6] && a[7] == b[7]
    requires a[8] == b[8] && a[9] == b[9] && a[10] == b[10] && a[11] == b[11]
    requires a[12] == b[12] && a[13] == b[13] && a[14] == b[14] && a[15] == b[15]
    ensures a == b
  {
  }

  function ColumnOf(s: block, c: nat): Column
    requires c < 4
  {
    Column(s[c], s[4 + c], s[8 + c], s[12 + c])
  }

  function Entry(a: Column, r: nat): byte {
    if r == 0 then a.b0 else if r == 1 then a.b1 else if r == 2 then a.b2 else a.b3
  }

  function MixColumns(s: block): block {
    seq(16, k requires 0 <= k < 16 => Entry(MixColumn(ColumnOf(s, k % 4)), k / 4))
  }

  function InvMixColumns(s: block): block {
    seq(16, k requires 0 <= k < 16 => Entry(InvMixColumn(ColumnOf(s, k % 4)), k / 4))
  }

  /** Row k % 4, column k / 4 of a state stored row by row. */
  function Cell(k: nat): (c: nat)
    requires k < 16
    ensures c < 16
  {
    k % 4 * 4 + k / 4
  }

  lemma CellTwice(k: nat)
    requires k < 16
    ensures Cell(Cell(k)) == k
  {
  }

  /** Rows and columns exchanged: octets fill the state column by column. */
  function Transposed(s: block): block {
    seq(16, k requires 0 <= k < 16 => s[Cell(k)])
  }

  function AddRoundKey(key: block, s: block): block {
    seq(16, k requires 0 <= k < 16 => s[k] ^ Transposed(key)[k])
  }

  lemma TransposedTwice(s: block)
    ensures Transposed(Transposed(s)) == s
  {
    hide Cell;
    forall k | 0 <= k < 16
      ensures Transposed(Transposed(s))[k] == s[k]
    {
      CellTwice(k);
    }
  }

  lemma SubBytesInverts(s: block)
    ensures InvSubBytes(SubBytes(s)) == s
  {
    hide SBox, IBox;
    forall k | 0 <= k < 16
      ensures InvSubBytes(SubBytes(s))[k] == s[k]
    {
      BoxesInvert(s[k]);
    }
  }

  lemma ShiftRowsInverts(s: block)
    ensures InvShiftRows(ShiftRows(s)) == s
  {
  }

  lemma ColumnOfMixed(s: block, c: nat)
    requires c < 4
    ensures ColumnOf(MixColumns(s), c) == MixColumn(ColumnOf(s, c))
    ensures ColumnOf(InvMixColumns(s), c) == InvMixColumn(ColumnOf(s, c))
  {
    hide MixColumn, InvMixColumn;
  }

  lemma ColumnsDetermine(s: block, t: block)
    requires forall c :: 0 <= c < 4 ==> ColumnOf(s, c) == ColumnOf(t, c)
    ensures s == t
  {
    assert ColumnOf(s, 0) == ColumnOf(t, 0) && ColumnOf(s, 1) == ColumnOf(t, 1);
    assert ColumnOf(s, 2) == ColumnOf(t, 2) && ColumnOf(s, 3) == ColumnOf(t, 3);
    forall k | 0 <= k < 16
      ensures s[k] == t[k]
    {
    }
  }

  lemma MixColumnsInverts(s: block)
    ensures InvMixColumns(MixColumns(s)) == s
  {
    hide MixColumns, InvMixColumns, ColumnOf;
    forall c | 0 <= c < 4
      ensures ColumnOf(InvMixColumns(MixColumns(s)), c) == ColumnOf(s, c)
    {
      MixColumnInverts(ColumnOf(s, c));
      ColumnOfMixed(s, c);
      ColumnOfMixed(MixColumns(s), c);
    }
    ColumnsDetermine(InvMixColumns(MixColumns(s)), s);
  }

  lemma AddRoundKeyInverts(key: block, s: block)
    ensures AddRoundKey(key, AddRoundKey(key, s)) == s
  {
    hide Transposed;
    forall k | 0 <= k < 16
      ensures AddRoundKey(key, AddRoundKey(key, s))[k] == s[k]
    {
      XorTwice(s[k], Transposed(key)[k]);
    }
  }

  lemma XorTwice(a: byte, b: byte)
    ensures (a ^ b) ^ b == a
  {
  }

  function EncodeRound(key: block, s: block, final: bool): block {
    var t := ShiftRows(SubBytes(s));
    AddRoundKey(key, if final then t else MixColumns(t))
  }

  function DecodeRound(key: block, s: block, final: bool): block {
    var t := AddRoundKey(key, InvSubBytes(InvShiftRows(s)));
    if final then t else InvMixColumns(t)
  }

  /** The state after the first key and rounds 1 to n. */
  function Encoded(keys: seq<block>, s: block, n: nat): block
    requires n < |keys|
  {
    if n == 0 then AddRoundKey(keys[0], s)
    else EncodeRound(keys[n], Encoded(keys, s, n - 1), n == |keys| - 1)
  }

  /** The state after the last key and the inverse rounds |keys| - 2 down to n. */
  function Decoded(keys: seq<block>, s: block, n: nat): block
    requires n < |keys|
    decreases |keys| - n
  {
    if n == |keys| - 1 then AddRoundKey(keys[n], s)
    else DecodeRound(keys[n], Decoded(keys, s, n + 1), n == 0)
  }

  function EncryptState(keys: seq<block>, s: block): block
    requires 1 < |keys|
  {
    Encoded(keys, s, |keys| - 1)
  }

  function DecryptState(keys: seq<block>, s: block): block
    requires 1 < |keys|
  {
    Decoded(keys, s, 0)
  }

  /** Before inverse round n, the states meet: what remains to undo is ShiftRows after SubBytes. */
  lemma {:induction false} RoundsMeet(keys: seq<block>, s: block, n: nat)
    requires 0 < n < |keys|
    ensures Decoded(keys, EncryptState(keys, s), n) == ShiftRows(SubBytes(Encoded(keys, s, n - 1)))
    decreases |keys| - n
  {
    hide AddRoundKey, ShiftRows, SubBytes, InvSubBytes, InvShiftRows, MixColumns, InvMixColumns;
    if n == |keys| - 1 {
      AddRoundKeyInverts(keys[n], ShiftRows(SubBytes(Encoded(keys, s, n - 1))));
    } else {
      RoundsMeet(keys, s, n + 1);
      var e := Encoded(keys, s, n);
      var t := ShiftRows(SubBytes(Encoded(keys, s, n - 1)));
      ShiftRowsInverts(SubBytes(e));
      SubBytesInverts(e);
      AddRoundKeyInverts(keys[n], MixColumns(t));
      MixColumnsInverts(t);
    }
  }

  /** Decryption undoes encryption under any list of at least two round keys. */
  lemma StateRoundTrip(keys: seq<block>, s: block)
    requires 1 < |keys|
    ensures DecryptState(keys, EncryptState(keys, s)) == s
  {
    hide AddRoundKey, ShiftRows, SubBytes, InvSubBytes, InvShiftRows, MixColumns, InvMixColumns;
    RoundsMeet(keys, s, 1);
    var e := Encoded(keys, s, 0);
    ShiftRowsInverts(SubBytes(e));
    SubBytesInverts(e);
    AddRoundKeyInverts(keys[0], s);
  }
}
