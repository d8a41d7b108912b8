/**
 The key of zeros in the first test cases of the GCM specification: its round keys, and three
 blocks of AES-128, round by round.
 */
module AesExample {
  import opened Bytes
  import opened AesTables
  import opened AesRounds
  import opened AesKeys
  import opened Aes
  import A = AesBuffers

  // A round by columns, as octet strings enter the state.

  datatype Columns = Columns(c0: Column, c1: Column, c2: Column, c3: Column)

  function ColumnsOf(s: block): Columns {
    Columns(ColumnOf(s, 0), ColumnOf(s, 1), ColumnOf(s, 2), ColumnOf(s, 3))
  }

  function Substituted(a: Column): Column { Column(SBox(a.b0), SBox(a.b1), SBox(a.b2), SBox(a.b3)) }

  function PlusColumn(a: Column, b: Column): Column {
    Column(Plus(a.b0, b.b0), Plus(a.b1, b.b1), Plus(a.b2, b.b2), Plus(a.b3, b.b3))
  }

  /** The octets that ShiftRows brings to each column. */
  function Shifted(s: Columns): Columns {
    Columns(
      Column(s.c0.b0, s.c1.b1, s.c2.b2, s.c3.b3),
      Column(s.c1.b0, s.c2.b1, s.c3.b2, s.c0.b3),
      Column(s.c2.b0, s.c3.b1, s.c0.b2, s.c1.b3),
      Column(s.c3.b0, s.c0.b1, s.c1.b2, s.c2.b3))
  }

  /** A column of the next state. */
  function Turned(a: Column, key: Column, final: bool): Column {
    PlusColumn(if final then Substituted(a) else MixColumn(Substituted(a)), key)
  }

  function RoundOf(s: Columns, key: Columns, final: bool): Columns {
    var t := Shifted(s);
    Columns(
      Turned(t.c0, key.c0, final), Turned(t.c1, key.c1, final),
      Turned(t.c2, key.c2, final), Turned(t.c3, key.c3, final))
  }

  function WordColumns(key: block): Columns {
    Columns(
      Column(key[0], key[1], key[2], key[3]), Column(key[4], key[5], key[6], key[7]),
      Column(key[8], key[9], key[10], key[11]), Column(key[12], key[13], key[14], key[15]))
  }

  /** Octets fill the columns of the state one after the other. */
  lemma TransposedColumns(s: block)
    ensures ColumnsOf(Transposed(s)) == WordColumns(s) && WordColumns(Transposed(s)) == ColumnsOf(s)
  {
  }

  lemma ShiftedColumns(s: block)
    ensures ColumnsOf(ShiftRows(SubBytes(s))) == (var t := Shifted(ColumnsOf(s));
      Columns(Substituted(t.c0), Substituted(t.c1), Substituted(t.c2), Substituted(t.c3)))
  {
    hide SBox;
    RotatedRows(SubBytes(s));
  }

  lemma AddedColumns(key: block, s: block)
    ensures ColumnsOf(AddRoundKey(key, s)) == (var t, k := ColumnsOf(s), WordColumns(key);
      Columns(PlusColumn(t.c0, k.c0), PlusColumn(t.c1, k.c1), PlusColumn(t.c2, k.c2), PlusColumn(t.c3, k.c3)))
  {
    hide Transposed, Plus, AddRoundKey;
    TransposedColumns(key);
    AddedEntries(key, s);
  }

  lemma AddedEntries(key: block, s: block)
    ensures forall k :: 0 <= k < 16 ==> AddRoundKey(key, s)[k] == Plus(s[k], Transposed(key)[k])
  {
    hide Transposed;
  }

  /** A round of the cipher, column by column. */
  lemma RoundByColumns(key: block, s: block, final: bool)
    ensures ColumnsOf(EncodeRound(key, s, final)) == RoundOf(ColumnsOf(s), WordColumns(key), final)
  {
    hide ShiftRows, SubBytes, MixColumns, AddRoundKey, Substituted, PlusColumn, MixColumn, ColumnOf;
    var t := ShiftRows(SubBytes(s));
    ShiftedColumns(s);
    AddedColumns(key, if final then t else MixColumns(t));
    if !final {
      ColumnOfMixed(t, 0);
      ColumnOfMixed(t, 1);
      ColumnOfMixed(t, 2);
      ColumnOfMixed(t, 3);
    }
  }

  /** A state or a key by its octets, column after column. */
  function Cols(b0: byte, b1: byte, b2: byte, b3: byte, b4: byte, b5: byte, b6: byte, b7: byte,
      b8: byte, b9: byte, ba: byte, bb: byte, bc: byte, bd: byte, be: byte, bf: byte): Columns
  {
    Columns(Column(b0, b1, b2, b3), Column(b4, b5, b6, b7), Column(b8, b9, ba, bb), Column(bc, bd, be, bf))
  }

  // The key schedule, one round key after the other.

  /** The last word of a round key, rotated, substituted, and with the round constant. */
  function Core(t: Column, c: byte): Column {
    PlusColumn(Column(SBox(t.b1), SBox(t.b2), SBox(t.b3), SBox(t.b0)), Column(c, 0, 0, 0))
  }

  lemma CoreFrom(t: Column, c: byte, s: Column, core: Column)
    requires Substituted(Column(t.b1, t.b2, t.b3, t.b0)) == s
    requires PlusColumn(s, Column(c, 0, 0, 0)) == core
    ensures Core(t, c) == core
  {
    hide SBox, PlusColumn;
  }

  function NextKey(k: Columns, c: byte): Columns {
    var w0 := PlusColumn(k.c0, Core(k.c3, c));
    var w1 := PlusColumn(k.c1, w0);
    var w2 := PlusColumn(k.c2, w1);
    Columns(w0, w1, w2, PlusColumn(k.c3, w2))
  }

  lemma KeyStep(k: Columns, c: byte, core: Column, next: Columns)
    requires Core(k.c3, c) == core && PlusColumn(k.c0, core) == next.c0
    requires PlusColumn(k.c1, next.c0) == next.c1 && PlusColumn(k.c2, next.c1) == next.c2
    requires PlusColumn(k.c3, next.c2) == next.c3
    ensures NextKey(k, c) == next
  {
    hide Core, PlusColumn;
  }

  function WordColumn(w: seq<byte>): Column
    requires |w| == 4
  {
    Column(w[0], w[1], w[2], w[3])
  }

  ghost function KeyColumns(key: seq<byte>, k: nat): Columns
    requires |key| == 16
  {
    WordColumns(RoundKey(key, 4, k))
  }

  lemma SumOfColumns(v: seq<byte>, w: seq<byte>)
    requires |v| == |w| == 4
    ensures WordColumn(SumOfWords(v, w)) == PlusColumn(WordColumn(v), WordColumn(w))
  {
    hide Plus;
  }

  lemma CoreIs(t: seq<byte>, i: nat)
    requires |t| == 4 && i % 4 == 0
    ensures WordColumn(Mixed(t, 4, i)) == Core(WordColumn(t), RoundConstant(i / 4))
  {
    hide SBox, Plus, RoundConstant, SumOfWords;
    SumOfColumns(SubWord(RotWord(t)), [RoundConstant(i / 4), 0, 0, 0]);
  }

  lemma KeyColumnsAre(key: seq<byte>, k: nat)
    requires |key| == 16
    ensures KeyColumns(key, k) == Columns(WordColumn(KeyWord(key, 4, 4 * k)), WordColumn(KeyWord(key, 4, 4 * k + 1)),
      WordColumn(KeyWord(key, 4, 4 * k + 2)), WordColumn(KeyWord(key, 4, 4 * k + 3)))
  {
    hide KeyWord;
  }

  /** For keys of four words, a round key comes from the one before it. */
  lemma NextKeyIs(key: seq<byte>, k: nat)
    requires |key| == 16
    ensures KeyColumns(key, k + 1) == NextKey(KeyColumns(key, k), RoundConstant(k + 1))
  {
    hide SBox, RoundConstant, SumOfWords, Mixed, KeyColumns, PlusColumn, Core, KeyWord, WordColumn;
    KeyColumnsAre(key, k);
    KeyColumnsAre(key, k + 1);
    var i := 4 * k + 4;
    assert 4 * (k + 1) == i && i / 4 == k + 1;
    CoreIs(KeyWord(key, 4, i - 1), i);
    NextWordIs(key, i);
    NextWordIs(key, i + 1);
    NextWordIs(key, i + 2);
    NextWordIs(key, i + 3);
    NotMixed(KeyWord(key, 4, i), i + 1);
    NotMixed(KeyWord(key, 4, i + 1), i + 2);
    NotMixed(KeyWord(key, 4, i + 2), i + 3);
  }

  lemma NotMixed(t: seq<byte>, i: nat)
    requires |t| == 4 && i % 4 != 0
    ensures Mixed(t, 4, i) == t
  {
  }

  lemma NextWordIs(key: seq<byte>, i: nat)
    requires |key| == 16 && 4 <= i
    ensures WordColumn(KeyWord(key, 4, i))
      == PlusColumn(WordColumn(KeyWord(key, 4, i - 4)), WordColumn(Mixed(KeyWord(key, 4, i - 1), 4, i)))
  {
    hide SumOfWords, Mixed, PlusColumn;
    SumOfColumns(KeyWord(key, 4, i - 4), Mixed(KeyWord(key, 4, i - 1), 4, i));
  }

  lemma BoxValues1()
    ensures Substituted(Column(0x00, 0x00, 0x00, 0x00)) == Column(0x63, 0x63, 0x63, 0x63)
  {
  }

  lemma CoreValue1()
    ensures Core(Column(0x00, 0x00, 0x00, 0x00), 0x01) == Column(0x62, 0x63, 0x63, 0x63)
  {
    hide Core, Substituted;
    BoxValues1();
    CoreFrom(Column(0x00, 0x00, 0x00, 0x00), 0x01,
      Column(0x63, 0x63, 0x63, 0x63), Column(0x62, 0x63, 0x63, 0x63));
  }

  lemma KeyValue1()
    ensures NextKey(
      Cols(0x00, 0x00, 0x00, 0x00, 0x00, 0x00, 0x00, 0x00, 0x00, 0x00, 0x00, 0x00, 0x00, 0x00, 0x00, 0x00), 0x01) ==
      Cols(0x62, 0x63, 0x63, 0x63, 0x62, 0x63, 0x63, 0x63, 0x62, 0x63, 0x63, 0x63, 0x62, 0x63, 0x63, 0x63)
  {
    hide NextKey, Core;
    CoreValue1();
    KeyStep(Cols(0x00, 0x00, 0x00, 0x00, 0x00, 0x00, 0x00, 0x00, 0x00, 0x00, 0x00, 0x00, 0x00, 0x00, 0x00, 0x00),
      0x01, Column(0x62, 0x63, 0x63, 0x63),
      Cols(0x62, 0x63, 0x63, 0x63, 0x62, 0x63, 0x63, 0x63, 0x62, 0x63, 0x63, 0x63, 0x62, 0x63, 0x63, 0x63));
  }

  lemma BoxValues2()
    ensures Substituted(Column(0x63, 0x63, 0x63, 0x62)) == Column(0xfb, 0xfb, 0xfb, 0xaa)
  {
  }

  lemma CoreValue2()
    ensures Core(Column(0x62, 0x63, 0x63, 0x63), 0x02) == Column(0xf9, 0xfb, 0xfb, 0xaa)
  {
    hide Core, Substituted;
    BoxValues2();
    CoreFrom(Column(0x62, 0x63, 0x63, 0x63), 0x02,
      Column(0xfb, 0xfb, 0xfb, 0xaa), Column(0xf9, 0xfb, 0xfb, 0xaa));
  }

  lemma KeyValue2()
    ensures NextKey(
      Cols(0x62, 0x63, 0x63, 0x63, 0x62, 0x63, 0x63, 0x63, 0x62, 0x63, 0x63, 0x63, 0x62, 0x63, 0x63, 0x63), 0x02) ==
      Cols(0x9b, 0x98, 0x98, 0xc9, 0xf9, 0xfb, 0xfb, 0xaa, 0x9b, 0x98, 0x98, 0xc9, 0xf9, 0xfb, 0xfb, 0xaa)
  {
    hide NextKey, Core;
    CoreValue2();
    KeyStep(Cols(0x62, 0x63, 0x63, 0x63, 0x62, 0x63, 0x63, 0x63, 0x62, 0x63, 0x63, 0x63, 0x62, 0x63, 0x63, 0x63),
      0x02, Column(0xf9, 0xfb, 0xfb, 0xaa),
      Cols(0x9b, 0x98, 0x98, 0xc9, 0xf9, 0xfb, 0xfb, 0xaa, 0x9b, 0x98, 0x98, 0xc9, 0xf9, 0xfb, 0xfb, 0xaa));
  }

  lemma BoxValues3()
    ensures Substituted(Column(0xfb, 0xfb, 0xaa, 0xf9)) == Column(0x0f, 0x0f, 0xac, 0x99)
  {
  }

  lemma CoreValue3()
    ensures Core(Column(0xf9, 0xfb, 0xfb, 0xaa), 0x04) == Column(0x0b, 0x0f, 0xac, 0x99)
  {
    hide Core, Substituted;
    BoxValues3();
    CoreFrom(Column(0xf9, 0xfb, 0xfb, 0xaa), 0x04,
      Column(0x0f, 0x0f, 0xac, 0x99), Column(0x0b, 0x0f, 0xac, 0x99));
  }

  lemma KeyValue3()
    ensures NextKey(
      Cols(0x9b, 0x98, 0x98, 0xc9, 0xf9, 0xfb, 0xfb, 0xaa, 0x9b, 0x98, 0x98, 0xc9, 0xf9, 0xfb, 0xfb, 0xaa), 0x04) ==
      Cols(0x90, 0x97, 0x34, 0x50, 0x69, 0x6c, 0xcf, 0xfa, 0xf2, 0xf4, 0x57, 0x33, 0x0b, 0x0f, 0xac, 0x99)
  {
    hide NextKey, Core;
    CoreValue3();
    KeyStep(Cols(0x9b, 0x98, 0x98, 0xc9, 0xf9, 0xfb, 0xfb, 0xaa, 0x9b, 0x98, 0x98, 0xc9, 0xf9, 0xfb, 0xfb, 0xaa),
      0x04, Column(0x0b, 0x0f, 0xac, 0x99),
      Cols(0x90, 0x97, 0x34, 0x50, 0x69, 0x6c, 0xcf, 0xfa, 0xf2, 0xf4, 0x57, 0x33, 0x0b, 0x0f, 0xac, 0x99));
  }

  lemma BoxValues4()
    ensures Substituted(Column(0x0f, 0xac, 0x99, 0x0b)) == Column(0x76, 0x91, 0xee, 0x2b)
  {
  }

  lemma CoreValue4()
    ensures Core(Column(0x0b, 0x0f, 0xac, 0x99), 0x08) == Column(0x7e, 0x91, 0xee, 0x2b)
  {
    hide Core, Substituted;
    BoxValues4();
    CoreFrom(Column(0x0b, 0x0f, 0xac, 0x99), 0x08,
      Column(0x76, 0x91, 0xee, 0x2b), Column(0x7e, 0x91, 0xee, 0x2b));
  }

  lemma KeyValue4()
    ensures NextKey(
      Cols(0x90, 0x97, 0x34, 0x50, 0x69, 0x6c, 0xcf, 0xfa, 0xf2, 0xf4, 0x57, 0x33, 0x0b, 0x0f, 0xac, 0x99), 0x08) ==
      Cols(0xee, 0x06, 0xda, 0x7b, 0x87, 0x6a, 0x15, 0x81, 0x75, 0x9e, 0x42, 0xb2, 0x7e, 0x91, 0xee, 0x2b)
  {
    hide NextKey, Core;
    CoreValue4();
    KeyStep(Cols(0x90, 0x97, 0x34, 0x50, 0x69, 0x6c, 0xcf, 0xfa, 0xf2, 0xf4, 0x57, 0x33, 0x0b, 0x0f, 0xac, 0x99),
      0x08, Column(0x7e, 0x91, 0xee, 0x2b),
      Cols(0xee, 0x06, 0xda, 0x7b, 0x87, 0x6a, 0x15, 0x81, 0x75, 0x9e, 0x42, 0xb2, 0x7e, 0x91, 0xee, 0x2b));
  }

  lemma BoxValues5()
    ensures Substituted(Column(0x91, 0xee, 0x2b, 0x7e)) == Column(0x81, 0x28, 0xf1, 0xf3)
  {
  }

  lemma CoreValue5()
    ensures Core(Column(0x7e, 0x91, 0xee, 0x2b), 0x10) == Column(0x91, 0x28, 0xf1, 0xf3)
  {
    hide Core, Substituted;
    BoxValues5();
    CoreFrom(Column(0x7e, 0x91, 0xee, 0x2b), 0x10,
      Column(0x81, 0x28, 0xf1, 0xf3), Column(0x91, 0x28, 0xf1, 0xf3));
  }

  lemma KeyValue5()
    ensures NextKey(
      Cols(0xee, 0x06, 0xda, 0x7b, 0x87, 0x6a, 0x15, 0x81, 0x75, 0x9e, 0x42, 0xb2, 0x7e, 0x91, 0xee, 0x2b), 0x10) ==
      Cols(0x7f, 0x2e, 0x2b, 0x88, 0xf8, 0x44, 0x3e, 0x09, 0x8d, 0xda, 0x7c, 0xbb, 0xf3, 0x4b, 0x92, 0x90)
  {
    hide NextKey, Core;
    CoreValue5();
    KeyStep(Cols(0xee, 0x06, 0xda, 0x7b, 0x87, 0x6a, 0x15, 0x81, 0x75, 0x9e, 0x42, 0xb2, 0x7e, 0x91, 0xee, 0x2b),
      0x10, Column(0x91, 0x28, 0xf1, 0xf3),
      Cols(0x7f, 0x2e, 0x2b, 0x88, 0xf8, 0x44, 0x3e, 0x09, 0x8d, 0xda, 0x7c, 0xbb, 0xf3, 0x4b, 0x92, 0x90));
  }

  lemma BoxValues6()
    ensures Substituted(Column(0x4b, 0x92, 0x90, 0xf3)) == Column(0xb3, 0x4f, 0x60, 0x0d)
  {
  }

  lemma CoreValue6()
    ensures Core(Column(0xf3, 0x4b, 0x92, 0x90), 0x20) == Column(0x93, 0x4f, 0x60, 0x0d)
  {
    hide Core, Substituted;
    BoxValues6();
    CoreFrom(Column(0xf3, 0x4b, 0x92, 0x90), 0x20,
      Column(0xb3, 0x4f, 0x60, 0x0d), Column(0x93, 0x4f, 0x60, 0x0d));
  }

  lemma KeyValue6()
    ensures NextKey(
      Cols(0x7f, 0x2e, 0x2b, 0x88, 0xf8, 0x44, 0x3e, 0x09, 0x8d, 0xda, 0x7c, 0xbb, 0xf3, 0x4b, 0x92, 0x90), 0x20) ==
      Cols(0xec, 0x61, 0x4b, 0x85, 0x14, 0x25, 0x75, 0x8c, 0x99, 0xff, 0x09, 0x37, 0x6a, 0xb4, 0x9b, 0xa7)
  {
    hide NextKey, Core;
    CoreValue6();
    KeyStep(Cols(0x7f, 0x2e, 0x2b, 0x88, 0xf8, 0x44, 0x3e, 0x09, 0x8d, 0xda, 0x7c, 0xbb, 0xf3, 0x4b, 0x92, 0x90),
      0x20, Column(0x93, 0x4f, 0x60, 0x0d),
      Cols(0xec, 0x61, 0x4b, 0x85, 0x14, 0x25, 0x75, 0x8c, 0x99, 0xff, 0x09, 0x37, 0x6a, 0xb4, 0x9b, 0xa7));
  }

  lemma BoxValues7()
    ensures Substituted(Column(0xb4, 0x9b, 0xa7, 0x6a)) == Column(0x8d, 0x14, 0x5c, 0x02)
  {
  }

  lemma CoreValue7()
    ensures Core(Column(0x6a, 0xb4, 0x9b, 0xa7), 0x40) == Column(0xcd, 0x14, 0x5c, 0x02)
  {
    hide Core, Substituted;
    BoxValues7();
    CoreFrom(Column(0x6a, 0xb4, 0x9b, 0xa7), 0x40,
      Column(0x8d, 0x14, 0x5c, 0x02), Column(0xcd, 0x14, 0x5c, 0x02));
  }

  lemma KeyValue7()
    ensures NextKey(
      Cols(0xec, 0x61, 0x4b, 0x85, 0x14, 0x25, 0x75, 0x8c, 0x99, 0xff, 0x09, 0x37, 0x6a, 0xb4, 0x9b, 0xa7), 0x40) ==
      Cols(0x21, 0x75, 0x17, 0x87, 0x35, 0x50, 0x62, 0x0b, 0xac, 0xaf, 0x6b, 0x3c, 0xc6, 0x1b, 0xf0, 0x9b)
  {
    hide NextKey, Core;
    CoreValue7();
    KeyStep(Cols(0xec, 0x61, 0x4b, 0x85, 0x14, 0x25, 0x75, 0x8c, 0x99, 0xff, 0x09, 0x37, 0x6a, 0xb4, 0x9b, 0xa7),
      0x40, Column(0xcd, 0x14, 0x5c, 0x02),
      Cols(0x21, 0x75, 0x17, 0x87, 0x35, 0x50, 0x62, 0x0b, 0xac, 0xaf, 0x6b, 0x3c, 0xc6, 0x1b, 0xf0, 0x9b));
  }

  lemma BoxValues8()
    ensures Substituted(Column(0x1b, 0xf0, 0x9b, 0xc6)) == Column(0xaf, 0x8c, 0x14, 0xb4)
  {
  }

  lemma CoreValue8()
    ensures Core(Column(0xc6, 0x1b, 0xf0, 0x9b), 0x80) == Column(0x2f, 0x8c, 0x14, 0xb4)
  {
    hide Core, Substituted;
    BoxValues8();
    CoreFrom(Column(0xc6, 0x1b, 0xf0, 0x9b), 0x80,
      Column(0xaf, 0x8c, 0x14, 0xb4), Column(0x2f, 0x8c, 0x14, 0xb4));
  }

  lemma KeyValue8()
    ensures NextKey(
      Cols(0x21, 0x75, 0x17, 0x87, 0x35, 0x50, 0x62, 0x0b, 0xac, 0xaf, 0x6b, 0x3c, 0xc6, 0x1b, 0xf0, 0x9b), 0x80) ==
      Cols(0x0e, 0xf9, 0x03, 0x33, 0x3b, 0xa9, 0x61, 0x38, 0x97, 0x06, 0x0a, 0x04, 0x51, 0x1d, 0xfa, 0x9f)
  {
    hide NextKey, Core;
    CoreValue8();
    KeyStep(Cols(0x21, 0x75, 0x17, 0x87, 0x35, 0x50, 0x62, 0x0b, 0xac, 0xaf, 0x6b, 0x3c, 0xc6, 0x1b, 0xf0, 0x9b),
      0x80, Column(0x2f, 0x8c, 0x14, 0xb4),
      Cols(0x0e, 0xf9, 0x03, 0x33, 0x3b, 0xa9, 0x61, 0x38, 0x97, 0x06, 0x0a, 0x04, 0x51, 0x1d, 0xfa, 0x9f));
  }

  lemma BoxValues9()
    ensures Substituted(Column(0x1d, 0xfa, 0x9f, 0x51)) == Column(0xa4, 0x2d, 0xdb, 0xd1)
  {
  }

  lemma CoreValue9()
    ensures Core(Column(0x51, 0x1d, 0xfa, 0x9f), 0x1b) == Column(0xbf, 0x2d, 0xdb, 0xd1)
  {
    hide Core, Substituted;
    BoxValues9();
    CoreFrom(Column(0x51, 0x1d, 0xfa, 0x9f), 0x1b,
      Column(0xa4, 0x2d, 0xdb, 0xd1), Column(0xbf, 0x2d, 0xdb, 0xd1));
  }

  lemma KeyValue9()
    ensures NextKey(
      Cols(0x0e, 0xf9, 0x03, 0x33, 0x3b, 0xa9, 0x61, 0x38, 0x97, 0x06, 0x0a, 0x04, 0x51, 0x1d, 0xfa, 0x9f), 0x1b) ==
      Cols(0xb1, 0xd4, 0xd8, 0xe2, 0x8a, 0x7d, 0xb9, 0xda, 0x1d, 0x7b, 0xb3, 0xde, 0x4c, 0x66, 0x49, 0x41)
  {
    hide NextKey, Core;
    CoreValue9();
    KeyStep(Cols(0x0e, 0xf9, 0x03, 0x33, 0x3b, 0xa9, 0x61, 0x38, 0x97, 0x06, 0x0a, 0x04, 0x51, 0x1d, 0xfa, 0x9f),
      0x1b, Column(0xbf, 0x2d, 0xdb, 0xd1),
      Cols(0xb1, 0xd4, 0xd8, 0xe2, 0x8a, 0x7d, 0xb9, 0xda, 0x1d, 0x7b, 0xb3, 0xde, 0x4c, 0x66, 0x49, 0x41));
  }

  lemma BoxValues10()
    ensures Substituted(Column(0x66, 0x49, 0x41, 0x4c)) == Column(0x33, 0x3b, 0x83, 0x29)
  {
  }

  lemma CoreValue10()
    ensures Core(Column(0x4c, 0x66, 0x49, 0x41), 0x36) == Column(0x05, 0x3b, 0x83, 0x29)
  {
    hide Core, Substituted;
    BoxValues10();
    CoreFrom(Column(0x4c, 0x66, 0x49, 0x41), 0x36,
      Column(0x33, 0x3b, 0x83, 0x29), Column(0x05, 0x3b, 0x83, 0x29));
  }

  lemma KeyValue10()
    ensures NextKey(
      Cols(0xb1, 0xd4, 0xd8, 0xe2, 0x8a, 0x7d, 0xb9, 0xda, 0x1d, 0x7b, 0xb3, 0xde, 0x4c, 0x66, 0x49, 0x41), 0x36) ==
      Cols(0xb4, 0xef, 0x5b, 0xcb, 0x3e, 0x92, 0xe2, 0x11, 0x23, 0xe9, 0x51, 0xcf, 0x6f, 0x8f, 0x18, 0x8e)
  {
    hide NextKey, Core;
    CoreValue10();
    KeyStep(Cols(0xb1, 0xd4, 0xd8, 0xe2, 0x8a, 0x7d, 0xb9, 0xda, 0x1d, 0x7b, 0xb3, 0xde, 0x4c, 0x66, 0x49, 0x41),
      0x36, Column(0x05, 0x3b, 0x83, 0x29),
      Cols(0xb4, 0xef, 0x5b, 0xcb, 0x3e, 0x92, 0xe2, 0x11, 0x23, 0xe9, 0x51, 0xcf, 0x6f, 0x8f, 0x18, 0x8e));
  }

  lemma StateValue1a()
    ensures RoundOf(
      Cols(0x00, 0x00, 0x00, 0x00, 0x00, 0x00, 0x00, 0x00, 0x00, 0x00, 0x00, 0x00, 0x00, 0x00, 0x00, 0x01),
      Cols(0x62, 0x63, 0x63, 0x63, 0x62, 0x63, 0x63, 0x63, 0x62, 0x63, 0x63, 0x63, 0x62, 0x63, 0x63, 0x63), false) ==
      Cols(0x1e, 0x1f, 0x21, 0x3e, 0x01, 0x00, 0x00, 0x00, 0x01, 0x00, 0x00, 0x00, 0x01, 0x00, 0x00, 0x00)
  {
  }

  lemma StateValue1b()
    ensures RoundOf(
      Cols(0x1e, 0x1f, 0x21, 0x3e, 0x01, 0x00, 0x00, 0x00, 0x01, 0x00, 0x00, 0x00, 0x01, 0x00, 0x00, 0x00),
      Cols(0x9b, 0x98, 0x98, 0xc9, 0xf9, 0xfb, 0xfb, 0xaa, 0x9b, 0x98, 0x98, 0xc9, 0xf9, 0xfb, 0xfb, 0xaa), false) ==
      Cols(0xda, 0xea, 0xea, 0x99, 0x75, 0x56, 0xef, 0x51, 0x58, 0x5d, 0xc3, 0x15, 0x5a, 0xda, 0x24, 0x4b)
  {
  }

  lemma StateValue1c()
    ensures RoundOf(
      Cols(0xda, 0xea, 0xea, 0x99, 0x75, 0x56, 0xef, 0x51, 0x58, 0x5d, 0xc3, 0x15, 0x5a, 0xda, 0x24, 0x4b),
      Cols(0x90, 0x97, 0x34, 0x50, 0x69, 0x6c, 0xcf, 0xfa, 0xf2, 0xf4, 0x57, 0x33, 0x0b, 0x0f, 0xac, 0x99), false) ==
      Cols(0x6b, 0x78, 0x40, 0x4b, 0x44, 0xdd, 0x5b, 0xfb, 0x89, 0x73, 0x17, 0xe4, 0x78, 0x87, 0xdb, 0xaa)
  {
  }

  lemma StateValue1d()
    ensures RoundOf(
      Cols(0x6b, 0x78, 0x40, 0x4b, 0x44, 0xdd, 0x5b, 0xfb, 0x89, 0x73, 0x17, 0xe4, 0x78, 0x87, 0xdb, 0xaa),
      Cols(0xee, 0x06, 0xda, 0x7b, 0x87, 0x6a, 0x15, 0x81, 0x75, 0x9e, 0x42, 0xb2, 0x7e, 0x91, 0xee, 0x2b), false) ==
      Cols(0x14, 0x47, 0x70, 0x88, 0x31, 0x17, 0x26, 0xe7, 0x1f, 0x03, 0xf1, 0x40, 0x92, 0x6c, 0x27, 0xa3)
  {
  }

  lemma StateValue1e()
    ensures RoundOf(
      Cols(0x14, 0x47, 0x70, 0x88, 0x31, 0x17, 0x26, 0xe7, 0x1f, 0x03, 0xf1, 0x40, 0x92, 0x6c, 0x27, 0xa3),
      Cols(0x7f, 0x2e, 0x2b, 0x88, 0xf8, 0x44, 0x3e, 0x09, 0x8d, 0xda, 0x7c, 0xbb, 0xf3, 0x4b, 0x92, 0x90), false) ==
      Cols(0x30, 0xdd, 0x66, 0xd8, 0xe8, 0xfe, 0x56, 0x7f, 0x23, 0xdd, 0xe9, 0xd2, 0x68, 0x54, 0x93, 0x04)
  {
  }

  lemma StateValue1f()
    ensures RoundOf(
      Cols(0x30, 0xdd, 0x66, 0xd8, 0xe8, 0xfe, 0x56, 0x7f, 0x23, 0xdd, 0xe9, 0xd2, 0x68, 0x54, 0x93, 0x04),
      Cols(0xec, 0x61, 0x4b, 0x85, 0x14, 0x25, 0x75, 0x8c, 0x99, 0xff, 0x09, 0x37, 0x6a, 0xb4, 0x9b, 0xa7), false) ==
      Cols(0xde, 0xd8, 0xc5, 0xd3, 0xdc, 0x39, 0x2f, 0xe5, 0x54, 0x1e, 0x04, 0xf1, 0xbc, 0x15, 0xa2, 0x69)
  {
  }

  lemma StateValue1g()
    ensures RoundOf(
      Cols(0xde, 0xd8, 0xc5, 0xd3, 0xdc, 0x39, 0x2f, 0xe5, 0x54, 0x1e, 0x04, 0xf1, 0xbc, 0x15, 0xa2, 0x69),
      Cols(0x21, 0x75, 0x17, 0x87, 0x35, 0x50, 0x62, 0x0b, 0xac, 0xaf, 0x6b, 0x3c, 0xc6, 0x1b, 0xf0, 0x9b), false) ==
      Cols(0x26, 0xb8, 0xf7, 0xa9, 0xe8, 0x1a, 0x48, 0x1e, 0x78, 0x15, 0x35, 0x0a, 0x1b, 0x22, 0x26, 0x19)
  {
  }

  lemma StateValue1h()
    ensures RoundOf(
      Cols(0x26, 0xb8, 0xf7, 0xa9, 0xe8, 0x1a, 0x48, 0x1e, 0x78, 0x15, 0x35, 0x0a, 0x1b, 0x22, 0x26, 0x19),
      Cols(0x0e, 0xf9, 0x03, 0x33, 0x3b, 0xa9, 0x61, 0x38, 0x97, 0x06, 0x0a, 0x04, 0x51, 0x1d, 0xfa, 0x9f), false) ==
      Cols(0x44, 0x24, 0x06, 0xb6, 0xd9, 0x51, 0x38, 0x9d, 0x40, 0x4d, 0x63, 0xc4, 0x95, 0xfb, 0x34, 0x85)
  {
  }

  lemma StateValue1i()
    ensures RoundOf(
      Cols(0x44, 0x24, 0x06, 0xb6, 0xd9, 0x51, 0x38, 0x9d, 0x40, 0x4d, 0x63, 0xc4, 0x95, 0xfb, 0x34, 0x85),
      Cols(0xb1, 0xd4, 0xd8, 0xe2, 0x8a, 0x7d, 0xb9, 0xda, 0x1d, 0x7b, 0xb3, 0xde, 0x4c, 0x66, 0x49, 0x41), false) ==
      Cols(0x83, 0xf7, 0x5d, 0xd0, 0x88, 0xf3, 0x8d, 0xe2, 0x2f, 0x83, 0x89, 0x19, 0x59, 0x35, 0x7f, 0x36)
  {
  }

  lemma StateValue1j()
    ensures RoundOf(
      Cols(0x83, 0xf7, 0x5d, 0xd0, 0x88, 0xf3, 0x8d, 0xe2, 0x2f, 0x83, 0x89, 0x19, 0x59, 0x35, 0x7f, 0x36),
      Cols(0xb4, 0xef, 0x5b, 0xcb, 0x3e, 0x92, 0xe2, 0x11, 0x23, 0xe9, 0x51, 0xcf, 0x6f, 0x8f, 0x18, 0x8e), true) ==
      Cols(0x58, 0xe2, 0xfc, 0xce, 0xfa, 0x7e, 0x30, 0x61, 0x36, 0x7f, 0x1d, 0x57, 0xa4, 0xe7, 0x45, 0x5a)
  {
  }

  lemma StateValue2a()
    ensures RoundOf(
      Cols(0x00, 0x00, 0x00, 0x00, 0x00, 0x00, 0x00, 0x00, 0x00, 0x00, 0x00, 0x00, 0x00, 0x00, 0x00, 0x02),
      Cols(0x62, 0x63, 0x63, 0x63, 0x62, 0x63, 0x63, 0x63, 0x62, 0x63, 0x63, 0x63, 0x62, 0x63, 0x63, 0x63), false) ==
      Cols(0x15, 0x14, 0x3c, 0x28, 0x01, 0x00, 0x00, 0x00, 0x01, 0x00, 0x00, 0x00, 0x01, 0x00, 0x00, 0x00)
  {
  }

  lemma StateValue2b()
    ensures RoundOf(
      Cols(0x15, 0x14, 0x3c, 0x28, 0x01, 0x00, 0x00, 0x00, 0x01, 0x00, 0x00, 0x00, 0x01, 0x00, 0x00, 0x00),
      Cols(0x9b, 0x98, 0x98, 0xc9, 0xf9, 0xfb, 0xfb, 0xaa, 0x9b, 0x98, 0x98, 0xc9, 0xf9, 0xfb, 0xfb, 0xaa), false) ==
      Cols(0x8c, 0xc1, 0xc1, 0xe4, 0xf3, 0xd0, 0x7e, 0x46, 0x4e, 0x67, 0xef, 0x03, 0x14, 0xae, 0x1e, 0x71)
  {
  }

  lemma StateValue2c()
    ensures RoundOf(
      Cols(0x8c, 0xc1, 0xc1, 0xe4, 0xf3, 0xd0, 0x7e, 0x46, 0x4e, 0x67, 0xef, 0x03, 0x14, 0xae, 0x1e, 0x71),
      Cols(0x90, 0x97, 0x34, 0x50, 0x69, 0x6c, 0xcf, 0xfa, 0xf2, 0xf4, 0x57, 0x33, 0x0b, 0x0f, 0xac, 0x99), false) ==
      Cols(0xb4, 0xca, 0x7b, 0x0e, 0xfc, 0x8f, 0x18, 0xc8, 0xb9, 0xda, 0x82, 0x6a, 0xe4, 0x70, 0x5e, 0xf1)
  {
  }

  lemma StateValue2d()
    ensures RoundOf(
      Cols(0xb4, 0xca, 0x7b, 0x0e, 0xfc, 0x8f, 0x18, 0xc8, 0xb9, 0xda, 0x82, 0x6a, 0xe4, 0x70, 0x5e, 0xf1),
      Cols(0xee, 0x06, 0xda, 0x7b, 0x87, 0x6a, 0x15, 0x81, 0x75, 0x9e, 0x42, 0xb2, 0x7e, 0x91, 0xee, 0x2b), false) ==
      Cols(0xc8, 0xf9, 0xfa, 0xce, 0xf6, 0x37, 0xa4, 0x08, 0xe3, 0xe1, 0x24, 0xf3, 0x9f, 0xfe, 0xb4, 0x4d)
  {
  }

  lemma StateValue2e()
    ensures RoundOf(
      Cols(0xc8, 0xf9, 0xfa, 0xce, 0xf6, 0x37, 0xa4, 0x08, 0xe3, 0xe1, 0x24, 0xf3, 0x9f, 0xfe, 0xb4, 0x4d),
      Cols(0x7f, 0x2e, 0x2b, 0x88, 0xf8, 0x44, 0x3e, 0x09, 0x8d, 0xda, 0x7c, 0xbb, 0xf3, 0x4b, 0x92, 0x90), false) ==
      Cols(0xd4, 0x50, 0x0b, 0xda, 0x69, 0xea, 0x03, 0xb7, 0x64, 0xe1, 0xdc, 0x7e, 0xaa, 0x6f, 0x55, 0x2c)
  {
  }

  lemma StateValue2f()
    ensures RoundOf(
      Cols(0xd4, 0x50, 0x0b, 0xda, 0x69, 0xea, 0x03, 0xb7, 0x64, 0xe1, 0xdc, 0x7e, 0xaa, 0x6f, 0x55, 0x2c),
      Cols(0xec, 0x61, 0x4b, 0x85, 0x14, 0x25, 0x75, 0x8c, 0x99, 0xff, 0x09, 0x37, 0x6a, 0xb4, 0x9b, 0xa7), false) ==
      Cols(0x19, 0xdc, 0x00, 0xbe, 0x45, 0x7f, 0x6e, 0x36, 0x7e, 0x23, 0x54, 0x38, 0x54, 0xc0, 0x9c, 0x9d)
  {
  }

  lemma StateValue2g()
    ensures RoundOf(
      Cols(0x19, 0xdc, 0x00, 0xbe, 0x45, 0x7f, 0x6e, 0x36, 0x7e, 0x23, 0x54, 0x38, 0x54, 0xc0, 0x9c, 0x9d),
      Cols(0x21, 0x75, 0x17, 0x87, 0x35, 0x50, 0x62, 0x0b, 0xac, 0xaf, 0x6b, 0x3c, 0xc6, 0x1b, 0xf0, 0x9b), false) ==
      Cols(0x81, 0x20, 0xb3, 0xae, 0xf3, 0xa5, 0x64, 0x06, 0xe2, 0x93, 0xeb, 0xe1, 0x8f, 0x91, 0x7a, 0xec)
  {
  }

  lemma StateValue2h()
    ensures RoundOf(
      Cols(0x81, 0x20, 0xb3, 0xae, 0xf3, 0xa5, 0x64, 0x06, 0xe2, 0x93, 0xeb, 0xe1, 0x8f, 0x91, 0x7a, 0xec),
      Cols(0x0e, 0xf9, 0x03, 0x33, 0x3b, 0xa9, 0x61, 0x38, 0x97, 0x06, 0x0a, 0x04, 0x51, 0x1d, 0xfa, 0x9f), false) ==
      Cols(0x3b, 0x17, 0x89, 0x4f, 0x60, 0x96, 0x28, 0xfa, 0x26, 0x5f, 0x78, 0x85, 0xce, 0x26, 0xab, 0x15)
  {
  }

  lemma StateValue2i()
    ensures RoundOf(
      Cols(0x3b, 0x17, 0x89, 0x4f, 0x60, 0x96, 0x28, 0xfa, 0x26, 0x5f, 0x78, 0x85, 0xce, 0x26, 0xab, 0x15),
      Cols(0xb1, 0xd4, 0xd8, 0xe2, 0x8a, 0x7d, 0xb9, 0xda, 0x1d, 0x7b, 0xb3, 0xde, 0x4c, 0x66, 0x49, 0x41), false) ==
      Cols(0x20, 0x8b, 0x22, 0x41, 0x9d, 0x0a, 0xf5, 0x0f, 0x60, 0xa6, 0x91, 0xd6, 0xe9, 0xdd, 0xf8, 0x36)
  {
  }

  lemma StateValue2j()
    ensures RoundOf(
      Cols(0x20, 0x8b, 0x22, 0x41, 0x9d, 0x0a, 0xf5, 0x0f, 0x60, 0xa6, 0x91, 0xd6, 0xe9, 0xdd, 0xf8, 0x36),
      Cols(0xb4, 0xef, 0x5b, 0xcb, 0x3e, 0x92, 0xe2, 0x11, 0x23, 0xe9, 0x51, 0xcf, 0x6f, 0x8f, 0x18, 0x8e), true) ==
      Cols(0x03, 0x88, 0xda, 0xce, 0x60, 0xb6, 0xa3, 0x92, 0xf3, 0x28, 0xc2, 0xb9, 0x71, 0xb2, 0xfe, 0x78)
  {
  }

  lemma StateValue3a()
    ensures RoundOf(
      Cols(0x00, 0x00, 0x00, 0x00, 0x00, 0x00, 0x00, 0x00, 0x00, 0x00, 0x00, 0x00, 0x00, 0x00, 0x00, 0x00),
      Cols(0x62, 0x63, 0x63, 0x63, 0x62, 0x63, 0x63, 0x63, 0x62, 0x63, 0x63, 0x63, 0x62, 0x63, 0x63, 0x63), false) ==
      Cols(0x01, 0x00, 0x00, 0x00, 0x01, 0x00, 0x00, 0x00, 0x01, 0x00, 0x00, 0x00, 0x01, 0x00, 0x00, 0x00)
  {
  }

  lemma StateValue3b()
    ensures RoundOf(
      Cols(0x01, 0x00, 0x00, 0x00, 0x01, 0x00, 0x00, 0x00, 0x01, 0x00, 0x00, 0x00, 0x01, 0x00, 0x00, 0x00),
      Cols(0x9b, 0x98, 0x98, 0xc9, 0xf9, 0xfb, 0xfb, 0xaa, 0x9b, 0x98, 0x98, 0xc9, 0xf9, 0xfb, 0xfb, 0xaa), false) ==
      Cols(0xc6, 0xe4, 0xe4, 0x8b, 0xa4, 0x87, 0x87, 0xe8, 0xc6, 0xe4, 0xe4, 0x8b, 0xa4, 0x87, 0x87, 0xe8)
  {
  }

  lemma StateValue3c()
    ensures RoundOf(
      Cols(0xc6, 0xe4, 0xe4, 0x8b, 0xa4, 0x87, 0x87, 0xe8, 0xc6, 0xe4, 0xe4, 0x8b, 0xa4, 0x87, 0x87, 0xe8),
      Cols(0x90, 0x97, 0x34, 0x50, 0x69, 0x6c, 0xcf, 0xfa, 0xf2, 0xf4, 0x57, 0x33, 0x0b, 0x0f, 0xac, 0x99), false) ==
      Cols(0x28, 0x2d, 0xf3, 0xc4, 0x6a, 0xf3, 0x86, 0x25, 0x4a, 0x4e, 0x90, 0xa7, 0x08, 0x90, 0xe5, 0x46)
  {
  }

  lemma StateValue3d()
    ensures RoundOf(
      Cols(0x28, 0x2d, 0xf3, 0xc4, 0x6a, 0xf3, 0x86, 0x25, 0x4a, 0x4e, 0x90, 0xa7, 0x08, 0x90, 0xe5, 0x46),
      Cols(0xee, 0x06, 0xda, 0x7b, 0x87, 0x6a, 0x15, 0x81, 0x75, 0x9e, 0x42, 0xb2, 0x7e, 0x91, 0xee, 0x2b), false) ==
      Cols(0xab, 0xd2, 0xcd, 0xfe, 0x37, 0x5a, 0xb5, 0x49, 0x50, 0xa0, 0xaf, 0xc0, 0x75, 0x9a, 0x6a, 0x5f)
  {
  }

  lemma StateValue3e()
    ensures RoundOf(
      Cols(0xab, 0xd2, 0xcd, 0xfe, 0x37, 0x5a, 0xb5, 0x49, 0x50, 0xa0, 0xaf, 0xc0, 0x75, 0x9a, 0x6a, 0x5f),
      Cols(0x7f, 0x2e, 0x2b, 0x88, 0xf8, 0x44, 0x3e, 0x09, 0x8d, 0xda, 0x7c, 0xbb, 0xf3, 0x4b, 0x92, 0x90), false) ==
      Cols(0xd4, 0x6f, 0x4f, 0x6c, 0x55, 0xb8, 0x96, 0x33, 0x7e, 0x05, 0xbb, 0x3d, 0x79, 0x79, 0xde, 0x23)
  {
  }

  lemma StateValue3f()
    ensures RoundOf(
      Cols(0xd4, 0x6f, 0x4f, 0x6c, 0x55, 0xb8, 0x96, 0x33, 0x7e, 0x05, 0xbb, 0x3d, 0x79, 0x79, 0xde, 0x23),
      Cols(0xec, 0x61, 0x4b, 0x85, 0x14, 0x25, 0x75, 0x8c, 0x99, 0xff, 0x09, 0x37, 0x6a, 0xb4, 0x9b, 0xa7), false) ==
      Cols(0x04, 0xf2, 0xca, 0x97, 0x07, 0x78, 0x28, 0x45, 0xe2, 0x2f, 0x01, 0x96, 0x49, 0xc5, 0xd7, 0x10)
  {
  }

  lemma StateValue3g()
    ensures RoundOf(
      Cols(0x04, 0xf2, 0xca, 0x97, 0x07, 0x78, 0x28, 0x45, 0xe2, 0x2f, 0x01, 0x96, 0x49, 0xc5, 0xd7, 0x10),
      Cols(0x21, 0x75, 0x17, 0x87, 0x35, 0x50, 0x62, 0x0b, 0xac, 0xaf, 0x6b, 0x3c, 0xc6, 0x1b, 0xf0, 0x9b), false) ==
      Cols(0xb7, 0xaa, 0xe4, 0xc5, 0x1d, 0x25, 0x2d, 0x4f, 0x6c, 0x92, 0x0f, 0x81, 0x94, 0xe5, 0x81, 0x50)
  {
  }

  lemma StateValue3h()
    ensures RoundOf(
      Cols(0xb7, 0xaa, 0xe4, 0xc5, 0x1d, 0x25, 0x2d, 0x4f, 0x6c, 0x92, 0x0f, 0x81, 0x94, 0xe5, 0x81, 0x50),
      Cols(0x0e, 0xf9, 0x03, 0x33, 0x3b, 0xa9, 0x61, 0x38, 0x97, 0x06, 0x0a, 0x04, 0x51, 0x1d, 0xfa, 0x9f), false) ==
      Cols(0x23, 0xe7, 0x8c, 0x3c, 0x13, 0x21, 0x63, 0xdb, 0xaa, 0xc0, 0xc6, 0x57, 0x2e, 0x03, 0xcb, 0x95)
  {
  }

  lemma StateValue3i()
    ensures RoundOf(
      Cols(0x23, 0xe7, 0x8c, 0x3c, 0x13, 0x21, 0x63, 0xdb, 0xaa, 0xc0, 0xc6, 0x57, 0x2e, 0x03, 0xcb, 0x95),
      Cols(0xb1, 0xd4, 0xd8, 0xe2, 0x8a, 0x7d, 0xb9, 0xda, 0x1d, 0x7b, 0xb3, 0xde, 0x4c, 0x66, 0x49, 0x41), false) ==
      Cols(0x7f, 0xfe, 0x0e, 0x95, 0x51, 0xa5, 0x66, 0x35, 0x0e, 0x34, 0x7c, 0x47, 0x29, 0x29, 0xec, 0xcb)
  {
  }

  lemma StateValue3j()
    ensures RoundOf(
      Cols(0x7f, 0xfe, 0x0e, 0x95, 0x51, 0xa5, 0x66, 0x35, 0x0e, 0x34, 0x7c, 0x47, 0x29, 0x29, 0xec, 0xcb),
      Cols(0xb4, 0xef, 0x5b, 0xcb, 0x3e, 0x92, 0xe2, 0x11, 0x23, 0xe9, 0x51, 0xcf, 0x6f, 0x8f, 0x18, 0x8e), true) ==
      Cols(0x66, 0xe9, 0x4b, 0xd4, 0xef, 0x8a, 0x2c, 0x3b, 0x88, 0x4c, 0xfa, 0x59, 0xca, 0x34, 0x2b, 0x2e)
  {
  }

  lemma Constants()
    ensures RoundConstant(1) == 0x01 && RoundConstant(2) == 0x02 && RoundConstant(3) == 0x04
    ensures RoundConstant(4) == 0x08 && RoundConstant(5) == 0x10 && RoundConstant(6) == 0x20
    ensures RoundConstant(7) == 0x40 && RoundConstant(8) == 0x80 && RoundConstant(9) == 0x1b
    ensures RoundConstant(10) == 0x36
  {
    hide RoundConstant;
    forall j | 1 <= j <= 10
      ensures RCON[j - 1] == RoundConstant(j)
    {
      RconTable(j);
    }
  }

  lemma KeyOfZeros()
    ensures KeyColumns(Zeros(16), 0) ==
      Cols(0x00, 0x00, 0x00, 0x00, 0x00, 0x00, 0x00, 0x00, 0x00, 0x00, 0x00, 0x00, 0x00, 0x00, 0x00, 0x00)
  {
    hide KeyWord;
    KeyColumnsAre(Zeros(16), 0);
    ZeroWords();
  }

  lemma ZeroWords()
    ensures forall j :: 0 <= j < 4 ==> KeyWord(Zeros(16), 4, j) == [0, 0, 0, 0]
  {
  }

  /** The round keys of a key of zeros. */
  lemma KeyValues()
    ensures KeyColumns(Zeros(16), 0) ==
      Cols(0x00, 0x00, 0x00, 0x00, 0x00, 0x00, 0x00, 0x00, 0x00, 0x00, 0x00, 0x00, 0x00, 0x00, 0x00, 0x00)
    ensures KeyColumns(Zeros(16), 1) ==
      Cols(0x62, 0x63, 0x63, 0x63, 0x62, 0x63, 0x63, 0x63, 0x62, 0x63, 0x63, 0x63, 0x62, 0x63, 0x63, 0x63)
    ensures KeyColumns(Zeros(16), 2) ==
      Cols(0x9b, 0x98, 0x98, 0xc9, 0xf9, 0xfb, 0xfb, 0xaa, 0x9b, 0x98, 0x98, 0xc9, 0xf9, 0xfb, 0xfb, 0xaa)
    ensures KeyColumns(Zeros(16), 3) ==
      Cols(0x90, 0x97, 0x34, 0x50, 0x69, 0x6c, 0xcf, 0xfa, 0xf2, 0xf4, 0x57, 0x33, 0x0b, 0x0f, 0xac, 0x99)
    ensures KeyColumns(Zeros(16), 4) ==
      Cols(0xee, 0x06, 0xda, 0x7b, 0x87, 0x6a, 0x15, 0x81, 0x75, 0x9e, 0x42, 0xb2, 0x7e, 0x91, 0xee, 0x2b)
    ensures KeyColumns(Zeros(16), 5) ==
      Cols(0x7f, 0x2e, 0x2b, 0x88, 0xf8, 0x44, 0x3e, 0x09, 0x8d, 0xda, 0x7c, 0xbb, 0xf3, 0x4b, 0x92, 0x90)
    ensures KeyColumns(Zeros(16), 6) ==
      Cols(0xec, 0x61, 0x4b, 0x85, 0x14, 0x25, 0x75, 0x8c, 0x99, 0xff, 0x09, 0x37, 0x6a, 0xb4, 0x9b, 0xa7)
    ensures KeyColumns(Zeros(16), 7) ==
      Cols(0x21, 0x75, 0x17, 0x87, 0x35, 0x50, 0x62, 0x0b, 0xac, 0xaf, 0x6b, 0x3c, 0xc6, 0x1b, 0xf0, 0x9b)
    ensures KeyColumns(Zeros(16), 8) ==
      Cols(0x0e, 0xf9, 0x03, 0x33, 0x3b, 0xa9, 0x61, 0x38, 0x97, 0x06, 0x0a, 0x04, 0x51, 0x1d, 0xfa, 0x9f)
    ensures KeyColumns(Zeros(16), 9) ==
      Cols(0xb1, 0xd4, 0xd8, 0xe2, 0x8a, 0x7d, 0xb9, 0xda, 0x1d, 0x7b, 0xb3, 0xde, 0x4c, 0x66, 0x49, 0x41)
    ensures KeyColumns(Zeros(16), 10) ==
      Cols(0xb4, 0xef, 0x5b, 0xcb, 0x3e, 0x92, 0xe2, 0x11, 0x23, 0xe9, 0x51, 0xcf, 0x6f, 0x8f, 0x18, 0x8e)
  {
    hide KeyColumns, NextKey, RoundConstant, Cols;
    Constants();
    KeyOfZeros();
    KeyValue1();
    NextKeyIs(Zeros(16), 0);
    KeyValue2();
    NextKeyIs(Zeros(16), 1);
    KeyValue3();
    NextKeyIs(Zeros(16), 2);
    KeyValue4();
    NextKeyIs(Zeros(16), 3);
    KeyValue5();
    NextKeyIs(Zeros(16), 4);
    KeyValue6();
    NextKeyIs(Zeros(16), 5);
    KeyValue7();
    NextKeyIs(Zeros(16), 6);
    KeyValue8();
    NextKeyIs(Zeros(16), 7);
    KeyValue9();
    NextKeyIs(Zeros(16), 8);
    KeyValue10();
    NextKeyIs(Zeros(16), 9);
  }

  ghost function State(x: block, n: nat): Columns
    requires n <= 10
  {
    ColumnsOf(Encoded(RoundKeys(Zeros(16), 4), Transposed(x), n))
  }

  lemma NextState(x: block, n: nat)
    requires 0 < n <= 10
    ensures State(x, n) == RoundOf(State(x, n - 1), KeyColumns(Zeros(16), n), n == 10)
  {
    hide EncodeRound, RoundKey, WordColumns, RoundOf, ColumnsOf;
    var keys := RoundKeys(Zeros(16), 4);
    RoundByColumns(keys[n], Encoded(keys, Transposed(x), n - 1), n == 10);
  }

  lemma FirstState(x: block)
    ensures State(x, 0) == WordColumns(x)
  {
    hide KeyWord, Plus, ColumnsOf, WordColumns, Transposed, AddRoundKey, KeyColumns;
    var keys := RoundKeys(Zeros(16), 4);
    KeyOfZeros();
    AddedColumns(keys[0], Transposed(x));
    TransposedColumns(x);
    KeyColumnsIs(keys, 0);
    PlusZeros(WordColumns(x));
  }

  lemma KeyColumnsIs(keys: seq<block>, k: nat)
    requires keys == RoundKeys(Zeros(16), 4) && k < 11
    ensures WordColumns(keys[k]) == KeyColumns(Zeros(16), k)
  {
    hide WordColumns, RoundKey;
  }

  lemma PlusZeros(s: Columns)
    ensures var z := Column(0, 0, 0, 0);
      Columns(PlusColumn(s.c0, z), PlusColumn(s.c1, z), PlusColumn(s.c2, z), PlusColumn(s.c3, z)) == s
  {
  }

  lemma Outcome(x: block, y: block)
    requires State(x, 10) == WordColumns(y)
    ensures EncryptOctets(RoundKeys(Zeros(16), 4), x) == y
  {
    hide RoundKey, Encoded, Transposed, ColumnsOf, WordColumns;
    var s := Encoded(RoundKeys(Zeros(16), 4), Transposed(x), 10);
    TransposedColumns(s);
    SameColumns(Transposed(s), y);
  }

  lemma SameColumns(x: block, y: block)
    requires WordColumns(x) == WordColumns(y)
    ensures x == y
  {
    EntriesDetermine(x, y);
  }

  lemma Block1()
    ensures EncryptOctets(RoundKeys(Zeros(16), 4),
      [0x00, 0x00, 0x00, 0x00, 0x00, 0x00, 0x00, 0x00, 0x00, 0x00, 0x00, 0x00, 0x00, 0x00, 0x00, 0x01]) ==
      [0x58, 0xe2, 0xfc, 0xce, 0xfa, 0x7e, 0x30, 0x61, 0x36, 0x7f, 0x1d, 0x57, 0xa4, 0xe7, 0x45, 0x5a]
  {
    hide EncryptOctets, State, RoundOf, KeyColumns, RoundKeys;
    var x: block :=
      [0x00, 0x00, 0x00, 0x00, 0x00, 0x00, 0x00, 0x00, 0x00, 0x00, 0x00, 0x00, 0x00, 0x00, 0x00, 0x01];
    FirstState(x);
    KeyValues();
    StateValue1a();
    NextState(x, 1);
    StateValue1b();
    NextState(x, 2);
    StateValue1c();
    NextState(x, 3);
    StateValue1d();
    NextState(x, 4);
    StateValue1e();
    NextState(x, 5);
    StateValue1f();
    NextState(x, 6);
    StateValue1g();
    NextState(x, 7);
    StateValue1h();
    NextState(x, 8);
    StateValue1i();
    NextState(x, 9);
    StateValue1j();
    NextState(x, 10);
    Outcome(x,
      [0x58, 0xe2, 0xfc, 0xce, 0xfa, 0x7e, 0x30, 0x61, 0x36, 0x7f, 0x1d, 0x57, 0xa4, 0xe7, 0x45, 0x5a]);
  }

  lemma Block2()
    ensures EncryptOctets(RoundKeys(Zeros(16), 4),
      [0x00, 0x00, 0x00, 0x00, 0x00, 0x00, 0x00, 0x00, 0x00, 0x00, 0x00, 0x00, 0x00, 0x00, 0x00, 0x02]) ==
      [0x03, 0x88, 0xda, 0xce, 0x60, 0xb6, 0xa3, 0x92, 0xf3, 0x28, 0xc2, 0xb9, 0x71, 0xb2, 0xfe, 0x78]
  {
    hide EncryptOctets, State, RoundOf, KeyColumns, RoundKeys;
    var x: block :=
      [0x00, 0x00, 0x00, 0x00, 0x00, 0x00, 0x00, 0x00, 0x00, 0x00, 0x00, 0x00, 0x00, 0x00, 0x00, 0x02];
    FirstState(x);
    KeyValues();
    StateValue2a();
    NextState(x, 1);
    StateValue2b();
    NextState(x, 2);
    StateValue2c();
    NextState(x, 3);
    StateValue2d();
    NextState(x, 4);
    StateValue2e();
    NextState(x, 5);
    StateValue2f();
    NextState(x, 6);
    StateValue2g();
    NextState(x, 7);
    StateValue2h();
    NextState(x, 8);
    StateValue2i();
    NextState(x, 9);
    StateValue2j();
    NextState(x, 10);
    Outcome(x,
      [0x03, 0x88, 0xda, 0xce, 0x60, 0xb6, 0xa3, 0x92, 0xf3, 0x28, 0xc2, 0xb9, 0x71, 0xb2, 0xfe, 0x78]);
  }

  lemma Block3()
    ensures EncryptOctets(RoundKeys(Zeros(16), 4),
      [0x00, 0x00, 0x00, 0x00, 0x00, 0x00, 0x00, 0x00, 0x00, 0x00, 0x00, 0x00, 0x00, 0x00, 0x00, 0x00]) ==
      [0x66, 0xe9, 0x4b, 0xd4, 0xef, 0x8a, 0x2c, 0x3b, 0x88, 0x4c, 0xfa, 0x59, 0xca, 0x34, 0x2b, 0x2e]
  {
    hide EncryptOctets, State, RoundOf, KeyColumns, RoundKeys;
    var x: block :=
      [0x00, 0x00, 0x00, 0x00, 0x00, 0x00, 0x00, 0x00, 0x00, 0x00, 0x00, 0x00, 0x00, 0x00, 0x00, 0x00];
    FirstState(x);
    KeyValues();
    StateValue3a();
    NextState(x, 1);
    StateValue3b();
    NextState(x, 2);
    StateValue3c();
    NextState(x, 3);
    StateValue3d();
    NextState(x, 4);
    StateValue3e();
    NextState(x, 5);
    StateValue3f();
    NextState(x, 6);
    StateValue3g();
    NextState(x, 7);
    StateValue3h();
    NextState(x, 8);
    StateValue3i();
    NextState(x, 9);
    StateValue3j();
    NextState(x, 10);
    Outcome(x,
      [0x66, 0xe9, 0x4b, 0xd4, 0xef, 0x8a, 0x2c, 0x3b, 0x88, 0x4c, 0xfa, 0x59, 0xca, 0x34, 0x2b, 0x2e]);
  }
}
