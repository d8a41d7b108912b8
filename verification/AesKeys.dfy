/**
 The key schedule of section 5.2 of FIPS 197, and generateSubKeys_impl, which fills a
 flat array of words.
 */
module AesKeys {
  import opened Bytes
  import opened AesTables
  import opened AesRounds

  /** RotWord, SubWord and the sum of words of section 5.2 of FIPS 197. */
  function RotWord(w: seq<byte>): seq<byte>
    requires |w| == 4
  {
    [w[1], w[2], w[3], w[0]]
  }

  /** The word as a number of 32 bits, the first octet on top. */
  function AsNumber(w: seq<byte>): bv32
    requires |w| == 4
  {
    (w[0] as bv32 << 24) | (w[1] as bv32 << 16) | (w[2] as bv32 << 8) | w[3] as bv32
  }

  /** It is a rotation to the left by one octet. */
  lemma RotWordRotates(w: seq<byte>)
    requires |w| == 4
    ensures AsNumber(RotWord(w)) == AsNumber(w).RotateLeft(8)
  {
  }

  function SubWord(w: seq<byte>): seq<byte>
    requires |w| == 4
  {
    [SBox(w[0]), SBox(w[1]), SBox(w[2]), SBox(w[3])]
  }

  function SumOfWords(v: seq<byte>, w: seq<byte>): seq<byte>
    requires |v| == |w| == 4
  {
    seq(4, k requires 0 <= k < 4 => Plus(v[k], w[k]))
  }

  /** The round constant: a power of x in GF(2^8). */
  function RoundConstant(j: nat): byte {
    if j <= 1 then 1 else Times(2, RoundConstant(j - 1))
  }

  const RCON: seq<byte> := [0x01, 0x02, 0x04, 0x08, 0x10, 0x20, 0x40, 0x80, 0x1b, 0x36]

  lemma {:induction false} RconTable(j: nat)
    requires 1 <= j <= 10
    ensures RCON[j - 1] == RoundConstant(j)
  {
    if j != 1 {
      RconTable(j - 1);
      ForwardProducts(RoundConstant(j - 1));
    }
  }

  /** The word that is added to word i - Nk: the previous word, rotated and substituted where i says so. */
  function Mixed(t: seq<byte>, nk: nat, i: nat): (w: seq<byte>)
    requires 0 < nk && |t| == 4
    ensures |w| == 4
  {
    if i % nk == 0 then SumOfWords(SubWord(RotWord(t)), [RoundConstant(i / nk), 0, 0, 0])
    else if nk > 6 && i % nk == 4 then SubWord(t)
    else t
  }

  /** Word i of the key expansion of section 5.2 of FIPS 197. */
  function KeyWord(key: seq<byte>, nk: nat, i: nat): (w: seq<byte>)
    requires 0 < nk && |key| == 4 * nk
    ensures |w| == 4
  {
    if i < nk then key[4 * i..4 * i + 4]
    else SumOfWords(KeyWord(key, nk, i - nk), Mixed(KeyWord(key, nk, i - 1), nk, i))
  }

  function RoundKey(key: seq<byte>, nk: nat, k: nat): block
    requires 0 < nk && |key| == 4 * nk
  {
    KeyWord(key, nk, 4 * k) + KeyWord(key, nk, 4 * k + 1) + KeyWord(key, nk, 4 * k + 2) + KeyWord(key, nk, 4 * k + 3)
  }

  /** The Nr + 1 round keys, where Nr is Nk + 6. */
  function RoundKeys(key: seq<byte>, nk: nat): (keys: seq<block>)
    requires 0 < nk && |key| == 4 * nk
    ensures |keys| == nk + 7
  {
    seq(nk + 7, k requires 0 <= k < nk + 7 => RoundKey(key, nk, k))
  }

  method RotWordInPlace(temp: array<byte>)
    requires temp.Length == 4
    modifies temp
    ensures temp[..] == RotWord(old(temp[..]))
  {
    var t := temp[0];
    temp[0] := temp[1];
    temp[1] := temp[2];
    temp[2] := temp[3];
    temp[3] := t;
  }

  method SubWordInPlace(temp: array<byte>)
    requires temp.Length == 4
    modifies temp
    ensures temp[..] == SubWord(old(temp[..]))
  {
    hide SBox;
    temp[0] := SBox(temp[0]);
    temp[1] := SBox(temp[1]);
    temp[2] := SBox(temp[2]);
    temp[3] := SBox(temp[3]);
  }

  method MixInPlace(temp: array<byte>, nk: nat, i: nat)
    requires temp.Length == 4 && (nk == 4 || nk == 8) && nk <= i < 4 * (nk + 7)
    modifies temp
    ensures temp[..] == Mixed(old(temp[..]), nk, i)
  {
    hide SubWord, RotWord, RoundConstant;
    if i % nk == 0 {
      RotWordInPlace(temp);
      SubWordInPlace(temp);
      ghost var t := temp[..];
      RconTable(i / nk);
      temp[0] := temp[0] ^ RCON[i / nk - 1];
      SumWithConstant(t, RoundConstant(i / nk));
    } else if nk > 6 {
      if i % nk == 4 {
        SubWordInPlace(temp);
      }
    }
  }

  lemma SumWithConstant(t: seq<byte>, c: byte)
    requires |t| == 4
    ensures SumOfWords(t, [c, 0, 0, 0]) == t[0 := t[0] ^ c]
  {
  }

  /** Entry p of the flat array belongs to word p / 4. */
  ghost predicate HoldsWords(w: seq<byte>, key: seq<byte>, nk: nat, n: nat)
    requires 0 < nk && |key| == 4 * nk
  {
    4 * n <= |w| && forall p :: 0 <= p < 4 * n ==> w[p] == KeyWord(key, nk, p / 4)[p % 4]
  }

  lemma WordHeld(w: seq<byte>, key: seq<byte>, nk: nat, n: nat, j: nat)
    requires 0 < nk && |key| == 4 * nk && HoldsWords(w, key, nk, n) && j < n
    ensures w[4 * j..4 * j + 4] == KeyWord(key, nk, j)
  {
    hide KeyWord;
    forall b | 0 <= b < 4
      ensures w[4 * j + b] == KeyWord(key, nk, j)[b]
    {
      assert (4 * j + b) / 4 == j && (4 * j + b) % 4 == b;
    }
  }

  lemma WordAdded(v: seq<byte>, w: seq<byte>, key: seq<byte>, nk: nat, n: nat)
    requires 0 < nk && |key| == 4 * nk && HoldsWords(v, key, nk, n) && |w| == |v| >= 4 * n + 4
    requires w[..4 * n] == v[..4 * n] && w[4 * n..4 * n + 4] == KeyWord(key, nk, n)
    ensures HoldsWords(w, key, nk, n + 1)
  {
    hide KeyWord;
    forall p | 0 <= p < 4 * n + 4
      ensures w[p] == KeyWord(key, nk, p / 4)[p % 4]
    {
      if p < 4 * n {
        assert w[p] == w[..4 * n][p] == v[..4 * n][p] == v[p];
      } else {
        assert p / 4 == n && p % 4 == p - 4 * n;
        assert w[p] == w[4 * n..4 * n + 4][p - 4 * n];
      }
    }
  }

  method LoadWord(w: array<byte>, j: nat, temp: array<byte>)
    requires temp.Length == 4 && temp != w && 4 * j + 4 <= w.Length
    modifies temp
    ensures temp[..] == w[4 * j..4 * j + 4]
  {
    for k := 0 to 4
      invariant forall b :: 0 <= b < k ==> temp[b] == w[4 * j + b]
    {
      temp[k] := w[4 * j + k];
    }
  }

  /** Word i becomes the sum of word j and the temporary word. */
  method StoreSum(w: array<byte>, i: nat, j: nat, temp: array<byte>)
    requires temp.Length == 4 && temp != w && j < i && 4 * i + 4 <= w.Length
    modifies w
    ensures w[..4 * i] == old(w[..4 * i])
    ensures w[4 * i..4 * i + 4] == SumOfWords(old(w[4 * j..4 * j + 4]), temp[..])
  {
    for k := 0 to 4
      invariant forall b :: 0 <= b < 4 * i ==> w[b] == old(w[b])
      invariant forall b :: 0 <= b < k ==> w[4 * i + b] == Plus(old(w[4 * j + b]), temp[b])
    {
      hide Plus;
      w[4 * i + k] := Plus(w[4 * j + k], temp[k]);
    }
    hide Plus;
    forall b | 0 <= b < 4
      ensures w[4 * i + b] == Plus(old(w[4 * j..4 * j + 4])[b], temp[..][b])
    {
    }
  }

  /** Word i from the previous word and word i - Nk. */
  method ExpandWord(key: seq<byte>, nk: nat, w: array<byte>, temp: array<byte>, i: nat)
    requires (nk == 4 || nk == 8) && |key| == 4 * nk
    requires temp.Length == 4 && temp != w && w.Length == 16 * (nk + 7) && nk <= i < 4 * (nk + 7)
    requires HoldsWords(w[..], key, nk, i)
    modifies w, temp
    ensures HoldsWords(w[..], key, nk, i + 1)
  {
    hide KeyWord, Mixed, HoldsWords, SumOfWords;
    ghost var before := w[..];
    WordHeld(before, key, nk, i, i - 1);
    WordHeld(before, key, nk, i, i - nk);
    LoadWord(w, i - 1, temp);
    MixInPlace(temp, nk, i);
    StoreSum(w, i, i - nk, temp);
    KeyWordStep(key, nk, i);
    WordAdded(before, w[..], key, nk, i);
  }

  lemma KeyWordStep(key: seq<byte>, nk: nat, i: nat)
    requires 0 < nk <= i && |key| == 4 * nk
    ensures KeyWord(key, nk, i) == SumOfWords(KeyWord(key, nk, i - nk), Mixed(KeyWord(key, nk, i - 1), nk, i))
  {
  }

  method GenerateSubKeys(key: seq<byte>, nk: nat) returns (subKeys: seq<block>)
    requires (nk == 4 || nk == 8) && |key| == 4 * nk
    ensures subKeys == RoundKeys(key, nk)
  {
    hide KeyWord, HoldsWords, RoundKey;
    var words := 4 * (nk + 7);
    var w, temp := new byte[4 * words], new byte[4];
    for k := 0 to 4 * nk
      invariant forall j :: 0 <= j < k ==> w[j] == key[j]
    {
      w[k] := key[k];
    }
    KeyHeld(w[..], key, nk);
    var i := nk;
    while i < words
      invariant nk <= i <= words
      invariant HoldsWords(w[..], key, nk, i)
    {
      ExpandWord(key, nk, w, temp, i);
      i := i + 1;
    }
    subKeys := [];
    for k := 0 to nk + 7
      invariant |subKeys| == k && HoldsWords(w[..], key, nk, words)
      invariant forall j :: 0 <= j < k ==> subKeys[j] == RoundKey(key, nk, j)
    {
      GroupHeld(w[..], key, nk, words, k);
      subKeys := subKeys + [w[16 * k..16 * k + 16]];
    }
  }

  lemma KeyHeld(w: seq<byte>, key: seq<byte>, nk: nat)
    requires 0 < nk && |key| == 4 * nk <= |w| && forall j :: 0 <= j < 4 * nk ==> w[j] == key[j]
    ensures HoldsWords(w, key, nk, nk)
  {
  }

  lemma GroupHeld(w: seq<byte>, key: seq<byte>, nk: nat, n: nat, k: nat)
    requires 0 < nk && |key| == 4 * nk && HoldsWords(w, key, nk, n) && 4 * k + 4 <= n
    ensures w[16 * k..16 * k + 16] == RoundKey(key, nk, k)
  {
    hide KeyWord, HoldsWords;
    WordsFit(w, key, nk, n);
    FourWords(w, 16 * k);
    WordHeld(w, key, nk, n, 4 * k);
    WordHeld(w, key, nk, n, 4 * k + 1);
    WordHeld(w, key, nk, n, 4 * k + 2);
    WordHeld(w, key, nk, n, 4 * k + 3);
  }

  lemma FourWords(w: seq<byte>, at: nat)
    requires at + 16 <= |w|
    ensures w[at..at + 16] == w[at..at + 4] + w[at + 4..at + 8] + w[at + 8..at + 12] + w[at + 12..at + 16]
  {
    assert w[at..at + 8] == w[at..at + 4] + w[at + 4..at + 8];
    assert w[at..at + 12] == w[at..at + 8] + w[at + 8..at + 12];
    assert w[at..at + 16] == w[at..at + 12] + w[at + 12..at + 16];
  }

  lemma WordsFit(w: seq<byte>, key: seq<byte>, nk: nat, n: nat)
    requires 0 < nk && |key| == 4 * nk && HoldsWords(w, key, nk, n)
    ensures 4 * n <= |w|
  {
  }

  // The examples of appendices A.1 and A.3 of FIPS 197.

  const KEY128: seq<byte> :=
    [0x2b, 0x7e, 0x15, 0x16, 0x28, 0xae, 0xd2, 0xa6, 0xab, 0xf7, 0x15, 0x88, 0x09, 0xcf, 0x4f, 0x3c]

  const KEY256: seq<byte> :=
    [0x60, 0x3d, 0xeb, 0x10, 0x15, 0xca, 0x71, 0xbe, 0x2b, 0x73, 0xae, 0xf0, 0x85, 0x7d, 0x77, 0x81]
    + [0x1f, 0x35, 0x2c, 0x07, 0x3b, 0x61, 0x08, 0xd7, 0x2d, 0x98, 0x10, 0xa3, 0x09, 0x14, 0xdf, 0xf4]

  lemma SumIs(v: seq<byte>, w: seq<byte>, sum: seq<byte>)
    requires |v| == |w| == |sum| == 4
    requires Plus(v[0], w[0]) == sum[0] && Plus(v[1], w[1]) == sum[1]
    requires Plus(v[2], w[2]) == sum[2] && Plus(v[3], w[3]) == sum[3]
    ensures SumOfWords(v, w) == sum
  {
    hide Plus;
  }

  /** The word behind a rotated and substituted one. */
  lemma RotatedWord(key: seq<byte>, nk: nat, i: nat, v: seq<byte>, t: seq<byte>, m: seq<byte>, w: seq<byte>)
    requires 0 < nk <= i && |key| == 4 * nk && |v| == |t| == |m| == |w| == 4 && i % nk == 0 && i / nk <= 1
    requires KeyWord(key, nk, i - nk) == v && KeyWord(key, nk, i - 1) == t
    requires m == [Plus(SBox(t[1]), 1), SBox(t[2]), SBox(t[3]), SBox(t[0])]
    requires w == [Plus(v[0], m[0]), Plus(v[1], m[1]), Plus(v[2], m[2]), Plus(v[3], m[3])]
    ensures KeyWord(key, nk, i) == w
  {
    hide SBox;
    KeyWordStep(key, nk, i);
    SumIs(SubWord(RotWord(t)), [1, 0, 0, 0], m);
    SumIs(v, m, w);
  }

  lemma Word4()
    ensures KeyWord(KEY128, 4, 4) == [0xa0, 0xfa, 0xfe, 0x17]
  {
    assert KeyWord(KEY128, 4, 0) == [0x2b, 0x7e, 0x15, 0x16];
    assert KeyWord(KEY128, 4, 3) == [0x09, 0xcf, 0x4f, 0x3c];
    hide KeyWord;
    RotatedWord(KEY128, 4, 4, [0x2b, 0x7e, 0x15, 0x16], [0x09, 0xcf, 0x4f, 0x3c], [0x8b, 0x84, 0xeb, 0x01],
      [0xa0, 0xfa, 0xfe, 0x17]);
  }

  /** A word behind an unchanged one. */
  lemma PlainWord(key: seq<byte>, nk: nat, i: nat, v: seq<byte>, t: seq<byte>, w: seq<byte>)
    requires 0 < nk <= i && |key| == 4 * nk && |v| == |t| == |w| == 4 && i % nk != 0 && (nk <= 6 || i % nk != 4)
    requires KeyWord(key, nk, i - nk) == v && KeyWord(key, nk, i - 1) == t
    requires w == [Plus(v[0], t[0]), Plus(v[1], t[1]), Plus(v[2], t[2]), Plus(v[3], t[3])]
    ensures KeyWord(key, nk, i) == w
  {
    KeyWordStep(key, nk, i);
    SumIs(v, t, w);
  }

  /** A word behind one that is only substituted, as keys of eight words have it. */
  lemma SubstitutedWord(key: seq<byte>, nk: nat, i: nat, v: seq<byte>, t: seq<byte>, m: seq<byte>, w: seq<byte>)
    requires 6 < nk <= i && |key| == 4 * nk && |v| == |t| == |m| == |w| == 4 && i % nk == 4
    requires KeyWord(key, nk, i - nk) == v && KeyWord(key, nk, i - 1) == t
    requires m == [SBox(t[0]), SBox(t[1]), SBox(t[2]), SBox(t[3])]
    requires w == [Plus(v[0], m[0]), Plus(v[1], m[1]), Plus(v[2], m[2]), Plus(v[3], m[3])]
    ensures KeyWord(key, nk, i) == w
  {
    hide SBox;
    KeyWordStep(key, nk, i);
    SumIs(v, m, w);
  }

  lemma GivenWords()
    ensures |KEY256| == 32
    ensures KeyWord(KEY256, 8, 0) == [0x60, 0x3d, 0xeb, 0x10]
    ensures KeyWord(KEY256, 8, 1) == [0x15, 0xca, 0x71, 0xbe]
    ensures KeyWord(KEY256, 8, 2) == [0x2b, 0x73, 0xae, 0xf0]
    ensures KeyWord(KEY256, 8, 3) == [0x85, 0x7d, 0x77, 0x81]
    ensures KeyWord(KEY256, 8, 4) == [0x1f, 0x35, 0x2c, 0x07]
    ensures KeyWord(KEY256, 8, 7) == [0x09, 0x14, 0xdf, 0xf4]
  {
    var first: seq<byte> :=
      [0x60, 0x3d, 0xeb, 0x10, 0x15, 0xca, 0x71, 0xbe, 0x2b, 0x73, 0xae, 0xf0, 0x85, 0x7d, 0x77, 0x81];
    var second: seq<byte> :=
      [0x1f, 0x35, 0x2c, 0x07, 0x3b, 0x61, 0x08, 0xd7, 0x2d, 0x98, 0x10, 0xa3, 0x09, 0x14, 0xdf, 0xf4];
    assert KEY256 == first + second;
    assert KEY256[16..20] == second[..4] && KEY256[28..32] == second[12..];
  }

  lemma Words8And12()
    ensures KeyWord(KEY256, 8, 8) == [0x9b, 0xa3, 0x54, 0x11] && KeyWord(KEY256, 8, 12) == [0xa8, 0xb0, 0x9c, 0x1a]
  {
    hide KeyWord, KEY256;
    GivenWords();
    RotatedWord(KEY256, 8, 8, [0x60, 0x3d, 0xeb, 0x10], [0x09, 0x14, 0xdf, 0xf4],
      [0xfb, 0x9e, 0xbf, 0x01], [0x9b, 0xa3, 0x54, 0x11]);
    PlainWord(KEY256, 8, 9, [0x15, 0xca, 0x71, 0xbe], [0x9b, 0xa3, 0x54, 0x11], [0x8e, 0x69, 0x25, 0xaf]);
    PlainWord(KEY256, 8, 10, [0x2b, 0x73, 0xae, 0xf0], [0x8e, 0x69, 0x25, 0xaf], [0xa5, 0x1a, 0x8b, 0x5f]);
    PlainWord(KEY256, 8, 11, [0x85, 0x7d, 0x77, 0x81], [0xa5, 0x1a, 0x8b, 0x5f], [0x20, 0x67, 0xfc, 0xde]);
    SubstitutedWord(KEY256, 8, 12, [0x1f, 0x35, 0x2c, 0x07], [0x20, 0x67, 0xfc, 0xde],
      [0xb7, 0x85, 0xb0, 0x1d], [0xa8, 0xb0, 0x9c, 0x1a]);
  }
}
