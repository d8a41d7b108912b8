/**
 BitSet: a sequence of bits packed into 64-bit words; bits behind the last one may hold anything.
 */
module BitSets {
  import opened Bytes
  import opened WordBits

  function WordsFor(bits: nat): nat {
    bits / 64 + if bits % 64 != 0 then 1 else 0
  }

  /** The visible bits. */
  ghost function View(words: seq<word>, bits: nat): (s: seq<bool>)
    requires |words| == WordsFor(bits)
    ensures |s| == bits
  {
    seq(bits, j requires 0 <= j < bits => Bit(words[j / 64], j % 64))
  }

  function Reversed(s: seq<bool>): (r: seq<bool>)
    ensures |r| == |s|
  {
    seq(|s|, j requires 0 <= j < |s| => s[|s| - 1 - j])
  }

  function Inverted(s: seq<bool>): (r: seq<bool>)
    ensures |r| == |s|
  {
    seq(|s|, j requires 0 <= j < |s| => !s[j])
  }

  lemma ReversedTwice(s: seq<bool>)
    ensures Reversed(Reversed(s)) == s
  {
  }

  /** Turning the bits over and changing their direction do not disturb each other. */
  lemma InvertedReversed(s: seq<bool>)
    ensures Inverted(Reversed(s)) == Reversed(Inverted(s))
  {
  }

  ghost predicate IsReverse(r: word, w: word) {
    forall k :: 0 <= k < 64 ==> Bit(r, k) == Bit(w, 63 - k)
  }

  /** The part of a reversed word that stays below bit q. */
  lemma HighPart(r: word, w: word, q: nat, k: nat)
    requires IsReverse(r, w) && 0 < q < 64 && k < 64
    ensures Bit(ShiftRight(r, 64 - q), k) == (k < q && Bit(w, q - 1 - k))
  {
    hide Bit;
    BitShiftedRight(r, 64 - q, k);
    if q <= k {
      NoBit(r, 64 - q + k);
    }
  }

  /** The part that goes from bit q on. */
  lemma LowPart(r: word, w: word, q: nat, k: nat)
    requires IsReverse(r, w) && 0 < q < 64 && k < 64
    ensures Bit(ShiftLeft(r, q), k) == (q <= k && Bit(w, 63 + q - k))
  {
    hide Bit;
    BitShiftedLeft(r, q, k);
  }

  /** Bit k of word i of the result, when the words below index have been written. */
  ghost predicate ResultBit(words: seq<word>, q: nat, i: nat, index: nat, k: nat)
    requires i < index <= |words| && q <= 64 && k < 64
  {
    if k < q then Bit(words[|words| - 1 - i], q - 1 - k)
    else i + 1 < index && Bit(words[|words| - 2 - i], 63 + q - k)
  }

  ghost predicate WordDone(t: word, words: seq<word>, q: nat, i: nat, index: nat)
    requires i < index <= |words| && q <= 64
  {
    forall k :: 0 <= k < 64 ==> Bit(t, k) == ResultBit(words, q, i, index, k)
  }

  /** The state of the loop with shifts: words below index are done, the others are zero. */
  ghost predicate Progress(temp: seq<word>, words: seq<word>, q: nat, index: nat)
    requires index <= |words| == |temp| && q <= 64
  {
    && (forall i :: 0 <= i < index ==> WordDone(temp[i], words, q, i, index))
    && (forall i :: index <= i < |temp| ==> temp[i] == 0)
  }

  lemma FirstWord(r: word, words: seq<word>, q: nat)
    requires 0 < q < 64 && 0 < |words| && IsReverse(r, words[|words| - 1])
    ensures WordDone(ShiftRight(r, 64 - q), words, q, 0, 1)
  {
    hide Bit;
    forall k | 0 <= k < 64
      ensures Bit(ShiftRight(r, 64 - q), k) == ResultBit(words, q, 0, 1, k)
    {
      HighPart(r, words[|words| - 1], q, k);
    }
  }

  /** The next word goes into the free upper bits of the word before and the lower bits of its own. */
  lemma NextWords(t: word, r: word, words: seq<word>, q: nat, index: nat)
    requires 0 < q < 64 && 0 < index < |words| && IsReverse(r, words[|words| - 1 - index])
    requires WordDone(t, words, q, index - 1, index)
    ensures WordDone(Or(t, ShiftLeft(r, q)), words, q, index - 1, index + 1)
    ensures WordDone(Or(0, ShiftRight(r, 64 - q)), words, q, index, index + 1)
  {
    hide Bit, Or;
    forall k | 0 <= k < 64
      ensures Bit(Or(t, ShiftLeft(r, q)), k) == ResultBit(words, q, index - 1, index + 1, k)
    {
      LowPart(r, words[|words| - 1 - index], q, k);
      BitOr(t, ShiftLeft(r, q), k);
      assert Bit(t, k) == ResultBit(words, q, index - 1, index, k);
    }
    var low := Or(0, ShiftRight(r, 64 - q));
    forall k | 0 <= k < 64
      ensures Bit(low, k) == ResultBit(words, q, index, index + 1, k)
    {
      HighPart(r, words[|words| - 1 - index], q, k);
      BitOr(0, ShiftRight(r, 64 - q), k);
      ZeroBits(k);
    }
  }

  lemma ProgressStep(temp: seq<word>, words: seq<word>, r: word, q: nat, index: nat)
    requires 0 < q < 64 && 0 < index < |words| == |temp| && IsReverse(r, words[|words| - 1 - index])
    requires Progress(temp, words, q, index)
    ensures Progress(
      temp[index - 1 := Or(temp[index - 1], ShiftLeft(r, q))][index := Or(temp[index], ShiftRight(r, 64 - q))],
      words, q, index + 1)
  {
    hide Bit, Or, ResultBit, WordDone;
    NextWords(temp[index - 1], r, words, q, index);
    var next := index + 1;
    forall i | 0 <= i < index - 1
      ensures WordDone(temp[i], words, q, i, next)
    {
      DoneStays(temp[i], words, q, i, index);
    }
  }

  lemma DoneStays(t: word, words: seq<word>, q: nat, i: nat, index: nat)
    requires i + 1 < index < |words| && q <= 64 && WordDone(t, words, q, i, index)
    ensures WordDone(t, words, q, i, index + 1)
  {
    hide Bit;
    forall k | 0 <= k < 64
      ensures Bit(t, k) == ResultBit(words, q, i, index + 1, k)
    {
      assert Bit(t, k) == ResultBit(words, q, i, index, k);
    }
  }

  /** With every word done, visible bit j is the old bit bits - 1 - j; padding is not looked at. */
  lemma AllDone(temp: seq<word>, words: seq<word>, bits: nat, q: nat)
    requires |words| == |temp| == WordsFor(bits) && q == (if bits % 64 == 0 then 64 else bits % 64)
    requires Progress(temp, words, q, |words|)
    ensures View(temp, bits) == Reversed(View(words, bits))
  {
    hide Bit, Progress;
    forall j | 0 <= j < bits
      ensures View(temp, bits)[j] == View(words, bits)[bits - 1 - j]
    {
      BitDone(temp, words, q, j / 64, j % 64);
      Mirrored(bits, q, j);
    }
  }

  lemma BitDone(temp: seq<word>, words: seq<word>, q: nat, i: nat, k: nat)
    requires i < |words| == |temp| && q <= 64 && k < 64 && Progress(temp, words, q, |words|)
    ensures Bit(temp[i], k) == ResultBit(words, q, i, |words|, k)
  {
    hide Bit, ResultBit;
    assert WordDone(temp[i], words, q, i, |words|);
  }

  lemma Mirrored(bits: nat, q: nat, j: nat)
    requires j < bits && q == if bits % 64 == 0 then 64 else bits % 64
    ensures var m, i, k := WordsFor(bits), j / 64, j % 64;
      var (w, b) := ((bits - 1 - j) / 64, (bits - 1 - j) % 64);
      && i < m
      && (k < q ==> w == m - 1 - i && b == q - 1 - k)
      && (k >= q ==> i + 1 < m && w == m - 2 - i && b == 63 + q - k)
  {
    var m, i, k := WordsFor(bits), j / 64, j % 64;
    assert bits == 64 * (m - 1) + q;
    if k < q {
      assert bits - 1 - j == 64 * (m - 1 - i) + (q - 1 - k);
    } else {
      assert bits - 1 - j == 64 * (m - 2 - i) + (63 + q - k);
    }
  }

  /** The bits of octets, lowest first. */
  function OctetBitsOf(data: seq<byte>): (s: seq<bool>)
    ensures |s| == 8 * |data|
  {
    seq(8 * |data|, j requires 0 <= j < 8 * |data| => Flag(data[j / 8], j % 8))
  }

  /** n octets have been put into a word. */
  ghost predicate Filled(v: word, data: seq<byte>, n: nat)
    requires n <= |data| <= 8
  {
    forall k :: 0 <= k < 64 ==> Bit(v, k) == (k / 8 < n && Flag(data[k / 8], k % 8))
  }

  /** Bit k of an octet at octet n of a word. */
  lemma BitOfPlaced(b: byte, n: nat, k: nat)
    requires k < 64
    ensures Bit(ShiftLeft(Wide(b), n * 8), k) == (k / 8 == n && Flag(b, k % 8))
  {
    hide Bit, Wide, Flag;
    BitShiftedLeft(Wide(b), n * 8, k);
    if n * 8 <= k < n * 8 + 8 {
      FlagIsBit(b, k - n * 8);
    } else if n * 8 + 8 <= k {
      WideIsLow(b, k - n * 8);
    }
  }

  lemma FillStep(v: word, data: seq<byte>, n: nat)
    requires n < |data| <= 8 && Filled(v, data, n)
    ensures Filled(Or(v, ShiftLeft(Wide(data[n]), n * 8)), data, n + 1)
  {
    hide Bit, Or, Wide, Flag, ShiftLeft;
    var placed := ShiftLeft(Wide(data[n]), n * 8);
    forall k | 0 <= k < 64
      ensures Bit(Or(v, placed), k) == (k / 8 < n + 1 && Flag(data[k / 8], k % 8))
    {
      BitOr(v, placed, k);
      BitOfPlaced(data[n], n, k);
      assert Bit(v, k) == (k / 8 < n && Flag(data[k / 8], k % 8));
    }
  }

  /** fill64: up to eight octets, the first lowest. */
  method Fill64(data: seq<byte>) returns (v: word)
    requires |data| <= 8
    ensures Filled(v, data, |data|)
  {
    hide Bit, Filled, Or, Wide;
    v := 0;
    NothingFilled(data);
    for k := 0 to |data|
      invariant Filled(v, data, k)
    {
      FillStep(v, data, k);
      v := Or(v, ShiftLeft(Wide(data[k]), k * 8));
    }
  }

  lemma NothingFilled(data: seq<byte>)
    requires |data| <= 8
    ensures Filled(0, data, 0)
  {
    hide Bit;
    forall k | 0 <= k < 64
      ensures !Bit(0, k)
    {
      ZeroBits(k);
    }
  }

  class BitSet {
    var words: seq<word>
    var bits: nat

    ghost predicate Valid()
      reads this
    {
      |words| == WordsFor(bits)
    }

    constructor (bitsNumber: nat)
      ensures Valid() && bits == bitsNumber
      ensures View(words, bits) == seq(bitsNumber, j => false)
    {
      words := seq(WordsFor(bitsNumber), i => 0);
      bits := bitsNumber;
      new;
      forall j | 0 <= j < bits
        ensures !View(words, bits)[j]
      {
        ZeroBits(j % 64);
      }
    }

    /** Eight octets a word, and the rest in the last one. */
    constructor FromOctets(data: seq<byte>)
      ensures Valid() && bits == 8 * |data|
      ensures View(words, bits) == OctetBitsOf(data)
    {
      words := seq(WordsFor(8 * |data|), i => 0);
      bits := 8 * |data|;
      new;
      hide View, Bit, WordFilled, Filled;
      var mainChunks, lastChunk := |data| / 8, |data| % 8;
      for i := 0 to mainChunks
        invariant |words| == WordsFor(8 * |data|) && bits == 8 * |data|
        invariant forall m :: 0 <= m < i ==> WordFilled(words[m], data, m)
      {
        var v := Fill64(data[8 * i..8 * i + 8]);
        FilledAt(v, data, i, data[8 * i..8 * i + 8]);
        words := words[i := v];
      }
      if lastChunk != 0 {
        var v := Fill64(data[8 * mainChunks..]);
        FilledAt(v, data, mainChunks, data[8 * mainChunks..]);
        words := words[|words| - 1 := v];
      }
      AllFilled(words, data);
    }

    /** One bit a character. */
    constructor FromText(text: seq<byte>)
      ensures Valid() && bits == |text|
      ensures View(words, bits) == TextBits(text)
    {
      words := seq(WordsFor(|text|), i => 0);
      bits := |text|;
      new;
      hide View, Bit, Binary, Spelled;
      var mainChunks, lastChunk := |text| / 64, |text| % 64;
      for i := 0 to mainChunks
        invariant |words| == WordsFor(|text|) && bits == |text|
        invariant forall m :: 0 <= m < i ==> WordSpelled(words[m], text, m)
      {
        var v := Fill64Bin(text[64 * i..64 * i + 64]);
        words := words[i := v];
      }
      if lastChunk != 0 {
        var v := Fill64Bin(text[64 * mainChunks..]);
        words := words[|words| - 1 := v];
      }
      AllSpelled(words, text);
    }

    function Test(bitNumber: nat): (b: bool)
      requires Valid()
      reads this
      ensures b == (bitNumber < bits && View(words, bits)[bitNumber])
    {
      if bitNumber >= bits then false else Odd(ShiftRight(words[bitNumber / 64], bitNumber % 64))
    }

    /** Writing a bit changes that bit and no other; a number outside is ignored. */
    method Set(bitNumber: nat, b: bool)
      requires Valid()
      modifies this`words
      ensures Valid()
      ensures View(words, bits)
        == if bitNumber < bits then old(View(words, bits))[bitNumber := b] else old(View(words, bits))
    {
      hide Bit, Assigned;
      if bitNumber >= bits {
        return;
      }
      var i, k := bitNumber / 64, bitNumber % 64;
      WordSet(words[i], k, b);
      ViewUpdated(words, bits, bitNumber, Assigned(words[i], k, b), b);
      words := words[i := Assigned(words[i], k, b)];
    }

    method Inverse()
      requires Valid()
      modifies this`words
      ensures Valid()
      ensures View(words, bits) == Inverted(old(View(words, bits)))
    {
      hide Bit, Not;
      ghost var before := words;
      for i := 0 to |words|
        invariant |words| == |before|
        invariant forall m :: 0 <= m < i ==> words[m] == Not(before[m])
        invariant forall m :: i <= m < |words| ==> words[m] == before[m]
      {
        words := words[i := Not(words[i])];
      }
      forall j | 0 <= j < bits
        ensures View(words, bits)[j] == !View(before, bits)[j]
      {
        BitNot(before[j / 64], j % 64);
      }
    }

    /** The visible bits change direction, whatever the padding holds. */
    method Reverse()
      requires Valid()
      modifies this`words
      ensures Valid() && View(words, bits) == Reversed(old(View(words, bits)))
    {
      hide Progress, View, IsReverse;
      var requiredShift := bits % 64;
      if requiredShift != 0 {
        ReverseShifted(requiredShift);
      } else {
        ReverseWhole();
      }
    }

    method ReverseShifted(q: nat)
      requires Valid() && q == bits % 64 && q != 0
      modifies this`words
      ensures Valid() && View(words, bits) == Reversed(old(View(words, bits)))
    {
      hide Progress, View, IsReverse, Or, Bit;
      var temp: seq<word> := seq(|words|, i => 0);
      NoProgress(temp, words, q);
      var index: nat, it: nat := 0, |words|;
      while it > 0
        invariant words == old(words) && index + it == |words| == |temp|
        invariant Progress(temp, words, q, index)
      {
        it := it - 1;
        var reversed := Reverse64(words[it]);
        ReverseIs(reversed, words[it]);
        if index == 0 {
          FirstStep(temp, words, reversed, q);
          temp := temp[0 := ShiftRight(reversed, 64 - q)];
        } else {
          ProgressStep(temp, words, reversed, q, index);
          temp := temp[index - 1 := Or(temp[index - 1], ShiftLeft(reversed, q))];
          temp := temp[index := Or(temp[index], ShiftRight(reversed, 64 - q))];
        }
        index := index + 1;
      }
      AllDone(temp, words, bits, q);
      words := temp;
    }

    method ReverseWhole()
      requires Valid() && bits % 64 == 0
      modifies this`words
      ensures Valid() && View(words, bits) == Reversed(old(View(words, bits)))
    {
      hide Progress, View, IsReverse, Bit;
      var temp: seq<word> := seq(|words|, i => 0);
      NoProgress(temp, words, 64);
      var index: nat, it: nat := 0, |words|;
      while it > 0
        invariant words == old(words) && index + it == |words| == |temp|
        invariant Progress(temp, words, 64, index)
      {
        it := it - 1;
        var reversed := Reverse64(words[it]);
        ReverseIs(reversed, words[it]);
        WholeStep(temp, words, reversed, index);
        temp := temp[index := reversed];
        index := index + 1;
      }
      AllDone(temp, words, bits, 64);
      words := temp;
    }
  }

  lemma NoProgress(temp: seq<word>, words: seq<word>, q: nat)
    requires |temp| == |words| && q <= 64 && forall i :: 0 <= i < |temp| ==> temp[i] == 0
    ensures Progress(temp, words, q, 0)
  {
  }

  lemma ReverseIs(r: word, w: word)
    requires forall k :: 0 <= k < 64 ==> Bit(r, k) == Bit(w, 63 - k)
    ensures IsReverse(r, w)
  {
  }

  lemma FirstStep(temp: seq<word>, words: seq<word>, r: word, q: nat)
    requires 0 < q < 64 && 0 < |words| == |temp| && IsReverse(r, words[|words| - 1]) && Progress(temp, words, q, 0)
    ensures Progress(temp[0 := ShiftRight(r, 64 - q)], words, q, 1)
  {
    hide WordDone, IsReverse;
    FirstWord(r, words, q);
  }

  lemma WholeStep(temp: seq<word>, words: seq<word>, r: word, index: nat)
    requires index < |words| == |temp| && IsReverse(r, words[|words| - 1 - index]) && Progress(temp, words, 64, index)
    ensures Progress(temp[index := r], words, 64, index + 1)
  {
    hide Bit, WordDone, IsReverse;
    var next, after := index + 1, temp[index := r];
    forall i | 0 <= i < next
      ensures WordDone(after[i], words, 64, i, next)
    {
      WholeWord(after[i], words, i, next);
    }
  }

  lemma WholeWord(t: word, words: seq<word>, i: nat, next: nat)
    requires i < next <= |words|
    requires IsReverse(t, words[|words| - 1 - i]) || (i + 1 < next && WordDone(t, words, 64, i, next - 1))
    ensures WordDone(t, words, 64, i, next)
  {
    hide Bit;
    forall k | 0 <= k < 64
      ensures Bit(t, k) == ResultBit(words, 64, i, next, k)
    {
      if !IsReverse(t, words[|words| - 1 - i]) {
        assert Bit(t, k) == ResultBit(words, 64, i, next - 1, k);
      }
    }
  }

  function Assigned(w: word, k: nat, b: bool): word {
    if b then Or(w, ShiftLeft(1, k)) else And(w, Not(ShiftLeft(1, k)))
  }

  /** What set does to its word. */
  lemma WordSet(w: word, k: nat, b: bool)
    requires k < 64
    ensures forall j :: 0 <= j < 64 ==> Bit(Assigned(w, k, b), j) == if j == k then b else Bit(w, j)
  {
    hide Bit, Or, And, Not;
    forall j | 0 <= j < 64
      ensures Bit(Assigned(w, k, b), j) == if j == k then b else Bit(w, j)
    {
      BitOfOne(k, j);
      BitOr(w, ShiftLeft(1, k), j);
      BitNot(ShiftLeft(1, k), j);
      BitAnd(w, Not(ShiftLeft(1, k)), j);
    }
  }

  lemma ViewUpdated(words: seq<word>, bits: nat, n: nat, sub: word, b: bool)
    requires |words| == WordsFor(bits) && n < bits
    requires forall j :: 0 <= j < 64 ==> Bit(sub, j) == if j == n % 64 then b else Bit(words[n / 64], j)
    ensures View(words[n / 64 := sub], bits) == View(words, bits)[n := b]
  {
    hide Bit;
    var after := words[n / 64 := sub];
    forall j | 0 <= j < bits
      ensures View(after, bits)[j] == View(words, bits)[n := b][j]
    {
      assert Bit(sub, j % 64) == if j % 64 == n % 64 then b else Bit(words[n / 64], j % 64);
    }
  }

  /** Word i holds the octets from 8i on. */
  ghost predicate WordFilled(w: word, data: seq<byte>, i: nat) {
    forall k :: 0 <= k < 64 ==> Bit(w, k) == (8 * i + k / 8 < |data| && Flag(data[8 * i + k / 8], k % 8))
  }

  lemma FilledAt(w: word, data: seq<byte>, i: nat, part: seq<byte>)
    requires 8 * i + |part| <= |data| && part == data[8 * i..8 * i + |part|] && |part| <= 8
    requires |part| == 8 || 8 * i + |part| == |data|
    requires Filled(w, part, |part|)
    ensures WordFilled(w, data, i)
  {
    hide Bit, Flag;
  }

  lemma AllFilled(words: seq<word>, data: seq<byte>)
    requires |words| == WordsFor(8 * |data|) && forall i :: 0 <= i < |words| ==> WordFilled(words[i], data, i)
    ensures View(words, 8 * |data|) == OctetBitsOf(data)
  {
    hide Bit, Flag;
    forall j | 0 <= j < 8 * |data|
      ensures View(words, 8 * |data|)[j] == OctetBitsOf(data)[j]
    {
      assert WordFilled(words[j / 64], data, j / 64);
      assert 8 * (j / 64) + j % 64 / 8 == j / 8 && j % 64 % 8 == j % 8;
    }
  }

  const ZERO_DIGIT: byte := 0x30
  const ONE_DIGIT: byte := 0x31

  predicate Binary(text: seq<byte>) {
    forall k :: 0 <= k < |text| ==> text[k] == ZERO_DIGIT || text[k] == ONE_DIGIT
  }

  /** The 64 characters, or fewer at the end, that share a word with character j. */
  function Neighbours(text: seq<byte>, i: nat): (part: seq<byte>)
    requires 64 * i <= |text|
    ensures |part| <= 64
  {
    if 64 * i + 64 <= |text| then text[64 * i..64 * i + 64] else text[64 * i..]
  }

  /** The bits that a text spells: a word with any other character in it is all zero. */
  function TextBits(text: seq<byte>): (s: seq<bool>)
    ensures |s| == |text|
  {
    seq(|text|, j requires 0 <= j < |text| => text[j] == ONE_DIGIT && Binary(Neighbours(text, j / 64)))
  }

  /** A text of zeros and ones alone gives every character its bit. */
  lemma BinaryText(text: seq<byte>, j: nat)
    requires Binary(text) && j < |text|
    ensures TextBits(text)[j] == (text[j] == ONE_DIGIT)
  {
    var part := Neighbours(text, j / 64);
    forall k | 0 <= k < |part|
      ensures part[k] == ZERO_DIGIT || part[k] == ONE_DIGIT
    {
      assert part[k] == text[64 * (j / 64) + k];
    }
  }

  ghost predicate Spelled(v: word, text: seq<byte>, n: nat)
    requires n <= |text| <= 64
  {
    forall k :: 0 <= k < 64 ==> Bit(v, k) == (k < n && text[k] == ONE_DIGIT)
  }

  lemma SpellStep(v: word, text: seq<byte>, n: nat)
    requires n < |text| <= 64 && Spelled(v, text, n)
    ensures text[n] == ONE_DIGIT ==> Spelled(Or(v, ShiftLeft(1, n)), text, n + 1)
    ensures text[n] != ONE_DIGIT ==> Spelled(v, text, n + 1)
  {
    hide Bit, Or;
    forall k | 0 <= k < 64
      ensures Bit(Or(v, ShiftLeft(1, n)), k) == (Bit(v, k) || k == n)
    {
      BitOr(v, ShiftLeft(1, n), k);
      BitOfOne(n, k);
    }
  }

  lemma ZeroSpells(text: seq<byte>, n: nat)
    requires n == 0 && |text| <= 64
    ensures Spelled(0, text, n)
  {
    hide Bit;
    forall k | 0 <= k < 64
      ensures !Bit(0, k)
    {
      ZeroBits(k);
    }
  }

  /** fill64Bin. */
  method Fill64Bin(text: seq<byte>) returns (v: word)
    requires |text| <= 64
    ensures if Binary(text) then Spelled(v, text, |text|) else v == 0
  {
    hide Bit, Spelled, Or;
    v := 0;
    ZeroSpells(text, 0);
    for k := 0 to |text|
      invariant Spelled(v, text, k) && Binary(text[..k])
    {
      SpellStep(v, text, k);
      if text[k] == ONE_DIGIT {
        v := Or(v, ShiftLeft(1, k));
      } else if text[k] != ZERO_DIGIT {
        return 0;
      }
      assert text[..k + 1] == text[..k] + [text[k]];
    }
    assert text[..|text|] == text;
  }

  ghost predicate WordSpelled(w: word, text: seq<byte>, i: nat)
    requires 64 * i <= |text|
  {
    var part := Neighbours(text, i);
    if Binary(part) then Spelled(w, part, |part|) else w == 0
  }

  lemma AllSpelled(words: seq<word>, text: seq<byte>)
    requires |words| == WordsFor(|text|) && forall i :: 0 <= i < |words| ==> WordSpelled(words[i], text, i)
    ensures View(words, |text|) == TextBits(text)
  {
    hide Bit, Binary;
    forall j | 0 <= j < |text|
      ensures View(words, |text|)[j] == TextBits(text)[j]
    {
      var i, k := j / 64, j % 64;
      assert WordSpelled(words[i], text, i);
      assert Neighbours(text, i)[k] == text[j];
      ZeroBits(k);
    }
  }
}
