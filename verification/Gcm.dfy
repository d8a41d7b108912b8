/**
 aes_gcm.cpp: authenticated encryption in Galois/Counter Mode over AES-128, and how it
 relates to sections 6.4, 6.5, 7.1 and 7.2 of NIST SP 800-38D.
 */
module Gcm {
  import opened Arithmetic
  import opened Bytes
  import opened ByteBuffers
  import opened Gf128
  import opened Ghash
  import opened Counter
  import A = AesBuffers
  import K = AesKeys

  /** What the block cipher call leaves in a zeroed block: nothing when the key has a wrong size. */
  ghost function Cipher(key: seq<byte>, x: block): (y: block)
  {
    if |key| != 16 then Zeros(16) else EncryptedBlock(key, x)
  }

  ghost function EncryptedBlock(key: seq<byte>, x: block): (y: block)
    requires |key| == 16
  {
    A.SingleBlock(K.RoundKeys(key, 4), x);
    A.Encrypted(K.RoundKeys(key, 4), x)
  }

  /** The octets 24 to 0 of a bit count: n >> 24, n >> 16, n >> 8 and n, each cut to an octet. */
  function LowWord(n: nat): (w: seq<byte>)
    ensures |w| == 4
  {
    [(n / 0x100_0000 % 0x100) as byte, (n / 0x1_0000 % 0x100) as byte, (n / 0x100 % 0x100) as byte, (n % 0x100) as byte]
  }

  /** The length block of ghash: only 32 bits of each bit count are stored. */
  function LengthBlock(a: nat, c: nat): block {
    Zeros(4) + LowWord(8 * a % SIZE_MODULUS) + Zeros(4) + LowWord(8 * c % SIZE_MODULUS)
  }

  /** The two lengths in bits as 64-bit numbers, as section 6.4 has them. */
  function StandardLengthBlock(a: nat, c: nat): block {
    LowWord(8 * a / 0x1_0000_0000) + LowWord(8 * a) + LowWord(8 * c / 0x1_0000_0000) + LowWord(8 * c)
  }

  /** The four octets are the lowest 32 bits, the highest octet first. */
  lemma LowWordValue(n: nat)
    ensures BigEndian(LowWord(n), 4) == n % 0x1_0000_0000
  {
    var w := LowWord(n);
    OctetValue(n / 0x100_0000 % 0x100);
    OctetValue(n / 0x1_0000 % 0x100);
    OctetValue(n / 0x100 % 0x100);
    OctetValue(n % 0x100);
    FourOctets(w);
    Digits(n);
  }

  lemma FourOctets(w: seq<byte>)
    requires |w| == 4
    ensures BigEndian(w, 4) == 0x100_0000 * w[0] as int + 0x1_0000 * w[1] as int + 0x100 * w[2] as int + w[3] as int
  {
    assert BigEndian(w, 1) == w[0] as int;
    assert BigEndian(w, 2) == 0x100 * BigEndian(w, 1) + w[1] as int;
    assert BigEndian(w, 3) == 0x100 * BigEndian(w, 2) + w[2] as int;
  }

  lemma Digits(n: nat)
    ensures n % 0x1_0000_0000 == 0x100_0000 * (n / 0x100_0000 % 0x100) + 0x1_0000 * (n / 0x1_0000 % 0x100)
      + 0x100 * (n / 0x100 % 0x100) + n % 0x100
  {
    DivideTwice(n, 0x100, 0x100);
    DivideTwice(n, 0x1_0000, 0x100);
    DivideTwice(n, 0x100_0000, 0x100);
    var q1, q2, q3, q4 := n / 0x100, n / 0x1_0000, n / 0x100_0000, n / 0x1_0000_0000;
    assert n == 0x100 * q1 + n % 0x100 && q1 == 0x100 * q2 + q1 % 0x100;
    assert q2 == 0x100 * q3 + q2 % 0x100 && q3 == 0x100 * q4 + q3 % 0x100;
  }

  /** The standard's length block holds the two lengths in bits, of the associated data and then of the text. */
  lemma StandardLengths(a: nat, c: nat)
    requires a < 0x2000_0000_0000_0000 && c < 0x2000_0000_0000_0000
    ensures var l := StandardLengthBlock(a, c); BigEndian(l[..8], 8) == 8 * a && BigEndian(l[8..], 8) == 8 * c
  {
    hide LowWord;
    var l := StandardLengthBlock(a, c);
    assert l[..8] == LowWord(8 * a / 0x1_0000_0000) + LowWord(8 * a);
    assert l[8..] == LowWord(8 * c / 0x1_0000_0000) + LowWord(8 * c);
    TwoWords(8 * a);
    TwoWords(8 * c);
  }

  lemma TwoWords(n: nat)
    requires n < 0x1_0000_0000_0000_0000
    ensures BigEndian(LowWord(n / 0x1_0000_0000) + LowWord(n), 8) == n
  {
    hide LowWord, BigEndian;
    var x, y := LowWord(n / 0x1_0000_0000), LowWord(n);
    LowWordValue(n / 0x1_0000_0000);
    LowWordValue(n);
    WordsJoin(x, y);
    assert n / 0x1_0000_0000 % 0x1_0000_0000 == n / 0x1_0000_0000;
  }

  lemma WordsJoin(x: seq<byte>, y: seq<byte>)
    requires |x| == |y| == 4
    ensures BigEndian(x + y, 8) == 0x1_0000_0000 * BigEndian(x, 4) + BigEndian(y, 4)
  {
    FourOctets(y);
    BigEndianPrefix(x, x + y, 4);
    var w := x + y;
    assert w[4] == y[0] && w[5] == y[1] && w[6] == y[2] && w[7] == y[3];
    assert BigEndian(w, 5) == 0x100 * BigEndian(w, 4) + y[0] as int;
    assert BigEndian(w, 6) == 0x100 * BigEndian(w, 5) + y[1] as int;
    assert BigEndian(w, 7) == 0x100 * BigEndian(w, 6) + y[2] as int;
  }

  lemma DigitsZero(n: nat)
    requires n < 0x1_0000_0000
    ensures n / 0x100_0000 % 0x100 == n / 0x1_0000 % 0x100 == n / 0x100 % 0x100 == n % 0x100 == 0 <==> n == 0
  {
  }

  lemma LowWordZero(n: nat)
    requires n < 0x1_0000_0000
    ensures LowWord(n) == Zeros(4) <==> n == 0
  {
    var w := LowWord(n);
    var b3, b2, b1, b0 := n / 0x100_0000 % 0x100, n / 0x1_0000 % 0x100, n / 0x100 % 0x100, n % 0x100;
    OctetValue(b3);
    OctetValue(b2);
    OctetValue(b1);
    OctetValue(b0);
    DigitsZero(n);
    if w == Zeros(4) {
      assert w[0] == 0 && w[1] == 0 && w[2] == 0 && w[3] == 0;
    }
  }

  /** The stored lengths are the standard's exactly for fewer than 2^29 octets on both sides. */
  lemma LengthBlockStandard(a: nat, c: nat)
    requires a < 0x2000_0000_0000_0000 && c < 0x2000_0000_0000_0000
    ensures LengthBlock(a, c) == StandardLengthBlock(a, c) <==> a < 0x2000_0000 && c < 0x2000_0000
  {
    hide LowWord;
    LowWordZero(8 * a / 0x1_0000_0000);
    LowWordZero(8 * c / 0x1_0000_0000);
    var l, s := LengthBlock(a, c), StandardLengthBlock(a, c);
    assert l[..4] == Zeros(4) && s[..4] == LowWord(8 * a / 0x1_0000_0000);
    assert l[8..12] == Zeros(4) && s[8..12] == LowWord(8 * c / 0x1_0000_0000);
  }

  /** The hash of associated data and ciphertext under the code's length block. */
  ghost function GhashOf(h: element, a: seq<byte>, c: seq<byte>): element {
    Chain(h, None(128), Elements(Padded(a)) + Elements(Padded(c)) + [Bits(LengthBlock(|a|, |c|))])
  }

  /** GHASH as the standard applies it. */
  ghost function StandardGhash(h: element, a: seq<byte>, c: seq<byte>): element {
    var xs := Elements(Padded(a)) + Elements(Padded(c)) + [Bits(StandardLengthBlock(|a|, |c|))];
    PowerSum(h, xs, |xs|)
  }

  lemma GhashStandard(h: element, a: seq<byte>, c: seq<byte>)
    requires |a| < 0x2000_0000 && |c| < 0x2000_0000
    ensures GhashOf(h, a, c) == StandardGhash(h, a, c)
  {
    hide LengthBlock, StandardLengthBlock, Bits;
    LengthBlockStandard(|a|, |c|);
    ChainIsPowerSum(h, Elements(Padded(a)) + Elements(Padded(c)) + [Bits(LengthBlock(|a|, |c|))]);
  }

  /** One block on each side: the associated data comes first, the ciphertext next, and the lengths last. */
  lemma OneBlockOfEach(h: element, a: block, c: block)
    ensures GhashOf(h, a, c) == Mul(Xor(Mul(Xor(Mul(Bits(a), h), Bits(c)), h), Bits(LengthBlock(16, 16))), h)
  {
    hide Bits, Mul, LengthBlock;
    assert Padded(a) == a && Padded(c) == c && Group(a, 0) == a && Group(c, 0) == c;
    assert Elements(a) == [Bits(a)] && Elements(c) == [Bits(c)];
    var x, y, z := Bits(a), Bits(c), Bits(LengthBlock(16, 16));
    assert [x] + [y] + [z] == [x, y, z] && [x, y, z][..2] == [x, y] && [x, y][..1] == [x] && [x][..0] == [];
    assert Chain(h, None(128), []) == None(128) && Xor(None(128), x) == x;
    assert Chain(h, None(128), [x]) == Mul(x, h);
    assert Chain(h, None(128), [x, y]) == Mul(Xor(Mul(x, h), y), h);
  }

  method GhashAll(h: array<byte>, acc: seq<byte>, cipher: seq<byte>, result: array<byte>)
    requires h.Length == result.Length == 16
    modifies result
    ensures Bits(result[..]) == GhashOf(old(Bits(h[..])), acc, cipher)
  {
    hide Bits, Chain, Elements, Padded, LengthBlock;
    var hashBlock := new byte[16](i => 0);
    assert hashBlock[..] == Zeros(16);
    BitsOfZeros();
    ghost var k, xs, ys := Bits(h[..]), Elements(Padded(acc)), Elements(Padded(cipher));
    GhashBlock(h, acc, hashBlock);
    GhashBlock(h, cipher, hashBlock);
    ChainAppend(k, None(128), xs, ys);
    ChainStep(k, None(128), xs + ys, Bits(LengthBlock(|acc|, |cipher|)));
    GhashLengths(h, hashBlock, LengthBlock(|acc|, |cipher|), result);
  }

  /** The last step: the length block is added and the sum multiplied. */
  method GhashLengths(h: array<byte>, hashBlock: array<byte>, lengthBlock: block, result: array<byte>)
    requires h.Length == hashBlock.Length == result.Length == 16 && hashBlock != h
    modifies hashBlock, result
    ensures Bits(result[..]) == Mul(Xor(old(Bits(hashBlock[..])), Bits(lengthBlock)), old(Bits(h[..])))
  {
    hide Bits, Mul, Xor;
    BitsOfXor(hashBlock[..], lengthBlock);
    XorInPlace(lengthBlock, hashBlock);
    GfMultBlock(hashBlock, h, result);
  }

  ghost function HashKey(key: seq<byte>): element { Bits(Cipher(key, Zeros(16))) }

  /** Y0: twelve octets from the read cursor and the number one, or the hash of the vector. */
  ghost function FirstCounter(key: seq<byte>, iv: seq<byte>, ivRead: nat, ivLength: nat): block
    requires ivLength <= |iv|
  {
    if ivLength == 12 then
      (if ivRead + 12 <= |iv| then iv[ivRead..ivRead + 12] else Zeros(12)) + [0, 0, 0, 1]
    else BlockOf(GhashOf(HashKey(key), [], iv[..ivLength]))
  }

  /** Octet k of the key stream: the counter is incremented before every block. */
  ghost function StreamOctet(key: seq<byte>, y0: block, k: nat): byte {
    Cipher(key, CounterAt(y0, k / 16 + 1))[k % 16]
  }

  ghost function Stream(key: seq<byte>, y0: block, data: seq<byte>): (s: seq<byte>)
    ensures |s| == |data|
  {
    seq(|data|, k requires 0 <= k < |data| => Xored(StreamOctet(key, y0, k), data[k]))
  }

  ghost function TagOf(key: seq<byte>, y0: block, a: seq<byte>, c: seq<byte>): block {
    XorBlock(BlockOf(GhashOf(HashKey(key), a, c)), Cipher(key, y0))
  }

  /** GCTR of section 6.5, with the 32-bit increment. */
  ghost function StandardStream(key: seq<byte>, y0: block, data: seq<byte>): seq<byte> {
    seq(|data|, k requires 0 <= k < |data| => Xored(Cipher(key, Counter32At(y0, k / 16 + 1))[k % 16], data[k]))
  }

  lemma XorCancels(a: byte, b: byte)
    ensures Xored(a, Xored(a, b)) == b
  {
  }

  /** The key stream undoes itself. */
  lemma StreamTwice(key: seq<byte>, y0: block, data: seq<byte>)
    ensures Stream(key, y0, Stream(key, y0, data)) == data
  {
    hide StreamOctet, Xored;
    forall k | 0 <= k < |data|
      ensures Stream(key, y0, Stream(key, y0, data))[k] == data[k]
    {
      XorCancels(StreamOctet(key, y0, k), data[k]);
    }
  }

  /** The stream is the standard's as long as the low word of the counter does not wrap. */
  lemma StreamStandard(key: seq<byte>, y0: block, data: seq<byte>)
    requires BigEndian(y0[12..], 4) + (|data| + 15) / 16 < Pow256(4)
    ensures Stream(key, y0, data) == StandardStream(key, y0, data)
  {
    hide Cipher, CounterAt, Counter32At, BigEndian;
    CountersAgree(y0, (|data| + 15) / 16);
    forall k | 0 <= k < |data|
      ensures CounterAt(y0, k / 16 + 1) == Counter32At(y0, k / 16 + 1)
    {
      assert 0 <= k / 16 + 1 <= (|data| + 15) / 16;
    }
  }

  /** With a 96-bit vector that is every message the standard allows: at most 2^39 - 256 bits. */
  lemma StreamStandardFor96Bits(key: seq<byte>, iv: seq<byte>, data: seq<byte>)
    requires |iv| == 12 && 8 * |data| <= 0x80_0000_0000 - 256
    ensures var y0 := FirstCounter(key, iv, 0, 12);
      Stream(key, y0, data) == StandardStream(key, y0, data)
  {
    var y0 := FirstCounter(key, iv, 0, 12);
    assert y0[12..] == [0, 0, 0, 1];
    OneAsBigEndian(y0[12..]);
    StreamStandard(key, y0, data);
  }

  lemma OneAsBigEndian(w: seq<byte>)
    requires w == [0, 0, 0, 1]
    ensures BigEndian(w, 4) == 1 && Pow256(4) == 0x1_0000_0000
  {
    assert BigEndian(w, 0) == 0 && BigEndian(w, 1) == 0 && BigEndian(w, 2) == 0 && BigEndian(w, 3) == 0;
    NextOctet(0);
    PowAdds(0x100, 1, 1);
    PowAdds(0x100, 2, 2);
  }

  /** encryptAes_impl on one block, read into a zeroed block; with a wrong key size the read fails. */
  method CipherBlock(key: ByteBuffer, input: seq<byte>) returns (output: array<byte>)
    requires |input| == 16
    ensures fresh(output) && output.Length == 16 && output[..] == Cipher(key.Bytes(), input)
  {
    hide K.KeyWord, K.RoundKeys, A.Encrypted;
    output := new byte[16](i => 0);
    assert output[..] == Zeros(16);
    var encrypted := A.EncryptAes(4, input, key);
    var ok, data := encrypted.Read(16);
    if ok {
      for i := 0 to 16
        invariant output[..i] == data[..i]
      {
        output[i] := data[i];
      }
    }
  }

  /** What a read of size octets leaves in a zeroed block. */
  ghost function Taken(data: seq<byte>, at: nat, size: nat): (s: seq<byte>)
    ensures |s| == size
  {
    if at + size <= |data| then data[at..at + size] else Zeros(size)
  }

  /** One turn of the counter loops: the last turn takes fewer than 16 octets. */
  method CryptBlock(data: ByteBuffer, key: ByteBuffer, counter: array<byte>, out: ByteBuffer, size: nat)
    requires counter.Length == 16 && 0 < size <= 16
    requires data.Valid() && out.Valid() && out != data && out.writeIndex + size <= out.buffer.Length
    requires out.buffer != data.buffer && out.buffer != key.buffer && out.buffer != counter
    requires counter != data.buffer && counter != key.buffer
    modifies data`readIndex, counter, out`writeIndex, out.buffer
    ensures data.Valid() && out.Valid()
    ensures counter[..] == Incremented(old(counter[..]), 16)
    ensures out.writeIndex == old(out.writeIndex) + size
    ensures data.readIndex
      == old(data.readIndex) + (if old(data.readIndex) + size <= data.buffer.Length then size else 0)
    ensures out.Bytes() == Written(old(out.Bytes()), old(out.writeIndex),
      XorBlock(Cipher(key.Bytes(), counter[..])[..size], Taken(data.Bytes(), old(data.readIndex), size)))
  {
    hide Incremented, Cipher;
    Incr(counter);
    var ok, read := data.Read(size);
    var dataBlock := if ok then read + Zeros(16 - size) else Zeros(16);
    var cipherBlock := CipherBlock(key, counter[..]);
    XorInPlace(dataBlock, cipherBlock);
    assert cipherBlock[..size]
      == XorBlock(Cipher(key.Bytes(), counter[..])[..size], Taken(data.Bytes(), old(data.readIndex), size));
    var written := out.WriteArray(cipherBlock[..size]);
  }

  /** The read cursor after i whole blocks: a block that does not fit is not read, and the cursor stays. */
  ghost function CursorAt(data: seq<byte>, r: nat, i: nat): (c: nat)
    ensures r <= c <= r + 16 * i
  {
    if i == 0 then r
    else
      var c := CursorAt(data, r, i - 1);
      if c + 16 <= |data| then c + 16 else c
  }

  /** The octets that i whole blocks see: zeros where a block cannot be read. */
  ghost function WholeBlocks(data: seq<byte>, r: nat, i: nat): (s: seq<byte>)
    ensures |s| == 16 * i
  {
    if i == 0 then [] else WholeBlocks(data, r, i - 1) + Taken(data, CursorAt(data, r, i - 1), 16)
  }

  /** The n octets that the counter loops see from the cursor r on, the last block being shorter. */
  ghost function Seen(data: seq<byte>, r: nat, n: nat): (s: seq<byte>)
    ensures |s| == n
  {
    WholeBlocks(data, r, n / 16) + if n % 16 == 0 then [] else Taken(data, CursorAt(data, r, n / 16), n % 16)
  }

  ghost function SeenCursor(data: seq<byte>, r: nat, n: nat): nat {
    var c := CursorAt(data, r, n / 16);
    if c + n % 16 <= |data| then c + n % 16 else c
  }

  lemma {:induction false} BlocksInside(data: seq<byte>, r: nat, i: nat)
    requires r + 16 * i <= |data|
    ensures CursorAt(data, r, i) == r + 16 * i && WholeBlocks(data, r, i) == data[r..r + 16 * i]
  {
    if i != 0 {
      BlocksInside(data, r, i - 1);
      assert data[r..r + 16 * i] == data[r..r + 16 * (i - 1)] + data[r + 16 * (i - 1)..r + 16 * i];
    }
  }

  /** With octets enough behind the cursor, the loops see just those. */
  lemma SeenInside(data: seq<byte>, r: nat, n: nat)
    requires r + n <= |data|
    ensures Seen(data, r, n) == data[r..r + n] && SeenCursor(data, r, n) == r + n
  {
    hide CursorAt, WholeBlocks;
    var i, e := n / 16, n % 16;
    BlocksInside(data, r, i);
    assert data[r..r + n] == data[r..r + 16 * i] + data[r + 16 * i..r + n];
  }

  lemma SeenWhole(data: seq<byte>, r: nat, i: nat)
    ensures Seen(data, r, 16 * i) == WholeBlocks(data, r, i) && SeenCursor(data, r, 16 * i) == CursorAt(data, r, i)
  {
    hide WholeBlocks, CursorAt, Taken;
    assert 16 * i / 16 == i && 16 * i % 16 == 0;
    assert WholeBlocks(data, r, i) + [] == WholeBlocks(data, r, i);
  }

  lemma SeenPart(data: seq<byte>, r: nat, i: nat, size: nat)
    requires 0 < size < 16
    ensures var c := CursorAt(data, r, i);
      && Seen(data, r, 16 * i + size) == WholeBlocks(data, r, i) + Taken(data, c, size)
      && SeenCursor(data, r, 16 * i + size) == if c + size <= |data| then c + size else c
  {
    hide WholeBlocks, CursorAt, Taken;
    assert (16 * i + size) / 16 == i && (16 * i + size) % 16 == size;
  }

  /** One more block, whole or not. */
  lemma SeenStep(data: seq<byte>, r: nat, i: nat, size: nat)
    requires 0 < size <= 16
    ensures |Seen(data, r, 16 * i)| == 16 * i
    ensures var c := SeenCursor(data, r, 16 * i);
      && Seen(data, r, 16 * i + size) == Seen(data, r, 16 * i) + Taken(data, c, size)
      && SeenCursor(data, r, 16 * i + size) == if c + size <= |data| then c + size else c
  {
    hide Seen, SeenCursor, Taken;
    SeenWhole(data, r, i);
    if size == 16 {
      SeenWhole(data, r, i + 1);
      assert 16 * (i + 1) == 16 * i + size;
    } else {
      SeenPart(data, r, i, size);
    }
  }

  lemma StreamOctetAt(key: seq<byte>, y0: block, i: nat, k: nat)
    requires k < 16
    ensures StreamOctet(key, y0, 16 * i + k) == Cipher(key, CounterAt(y0, i + 1))[k]
  {
    hide Cipher, CounterAt;
    assert (16 * i + k) / 16 == i && (16 * i + k) % 16 == k;
  }

  /** The stream of a longer text begins with the stream of a shorter one, and goes on with the next counter. */
  lemma StreamStep(key: seq<byte>, y0: block, x: seq<byte>, y: seq<byte>, i: nat)
    requires |x| == 16 * i && |y| <= 16
    ensures Stream(key, y0, x + y) == Stream(key, y0, x) + XorBlock(Cipher(key, CounterAt(y0, i + 1))[..|y|], y)
  {
    hide Cipher, CounterAt, Xored, StreamOctet;
    var s, t := Stream(key, y0, x + y), XorBlock(Cipher(key, CounterAt(y0, i + 1))[..|y|], y);
    forall k | 0 <= k < |y|
      ensures s[|x| + k] == t[k]
    {
      StreamOctetAt(key, y0, i, k);
    }
    StreamPrefix(key, y0, x, y);
    assert s == s[..|x|] + t;
  }

  lemma StreamPrefix(key: seq<byte>, y0: block, x: seq<byte>, y: seq<byte>)
    ensures Stream(key, y0, x + y)[..|x|] == Stream(key, y0, x)
  {
    hide StreamOctet, Xored;
  }

  /** What the loop has done after n octets: that much stream is written, and the rest of the output is as it was. */
  ghost predicate Progress(key: seq<byte>, y0: block, data: seq<byte>, r: nat,
      start: seq<byte>, out: seq<byte>, readIndex: nat, n: nat)
  {
    && n <= |start| == |out|
    && out[n..] == start[n..]
    && readIndex == SeenCursor(data, r, n) && out[..n] == Stream(key, y0, Seen(data, r, n))
  }

  lemma ProgressStep(key: seq<byte>, y0: block, data: seq<byte>, r: nat, start: seq<byte>,
      before: seq<byte>, at: nat, after: seq<byte>, i: nat, size: nat)
    requires Progress(key, y0, data, r, start, before, at, 16 * i) && 0 < size <= 16 && 16 * i + size <= |start|
    requires after == Written(before, 16 * i,
      XorBlock(Cipher(key, CounterAt(y0, i + 1))[..size], Taken(data, at, size)))
    ensures Progress(key, y0, data, r, start, after, if at + size <= |data| then at + size else at, 16 * i + size)
  {
    hide Cipher, CounterAt, Stream, Seen, SeenCursor, Taken;
    SeenStep(data, r, i, size);
    StreamStep(key, y0, Seen(data, r, 16 * i), Taken(data, at, size), i);
    WrittenParts(before, 16 * i, XorBlock(Cipher(key, CounterAt(y0, i + 1))[..size], Taken(data, at, size)));
    assert start[16 * i + size..] == start[16 * i..][size..];
    assert before[16 * i + size..] == before[16 * i..][size..];
  }

  lemma WrittenParts(octets: seq<byte>, at: nat, data: seq<byte>)
    requires at + |data| <= |octets|
    ensures Written(octets, at, data)[..at + |data|] == octets[..at] + data
    ensures Written(octets, at, data)[at + |data|..] == octets[at + |data|..]
  {
  }

  lemma ProgressStart(key: seq<byte>, y0: block, data: seq<byte>, r: nat, start: seq<byte>)
    requires r <= |data|
    ensures Progress(key, y0, data, r, start, start, r, 0)
    ensures CounterAt(y0, 0) == y0
  {
    assert start[..0] == [];
  }

  method CryptTurn(data: ByteBuffer, key: ByteBuffer, counter: array<byte>, out: ByteBuffer, i: nat, size: nat,
      ghost y0: block, ghost r: nat, ghost start: seq<byte>)
    requires counter.Length == 16 && 0 < size <= 16 && 16 * i + size <= data.writeIndex
    requires data.Valid() && out.Valid() && out != data
    requires out.buffer.Length == data.buffer.Length && out.writeIndex == 16 * i
    requires out.buffer != data.buffer && out.buffer != key.buffer && out.buffer != counter
    requires counter != data.buffer && counter != key.buffer
    requires counter[..] == CounterAt(y0, i) && |start| == out.buffer.Length
    requires Progress(key.Bytes(), y0, data.Bytes(), r, start, out.Bytes(), data.readIndex, 16 * i)
    modifies data`readIndex, counter, out`writeIndex, out.buffer
    ensures data.Valid() && out.Valid() && out.writeIndex == 16 * i + size
    ensures counter[..] == CounterAt(y0, i + 1)
    ensures Progress(key.Bytes(), y0, data.Bytes(), r, start, out.Bytes(), data.readIndex, 16 * i + size)
  {
    hide Cipher, Incremented, Progress, Written, Taken;
    ghost var before, at := out.Bytes(), data.readIndex;
    CryptBlock(data, key, counter, out, size);
    ProgressStep(key.Bytes(), y0, data.Bytes(), r, start, before, at, out.Bytes(), i, size);
  }

  /** The counter loops of encrypt and decrypt, which are the same. */
  method CryptAll(data: ByteBuffer, key: ByteBuffer, counter: array<byte>, out: ByteBuffer)
    requires counter.Length == 16 && data.Valid() && out.Valid() && out != data
    requires out.buffer.Length == data.buffer.Length && out.writeIndex == 0
    requires out.buffer != data.buffer && out.buffer != key.buffer && out.buffer != counter
    requires counter != data.buffer && counter != key.buffer
    modifies data`readIndex, counter, out`writeIndex, out.buffer
    ensures data.Valid() && out.Valid()
    ensures out.writeIndex == data.writeIndex
    ensures out.Bytes()[out.writeIndex..] == old(out.Bytes())[out.writeIndex..]
    ensures var r, n := old(data.readIndex), data.writeIndex;
      && out.Bytes()[..n] == Stream(key.Bytes(), old(counter[..]), Seen(data.Bytes(), r, n))
      && data.readIndex == SeenCursor(data.Bytes(), r, n)
  {
    hide CounterAt, Progress, Stream;
    ghost var y0, r, start := counter[..], data.readIndex, out.Bytes();
    var n, extra := data.writeIndex / 16, data.writeIndex % 16;
    ProgressStart(key.Bytes(), y0, data.Bytes(), r, start);
    for i := 0 to n
      invariant data.Valid() && out.Valid()
      invariant counter[..] == CounterAt(y0, i) && out.writeIndex == 16 * i
      invariant Progress(key.Bytes(), y0, data.Bytes(), r, start, out.Bytes(), data.readIndex, 16 * i)
    {
      CryptTurn(data, key, counter, out, i, 16, y0, r, start);
    }
    if extra != 0 {
      CryptTurn(data, key, counter, out, n, extra, y0, r, start);
    }
    ProgressEnd(key.Bytes(), y0, data.Bytes(), r, start, out.Bytes(), data.readIndex, data.writeIndex);
  }

  lemma ProgressEnd(key: seq<byte>, y0: block, data: seq<byte>, r: nat, start: seq<byte>, out: seq<byte>,
    at: nat, n: nat)
    requires Progress(key, y0, data, r, start, out, at, n)
    ensures out[n..] == start[n..] && at == SeenCursor(data, r, n) && out[..n] == Stream(key, y0, Seen(data, r, n))
  {
  }

  /** The vector's read cursor after it has been used. */
  function AfterVector(cursor: nat, length: nat, size: nat): nat {
    if length == 12 && cursor + 12 <= size then cursor + 12 else cursor
  }

  method CopyVector(read: seq<byte>, counter: array<byte>)
    requires |read| == 12 && counter.Length == 16 && counter[..] == Zeros(16)
    modifies counter
    ensures counter[..] == read + Zeros(4)
  {
    for i := 0 to 12
      invariant counter[..] == read[..i] + Zeros(16 - i)
    {
      counter[i] := read[i];
    }
  }

  /** The first counter, from the initialization vector. */
  method MakeCounter(h: array<byte>, iv: ByteBuffer, ghost key: seq<byte>) returns (counter: array<byte>)
    requires h.Length == 16 && iv.Valid() && Bits(h[..]) == HashKey(key)
    modifies iv`readIndex
    ensures iv.Valid() && fresh(counter) && counter.Length == 16
    ensures iv.readIndex == AfterVector(old(iv.readIndex), iv.writeIndex, iv.buffer.Length)
    ensures counter[..] == FirstCounter(key, iv.Bytes(), old(iv.readIndex), iv.writeIndex)
  {
    hide HashKey, Bits, GhashOf;
    counter := new byte[16](i => 0);
    assert counter[..] == Zeros(16);
    if iv.writeIndex == 12 {
      var ok, read := iv.Read(12);
      if ok {
        CopyVector(read, counter);
      }
      counter[15] := 0x01;
    } else {
      GhashAll(h, [], iv.buffer[..iv.writeIndex], counter);
      BitsOfBlock(counter[..]);
    }
  }

  /** Encryption: the ciphertext in the written part of the result, and the tag. */
  method Encrypt(data: ByteBuffer, key: ByteBuffer, iv: ByteBuffer, tag: array<byte>, acc: ByteBuffer)
    returns (out: ByteBuffer)
    requires data.Valid() && iv.Valid() && acc.Valid() && data != iv && tag.Length == 16
    requires tag !in {data.buffer, key.buffer, iv.buffer, acc.buffer}
    modifies data`readIndex, iv`readIndex, tag
    ensures data.Valid() && iv.Valid() && out.Valid() && fresh(out) && fresh(out.buffer)
    ensures out.buffer.Length == data.buffer.Length && out.writeIndex == data.writeIndex && out.readIndex == 0
    ensures var k, r, n := key.Bytes(), old(data.readIndex), data.writeIndex;
      var y0 := FirstCounter(k, iv.Bytes(), old(iv.readIndex), iv.writeIndex);
      && out.Bytes()[..n] == Stream(k, y0, Seen(data.Bytes(), r, n))
      && tag[..] == TagOf(k, y0, acc.Bytes()[..acc.writeIndex], out.Bytes()[..n])
      && data.readIndex == SeenCursor(data.Bytes(), r, n)
    ensures var k, v, a, plain :=
        key.Bytes(), iv.Bytes()[..iv.writeIndex], acc.Bytes()[..acc.writeIndex], data.Bytes()[..data.writeIndex];
      old(data.readIndex) == old(iv.readIndex) == 0 && InRange(k, v, a, plain) ==>
      (out.Bytes()[..out.writeIndex], tag[..]) == StandardEncryption(k, v, a, plain)
    ensures out.Bytes()[out.writeIndex..] == Zeros(out.buffer.Length - out.writeIndex)
    ensures iv.readIndex == AfterVector(old(iv.readIndex), iv.writeIndex, iv.buffer.Length)
  {
    hide Cipher, Stream, TagOf, HashKey, Bits, FirstCounter, AfterVector, Seen, SeenCursor, InRange, StandardEncryption;
    ghost var r, s := data.readIndex, iv.readIndex;
    out := new ByteBuffer(data.buffer.Length);
    var h := MakeHashKey(key);
    var counter := MakeCounter(h, iv, key.Bytes());
    ghost var y0 := counter[..];
    var y0Encrypted := CipherBlock(key, counter[..]);
    CryptAll(data, key, counter, out);
    FinishTag(h, acc, out, y0Encrypted, tag, key.Bytes(), y0);
    if r == s == 0 {
      ghost var a := acc.Bytes()[..acc.writeIndex];
      EncryptionFromStart(key.Bytes(), iv.Bytes(), iv.writeIndex, a, data.Bytes(), data.writeIndex);
    }
  }

  /** H: a block of zeros encrypted. */
  method MakeHashKey(key: ByteBuffer) returns (h: array<byte>)
    ensures fresh(h) && h.Length == 16 && Bits(h[..]) == HashKey(key.Bytes())
  {
    hide Cipher, Bits;
    h := CipherBlock(key, Zeros(16));
  }

  /** The hash of associated data and ciphertext, masked with the encrypted first counter. */
  method FinishTag(h: array<byte>, acc: ByteBuffer, out: ByteBuffer, y0Encrypted: array<byte>, tag: array<byte>,
      ghost key: seq<byte>, ghost y0: block)
    requires acc.Valid() && out.Valid() && h.Length == y0Encrypted.Length == tag.Length == 16
    requires tag !in {acc.buffer, out.buffer, h, y0Encrypted}
    requires Bits(h[..]) == HashKey(key) && y0Encrypted[..] == Cipher(key, y0)
    modifies tag
    ensures tag[..] == TagOf(key, y0, acc.Bytes()[..acc.writeIndex], out.Bytes()[..out.writeIndex])
  {
    hide GhashOf, Bits, BlockOf, HashKey, Cipher;
    GhashAll(h, acc.buffer[..acc.writeIndex], out.buffer[..out.writeIndex], tag);
    BitsOfBlock(tag[..]);
    XorInPlace(y0Encrypted[..], tag);
  }

  /** The first half of decryption: the first counter and the tag that the ciphertext should have. */
  method ExpectedTag(data: ByteBuffer, key: ByteBuffer, iv: ByteBuffer, acc: ByteBuffer)
    returns (counter: array<byte>, deTag: array<byte>)
    requires data.Valid() && iv.Valid() && acc.Valid() && data != iv
    modifies iv`readIndex
    ensures iv.Valid() && fresh(counter) && fresh(deTag) && counter.Length == deTag.Length == 16
    ensures counter[..] == FirstCounter(key.Bytes(), iv.Bytes(), old(iv.readIndex), iv.writeIndex)
    ensures deTag[..] == TagOf(key.Bytes(), counter[..], acc.Bytes()[..acc.writeIndex], data.Bytes()[..data.writeIndex])
    ensures iv.readIndex == AfterVector(old(iv.readIndex), iv.writeIndex, iv.buffer.Length)
  {
    hide Cipher, TagOf, HashKey, Bits, FirstCounter, AfterVector;
    var h := MakeHashKey(key);
    counter := MakeCounter(h, iv, key.Bytes());
    var y0Encrypted := CipherBlock(key, counter[..]);
    deTag := new byte[16](i => 0);
    FinishTag(h, acc, data, y0Encrypted, deTag, key.Bytes(), counter[..]);
  }

  /** The tag buffer is empty, which skips the comparison, or holds the tag of the ciphertext. */
  ghost predicate Accepts(key: seq<byte>, y0: block, a: seq<byte>, c: seq<byte>, tag: seq<byte>) {
    tag == [] || tag == TagOf(key, y0, a, c)
  }

  /** Decryption: an empty buffer when a tag is given and does not match, the plaintext otherwise. */
  method Decrypt(data: ByteBuffer, key: ByteBuffer, iv: ByteBuffer, tag: ByteBuffer, acc: ByteBuffer)
    returns (out: ByteBuffer)
    requires data.Valid() && iv.Valid() && acc.Valid() && tag.Valid() && data != iv
    modifies data`readIndex, iv`readIndex
    ensures data.Valid() && iv.Valid() && out.Valid() && fresh(out) && fresh(out.buffer)
    ensures var k, r, n := key.Bytes(), old(data.readIndex), data.writeIndex;
      var y0 := FirstCounter(k, iv.Bytes(), old(iv.readIndex), iv.writeIndex);
      if Accepts(k, y0, acc.Bytes()[..acc.writeIndex], data.Bytes()[..n], tag.Bytes()) then
        && out.buffer.Length == data.buffer.Length && out.writeIndex == n
        && out.Bytes()[..n] == Stream(k, y0, Seen(data.Bytes(), r, n))
        && out.Bytes()[n..] == Zeros(out.buffer.Length - n)
        && data.readIndex == SeenCursor(data.Bytes(), r, n)
      else out.Bytes() == [] && out.writeIndex == 0 && data.readIndex == r
    ensures var k, v, a, c :=
        key.Bytes(), iv.Bytes()[..iv.writeIndex], acc.Bytes()[..acc.writeIndex], data.Bytes()[..data.writeIndex];
      old(data.readIndex) == old(iv.readIndex) == 0 && InRange(k, v, a, c) && tag.Bytes() != [] ==>
      match StandardDecryption(k, v, a, c, tag.Bytes())
      case Fail => out.Bytes() == []
      case Plain(p) => out.Bytes()[..out.writeIndex] == p
    ensures out.readIndex == 0 && iv.readIndex == AfterVector(old(iv.readIndex), iv.writeIndex, iv.buffer.Length)
  {
    hide Cipher, Stream, GhashOf, FirstCounter, TagOf, AfterVector;
    hide Seen, SeenCursor, InRange, StandardDecryption, Accepts;
    ghost var k, v, a := key.Bytes(), iv.Bytes(), acc.Bytes()[..acc.writeIndex];
    if data.readIndex == iv.readIndex == 0 {
      DecryptionFromStart(k, v, iv.writeIndex, a, data.Bytes(), data.writeIndex, tag.Bytes());
    }
    AcceptsMeans(k, FirstCounter(k, v, iv.readIndex, iv.writeIndex), a, data.Bytes()[..data.writeIndex], tag.Bytes());
    var counter, deTag := ExpectedTag(data, key, iv, acc);
    if tag.buffer.Length != 0 && deTag[..] != tag.buffer[..] {
      out := new ByteBuffer(0);
      return;
    }
    out := new ByteBuffer(data.buffer.Length);
    CryptAll(data, key, counter, out);
  }

  lemma AcceptsMeans(key: seq<byte>, y0: block, a: seq<byte>, c: seq<byte>, tag: seq<byte>)
    ensures Accepts(key, y0, a, c, tag) <==> tag == [] || tag == TagOf(key, y0, a, c)
  {
  }

  lemma AcceptsOwnTag(key: seq<byte>, y0: block, a: seq<byte>, c: seq<byte>)
    ensures Accepts(key, y0, a, c, TagOf(key, y0, a, c))
  {
    hide TagOf;
  }

  /**
   Encryption and decryption one after the other, with the vector's read cursor set back in between:
   for any key, vector, associated data and plaintext, the tag is accepted and the plaintext comes back.
   */
  method EncryptThenDecrypt(data: ByteBuffer, key: ByteBuffer, iv: ByteBuffer, acc: ByteBuffer)
    returns (back: ByteBuffer)
    requires data.Valid() && iv.Valid() && acc.Valid() && data != iv
    modifies data`readIndex, iv`readIndex
    ensures data.Valid() && iv.Valid() && back.Valid() && fresh(back) && fresh(back.buffer)
    ensures back.buffer.Length == data.buffer.Length && back.writeIndex == data.writeIndex
    ensures back.Bytes()[..back.writeIndex] == data.Bytes()[..data.writeIndex]
  {
    hide Stream, TagOf, FirstCounter, Seen, SeenCursor, Accepts, Zeros, InRange, StandardEncryption, StandardDecryption;
    data.ResetRead();
    iv.ResetRead();
    var tag := new byte[16];
    var out := Encrypt(data, key, iv, tag, acc);
    ghost var n, y0 := data.writeIndex, FirstCounter(key.Bytes(), iv.Bytes(), 0, iv.writeIndex);
    iv.ResetRead();
    var tagBuffer := new ByteBuffer.Copy(tag[..]);
    AcceptsOwnTag(key.Bytes(), y0, acc.Bytes()[..acc.writeIndex], out.Bytes()[..n]);
    BackAgain(key.Bytes(), y0, data.Bytes(), out.Bytes(), n);
    back := Decrypt(out, key, iv, tagBuffer, acc);
  }

  lemma BackAgain(key: seq<byte>, y0: block, data: seq<byte>, out: seq<byte>, n: nat)
    requires n <= |data| && n <= |out| && out[..n] == Stream(key, y0, Seen(data, 0, n))
    ensures Stream(key, y0, Seen(out, 0, n)) == data[..n]
  {
    hide Stream, Seen, SeenCursor;
    SeenInside(data, 0, n);
    SeenInside(out, 0, n);
    assert out[0..n] == out[..n] && data[0..n] == data[..n];
    StreamTwice(key, y0, data[..n]);
  }

  /** A 96-bit vector is consumed: read a second time without a reset it gives a counter of zeros and one. */
  lemma SpentVector(key: seq<byte>, iv: seq<byte>)
    requires 12 <= |iv| < 24
    ensures FirstCounter(key, iv, 0, 12) == iv[..12] + [0, 0, 0, 1]
    ensures FirstCounter(key, iv, 12, 12) == Zeros(12) + [0, 0, 0, 1]
    ensures FirstCounter(key, iv, 0, 12) == FirstCounter(key, iv, 12, 12) <==> iv[..12] == Zeros(12)
  {
    var one: seq<byte> := [0, 0, 0, 1];
    assert (iv[..12] + one)[..12] == iv[..12] && (Zeros(12) + one)[..12] == Zeros(12);
  }

  /** J0 of section 7.1: a 96-bit vector and the number one, or the hash of any other vector. */
  ghost function StandardFirstCounter(key: seq<byte>, iv: seq<byte>): block {
    if |iv| == 12 then iv + [0, 0, 0, 1] else BlockOf(StandardGhash(HashKey(key), [], iv))
  }

  ghost function StandardTag(key: seq<byte>, j0: block, a: seq<byte>, c: seq<byte>): block {
    XorBlock(BlockOf(StandardGhash(HashKey(key), a, c)), Cipher(key, j0))
  }

  /** The authenticated encryption function of section 7.1. */
  ghost function StandardEncryption(key: seq<byte>, iv: seq<byte>, a: seq<byte>, plain: seq<byte>)
    : (seq<byte>, seq<byte>)
  {
    var j0 := StandardFirstCounter(key, iv);
    var c := StandardStream(key, j0, plain);
    (c, StandardTag(key, j0, a, c))
  }

  datatype Opened = Fail | Plain(octets: seq<byte>)

  /** The authenticated decryption function of section 7.2, with tags of 128 bits. */
  ghost function StandardDecryption(key: seq<byte>, iv: seq<byte>, a: seq<byte>, c: seq<byte>, tag: seq<byte>): Opened {
    var j0 := StandardFirstCounter(key, iv);
    if tag != StandardTag(key, j0, a, c) then Fail else Plain(StandardStream(key, j0, c))
  }

  /** What decrypt gives: nothing, or the octets of the result. */
  ghost function Decryption(key: seq<byte>, iv: seq<byte>, a: seq<byte>, c: seq<byte>, tag: seq<byte>): Opened {
    var y0 := FirstCounter(key, iv, 0, |iv|);
    if Accepts(key, y0, a, c, tag) then Plain(Stream(key, y0, c)) else Fail
  }

  /** Lengths below 2^29 octets, and a first counter whose low word leaves room for all blocks. */
  ghost predicate InRange(key: seq<byte>, iv: seq<byte>, a: seq<byte>, text: seq<byte>) {
    && |iv| < 0x2000_0000 && |a| < 0x2000_0000 && |text| < 0x2000_0000
    && BigEndian(StandardFirstCounter(key, iv)[12..], 4) + (|text| + 15) / 16 < Pow256(4)
  }

  lemma FirstCounterIsStandard(key: seq<byte>, iv: seq<byte>)
    requires |iv| < 0x2000_0000
    ensures FirstCounter(key, iv, 0, |iv|) == StandardFirstCounter(key, iv)
  {
    hide HashKey, GhashOf, StandardGhash, BlockOf;
    assert iv[0..|iv|] == iv && iv[..|iv|] == iv;
    GhashStandard(HashKey(key), [], iv);
  }

  lemma TagIsStandard(key: seq<byte>, y0: block, a: seq<byte>, c: seq<byte>)
    requires |a| < 0x2000_0000 && |c| < 0x2000_0000
    ensures TagOf(key, y0, a, c) == StandardTag(key, y0, a, c)
  {
    hide HashKey, GhashOf, StandardGhash, BlockOf, Cipher, XorBlock;
    GhashStandard(HashKey(key), a, c);
  }

  /** In range, encryption is the standard's, for vectors of any length. */
  lemma EncryptionIsStandard(key: seq<byte>, iv: seq<byte>, a: seq<byte>, plain: seq<byte>)
    requires InRange(key, iv, a, plain)
    ensures var y0 := FirstCounter(key, iv, 0, |iv|);
      StandardEncryption(key, iv, a, plain) == (Stream(key, y0, plain), TagOf(key, y0, a, Stream(key, y0, plain)))
  {
    hide FirstCounter, StandardFirstCounter, TagOf, StandardTag, StandardStream, Stream;
    var y0 := FirstCounter(key, iv, 0, |iv|);
    FirstCounterIsStandard(key, iv);
    StreamStandard(key, y0, plain);
    TagIsStandard(key, y0, a, Stream(key, y0, plain));
  }

  lemma FromStart(key: seq<byte>, vector: seq<byte>, length: nat, data: seq<byte>, n: nat)
    requires length <= |vector| && n <= |data|
    ensures FirstCounter(key, vector, 0, length) == FirstCounter(key, vector[..length], 0, length)
    ensures Seen(data, 0, n) == data[..n]
  {
    hide GhashOf, Seen, SeenCursor;
    SeenInside(data, 0, n);
    assert data[0..n] == data[..n];
    assert vector[..length][..length] == vector[..length] && vector[0..length] == vector[..length][0..length];
  }

  /** The same for buffers that are read from their start, whose written part may be shorter than the block. */
  lemma EncryptionFromStart(key: seq<byte>, vector: seq<byte>, length: nat, a: seq<byte>, data: seq<byte>, n: nat)
    requires length <= |vector| && n <= |data|
    ensures InRange(key, vector[..length], a, data[..n]) ==>
      var c := Stream(key, FirstCounter(key, vector, 0, length), Seen(data, 0, n));
      (c, TagOf(key, FirstCounter(key, vector, 0, length), a, c))
        == StandardEncryption(key, vector[..length], a, data[..n])
  {
    hide InRange, FirstCounter, StandardEncryption, TagOf, Stream, Seen;
    if InRange(key, vector[..length], a, data[..n]) {
      FromStart(key, vector, length, data, n);
      EncryptionIsStandard(key, vector[..length], a, data[..n]);
    }
  }

  /** With a 96-bit vector every text below 2^29 octets is in range. */
  lemma VectorsOf96Bits(key: seq<byte>, iv: seq<byte>, a: seq<byte>, text: seq<byte>)
    requires |iv| == 12 && |a| < 0x2000_0000 && |text| < 0x2000_0000
    ensures InRange(key, iv, a, text)
  {
    hide BigEndian;
    var j0 := StandardFirstCounter(key, iv);
    assert j0[12..] == [0, 0, 0, 1];
    OneAsBigEndian(j0[12..]);
  }

  /** In range, decryption is the standard's exactly when a tag is given. */
  lemma DecryptionIsStandard(key: seq<byte>, iv: seq<byte>, a: seq<byte>, c: seq<byte>, tag: seq<byte>)
    requires InRange(key, iv, a, c)
    ensures Decryption(key, iv, a, c, tag) == StandardDecryption(key, iv, a, c, tag) <==> tag != []
  {
    hide FirstCounter, StandardFirstCounter, TagOf, StandardTag, StandardStream, Stream;
    var y0 := FirstCounter(key, iv, 0, |iv|);
    FirstCounterIsStandard(key, iv);
    StreamStandard(key, y0, c);
    TagIsStandard(key, y0, a, c);
  }

  /** The same for buffers that are read from their start. */
  lemma DecryptionFromStart(key: seq<byte>, vector: seq<byte>, length: nat, a: seq<byte>, data: seq<byte>, n: nat,
      tag: seq<byte>)
    requires length <= |vector| && n <= |data|
    ensures InRange(key, vector[..length], a, data[..n]) && tag != [] ==>
      var y0 := FirstCounter(key, vector, 0, length);
      StandardDecryption(key, vector[..length], a, data[..n], tag)
        == if Accepts(key, y0, a, data[..n], tag) then Plain(Stream(key, y0, Seen(data, 0, n))) else Fail
  {
    hide InRange, FirstCounter, StandardDecryption, TagOf, Stream, Seen, Accepts;
    if InRange(key, vector[..length], a, data[..n]) {
      FromStart(key, vector, length, data, n);
      DecryptionIsStandard(key, vector[..length], a, data[..n], tag);
    }
  }
}
