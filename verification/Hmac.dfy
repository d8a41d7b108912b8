/**
 HMAC of RFC 2104 and the key derivation of RFC 5869 over a hash, sha.cpp's methods for
 them, and where their results are those of the standards over SHA-256.
 */
module Hmac {
  import opened Bytes
  import opened ByteBuffers
  import opened Sha256
  import opened Sha

  type hash = seq<byte> -> digest

  /** The key as a block of 64 octets: long keys are hashed first. */
  function KeyBlock(h: hash, key: seq<byte>): (b: seq<byte>)
    ensures |b| == 64
  {
    if |key| > 64 then h(key) + Zeros(32) else key + Zeros(64 - |key|)
  }

  function Masked(b: seq<byte>, pad: byte): (m: seq<byte>)
    ensures |m| == |b|
  {
    seq(|b|, k requires 0 <= k < |b| => Xored(pad, b[k]))
  }

  /** Section 2 of RFC 2104. */
  function HmacOf(h: hash, key: seq<byte>, text: seq<byte>): digest {
    var k := KeyBlock(h, key);
    h(Masked(k, 0x5c) + h(Masked(k, 0x36) + text))
  }

  /** Long keys stand for their hash, and short ones for themselves with zeros behind them. */
  lemma KeysAsBlocks(h: hash, key: seq<byte>, text: seq<byte>)
    ensures |key| > 64 ==> HmacOf(h, key, text) == HmacOf(h, h(key), text)
    ensures |key| <= 64 ==> HmacOf(h, key, text) == HmacOf(h, key + Zeros(64 - |key|), text)
  {
    hide Masked;
    if |key| <= 64 {
      var b := key + Zeros(64 - |key|);
      assert b + Zeros(0) == b;
    }
  }

  /** For a key block of zeros the pads are left: 0x36 inside, and 0x5c outside. */
  lemma PadsOfZeros(h: hash, text: seq<byte>)
    ensures HmacOf(h, Zeros(64), text) == h(seq(64, i => 0x5c) + h(seq(64, i => 0x36) + text))
  {
    assert KeyBlock(h, Zeros(64)) == Zeros(64);
    MaskedZeros(0x36);
    MaskedZeros(0x5c);
  }

  lemma MaskedZeros(c: byte)
    ensures Masked(Zeros(64), c) == seq(64, i => c)
  {
  }

  /** The pads are added bit by bit: adding one again gives the block back. */
  lemma MaskedTwice(b: seq<byte>, c: byte)
    ensures Masked(Masked(b, c), c) == b
  {
  }

  /** T(n) of section 2.3 of RFC 5869; the counter octet wraps, where the standard stops at 255. */
  function T(h: hash, prk: seq<byte>, info: seq<byte>, n: nat): (t: seq<byte>)
    ensures |t| == if n == 0 then 0 else 32
  {
    if n == 0 then [] else HmacOf(h, prk, T(h, prk, info, n - 1) + info + [(n % 0x100) as byte])
  }

  /** T(1) | T(2) | ... | T(n). */
  function Output(h: hash, prk: seq<byte>, info: seq<byte>, n: nat): (o: seq<byte>)
    ensures |o| == 32 * n
  {
    if n == 0 then [] else Output(h, prk, info, n - 1) + T(h, prk, info, n)
  }

  /** The first two blocks: each is made of the one before it, the info and its number. */
  lemma FirstBlocks(h: hash, prk: seq<byte>, info: seq<byte>)
    ensures var t1 := HmacOf(h, prk, info + [1]);
      Output(h, prk, info, 2) == t1 + HmacOf(h, prk, t1 + info + [2])
  {
    hide HmacOf;
    assert [] + info + [1] == info + [1];
    assert T(h, prk, info, 1) == HmacOf(h, prk, info + [1]);
    assert Output(h, prk, info, 1) == [] + T(h, prk, info, 1);
  }

  function BlocksFor(length: nat): (n: nat)
    ensures 32 * n >= length
    ensures n == 0 || 32 * (n - 1) < length
  {
    (length + 31) / 32
  }

  /** HKDF-Expand: the first octets of the output. */
  function Expand(h: hash, prk: seq<byte>, info: seq<byte>, length: nat): (o: seq<byte>)
    ensures |o| == length
  {
    Output(h, prk, info, BlocksFor(length))[..length]
  }

  /** HKDF, section 2 of RFC 5869. */
  function Hkdf(h: hash, key: seq<byte>, salt: seq<byte>, info: seq<byte>, length: nat): (o: seq<byte>)
    ensures |o| == length
  {
    Expand(h, HmacOf(h, salt, key), info, length)
  }

  /** Up to 255 blocks every counter octet is the number of its block, as the standard has it. */
  lemma CounterIsBlockNumber(length: nat, n: nat)
    requires length <= 255 * 32 && 1 <= n <= BlocksFor(length)
    ensures ((n % 0x100) as byte) as int == n
  {
    OctetValue(n);
  }

  /** The size of a message for which the padding is the standard's. */
  predicate Regular(size: nat) {
    size < 0x2000_0000_0000_0000 && size % 64 <= 55
  }

  lemma HmacIsStandard(key: seq<byte>, text: seq<byte>)
    requires Regular(64 + |text|) && (|key| <= 64 || Regular(|key|))
    ensures HmacOf(Digest, key, text) == HmacOf(Standard, key, text)
  {
    hide Digest, Standard, Masked;
    if |key| > 64 {
      DigestIsStandard(key);
    }
    var k := KeyBlock(Digest, key);
    DigestIsStandard(Masked(k, 0x36) + text);
    DigestIsStandard(Masked(k, 0x5c) + Digest(Masked(k, 0x36) + text));
  }

  lemma {:induction false} BlockIsStandard(prk: seq<byte>, info: seq<byte>, n: nat)
    requires |prk| <= 64 && Regular(64 + |info| + 1) && (1 < n ==> Regular(64 + |info| + 33))
    ensures T(Digest, prk, info, n) == T(Standard, prk, info, n)
  {
    hide HmacOf;
    if n != 0 {
      BlockIsStandard(prk, info, n - 1);
      HmacIsStandard(prk, T(Digest, prk, info, n - 1) + info + [(n % 0x100) as byte]);
    }
  }

  lemma {:induction false} OutputIsStandard(prk: seq<byte>, info: seq<byte>, n: nat)
    requires |prk| <= 64 && Regular(64 + |info| + 1) && (1 < n ==> Regular(64 + |info| + 33))
    ensures Output(Digest, prk, info, n) == Output(Standard, prk, info, n)
  {
    hide T;
    if n != 0 {
      OutputIsStandard(prk, info, n - 1);
      BlockIsStandard(prk, info, n);
    }
  }

  /** Derived keys are those of RFC 5869 over SHA-256 when every hashed message has a regular size. */
  lemma HkdfIsStandard(key: seq<byte>, salt: seq<byte>, info: seq<byte>, length: nat)
    requires Regular(64 + |key|) && (|salt| <= 64 || Regular(|salt|))
    requires Regular(64 + |info| + 1) && (32 < length ==> Regular(64 + |info| + 33))
    ensures Hkdf(Digest, key, salt, info, length) == Hkdf(Standard, key, salt, info, length)
  {
    hide HmacOf, Output;
    HmacIsStandard(salt, key);
    OutputIsStandard(HmacOf(Digest, salt, key), info, BlocksFor(length));
  }

  /** A pad buffer of 64 equal octets, each combined with an octet of the key block. */
  method MaskInPlace(pad: ByteBuffer, paddedKey: ByteBuffer, ghost c: byte)
    requires pad.Valid() && paddedKey.Valid() && pad.buffer != paddedKey.buffer
    requires pad.buffer.Length == paddedKey.buffer.Length == 64
    requires forall k :: 0 <= k < 64 ==> pad.buffer[k] == c
    modifies pad.buffer
    ensures pad.Bytes() == Masked(paddedKey.Bytes(), c)
  {
    hide Xored;
    for i := 0 to 64
      invariant forall k :: 0 <= k < i ==> pad.buffer[k] == Xored(c, paddedKey.buffer[k])
      invariant forall k :: i <= k < 64 ==> pad.buffer[k] == c
    {
      pad.buffer[i] := Xored(pad.buffer[i], paddedKey.buffer[i]);
    }
  }

  /** Where a key's read cursor ends: a long key is hashed without being read. */
  function AfterKey(size: nat): nat { if size > 64 then 0 else size }

  method PadKey(key: ByteBuffer) returns (paddedKey: ByteBuffer)
    requires key.Valid() && key.buffer.Length + 64 < 0x8000_0000_0000_0000
    modifies key`readIndex
    ensures key.Valid() && paddedKey.Valid() && fresh(paddedKey) && fresh(paddedKey.buffer)
    ensures paddedKey.Bytes() == KeyBlock(Digest, key.Bytes())
    ensures key.readIndex == AfterKey(key.buffer.Length)
  {
    hide Digest, Written;
    key.ResetRead();
    paddedKey := new ByteBuffer(64);
    if key.buffer.Length > 64 {
      var d := Encode256(key);
      var ok := d.ReadToBuffer(paddedKey, 32);
      assert d.Bytes()[0..32] == d.Bytes();
      WrittenAtStart(d.Bytes());
    } else {
      var ok := key.ReadToBuffer(paddedKey, key.buffer.Length);
      assert key.Bytes()[0..key.buffer.Length] == key.Bytes();
      WrittenAtStart(key.Bytes());
    }
  }

  lemma WrittenAtStart(data: seq<byte>)
    requires |data| <= 64
    ensures Written(Zeros(64), 0, data) == data + Zeros(64 - |data|)
  {
  }

  /** hmac256 over whole buffers, whatever their cursors were. */
  method Hmac256(key: ByteBuffer, data: ByteBuffer) returns (mac: ByteBuffer)
    requires key.Valid() && data.Valid()
    requires key.buffer.Length + 64 < 0x8000_0000_0000_0000 && data.buffer.Length + 128 < 0x8000_0000_0000_0000
    modifies key`readIndex, data`readIndex
    ensures key.Valid() && data.Valid() && data.readIndex == data.buffer.Length
    ensures mac.Valid() && fresh(mac) && fresh(mac.buffer)
    ensures mac.buffer.Length == 32 && mac.readIndex == 0 && mac.writeIndex == 32
    ensures mac.Bytes() == HmacOf(Digest, key.Bytes(), data.Bytes())
    ensures key != data ==> key.readIndex == AfterKey(key.buffer.Length)
  {
    hide Digest, KeyBlock, Masked;
    data.ResetRead();
    var paddedKey := PadKey(key);
    var iKeyPad := new ByteBuffer.Copy(seq(64, i => 0x36));
    var oKeyPad := new ByteBuffer.Copy(seq(64, i => 0x5c));
    MaskInPlace(iKeyPad, paddedKey, 0x36);
    MaskInPlace(oKeyPad, paddedKey, 0x5c);
    var innerText := iKeyPad.Plus(data);
    var inner := Encode256(innerText);
    var outerText := oKeyPad.Plus(inner);
    mac := Encode256(outerText);
  }

  lemma TextComposed(start: seq<byte>, at: nat, info: seq<byte>, counter: byte)
    requires at + |info| + 1 <= |start|
    ensures Written(start, at, info)[at + |info| := counter][0..at + |info| + 1] == start[..at] + info + [counter]
  {
  }

  /** The text of the next block: what temp holds, the info and the counter. */
  method ComposeText(info: ByteBuffer, temp: ByteBuffer, counter: byte) returns (text: ByteBuffer)
    requires info.Valid() && temp.Valid() && temp != info && temp.buffer != info.buffer
    requires temp.writeIndex + info.buffer.Length + 1 <= temp.buffer.Length
    modifies info`readIndex, temp`readIndex, temp`writeIndex, temp.buffer
    ensures info.Valid() && temp.Valid() && text.Valid() && fresh(text) && fresh(text.buffer)
    ensures info.readIndex == info.buffer.Length
    ensures text.Bytes() == old(temp.Bytes())[..old(temp.writeIndex)] + info.Bytes() + [counter]
  {
    hide Written;
    info.ResetRead();
    var ok := info.ReadToBuffer(temp, info.buffer.Length);
    assert info.Bytes()[0..info.buffer.Length] == info.Bytes();
    ok := temp.Write(counter);
    temp.ResetRead();
    text := temp.ReadSlice(temp.writeIndex);
    TextComposed(old(temp.Bytes()), old(temp.writeIndex), info.Bytes(), counter);
  }

  /** The written part of a buffer. */
  ghost predicate Holds(s: seq<byte>, length: nat, written: seq<byte>) {
    length == |written| <= |s| && s[..length] == written
  }

  /** temp is refilled with the block just made. */
  method KeepBlock(t: ByteBuffer, temp: ByteBuffer)
    requires t.Valid() && temp.Valid() && temp != t && temp.buffer != t.buffer
    requires t.buffer.Length == 32 <= temp.buffer.Length
    modifies t`readIndex, temp`readIndex, temp`writeIndex, temp.buffer
    ensures temp.Valid() && temp.writeIndex == 32 && temp.Bytes()[..32] == t.Bytes()
  {
    temp.Clear();
    t.ResetRead();
    var ok := t.ReadToBuffer(temp, 32);
    assert t.Bytes()[0..32] == t.Bytes();
  }

  /** Where the two read cursors end: info has been read, and then prk has been used as a key. */
  ghost predicate Spent(prk: ByteBuffer, info: ByteBuffer)
    reads prk, info
  {
    prk.readIndex == AfterKey(prk.buffer.Length) && (info != prk ==> info.readIndex == info.buffer.Length)
  }

  /** The block behind those already made. */
  method NextT(prk: ByteBuffer, info: ByteBuffer, temp: ByteBuffer, i: nat, ghost n: nat) returns (t: ByteBuffer)
    requires prk.Valid() && info.Valid() && temp.Valid() && i == (n + 1) % 0x100
    requires prk != temp && info != temp && temp.buffer !in {prk.buffer, info.buffer}
    requires prk.buffer.Length + 64 < 0x8000_0000_0000_0000 && info.buffer.Length + 192 < 0x8000_0000_0000_0000
    requires temp.buffer.Length == info.buffer.Length + 33
    requires Holds(temp.Bytes(), temp.writeIndex, T(Digest, prk.Bytes(), info.Bytes(), n))
    modifies prk`readIndex, info`readIndex, temp`readIndex, temp`writeIndex, temp.buffer
    ensures prk.Valid() && info.Valid() && temp.Valid()
    ensures t.Valid() && fresh(t) && fresh(t.buffer) && t.buffer.Length == 32 && t.readIndex == 0
    ensures t.Bytes() == T(Digest, prk.Bytes(), info.Bytes(), n + 1)
    ensures Spent(prk, info)
  {
    hide HmacOf;
    prk.ResetRead();
    var text := ComposeText(info, temp, i as byte);
    t := Hmac256(prk, text);
  }

  method Append(t: ByteBuffer, okm: ByteBuffer)
    requires t.Valid() && okm.Valid() && t != okm && t.buffer != okm.buffer
    requires t.buffer.Length == 32 && t.readIndex == 0 && okm.writeIndex + 32 <= okm.buffer.Length
    modifies t`readIndex, okm`writeIndex, okm.buffer
    ensures t.Valid() && okm.Valid() && okm.writeIndex == old(okm.writeIndex) + 32
    ensures okm.Bytes()[..okm.writeIndex] == old(okm.Bytes())[..old(okm.writeIndex)] + t.Bytes()
  {
    var ok := t.ReadToBuffer(okm, 32);
    assert t.Bytes()[0..32] == t.Bytes();
  }

  /** One turn of the loop of hkdf256Expand: no buffer step fails. */
  method ExpandTurn(prk: ByteBuffer, info: ByteBuffer, okm: ByteBuffer, temp: ByteBuffer, i: nat, ghost n: nat)
    requires prk.Valid() && info.Valid() && okm.Valid() && temp.Valid() && i == (n + 1) % 0x100
    requires prk != okm && prk != temp && info != okm && info != temp && okm != temp
    requires okm.buffer !in {prk.buffer, info.buffer, temp.buffer} && temp.buffer !in {prk.buffer, info.buffer}
    requires prk.buffer.Length + 64 < 0x8000_0000_0000_0000 && info.buffer.Length + 192 < 0x8000_0000_0000_0000
    requires temp.buffer.Length == info.buffer.Length + 33 && okm.writeIndex + 32 <= okm.buffer.Length
    requires Holds(temp.Bytes(), temp.writeIndex, T(Digest, prk.Bytes(), info.Bytes(), n))
    modifies prk`readIndex, info`readIndex, okm`writeIndex, okm.buffer, temp`readIndex, temp`writeIndex, temp.buffer
    ensures prk.Valid() && info.Valid() && okm.Valid() && temp.Valid()
    ensures okm.writeIndex == old(okm.writeIndex) + 32
    requires Holds(okm.Bytes(), okm.writeIndex, Output(Digest, prk.Bytes(), info.Bytes(), n))
    ensures Holds(temp.Bytes(), temp.writeIndex, T(Digest, prk.Bytes(), info.Bytes(), n + 1))
    ensures Holds(okm.Bytes(), okm.writeIndex, Output(Digest, prk.Bytes(), info.Bytes(), n + 1))
    ensures Spent(prk, info)
  {
    hide T, Spent;
    var t := NextT(prk, info, temp, i, n);
    Append(t, okm);
    KeepBlock(t, temp);
  }

  /** The loop of hkdf256Expand, which stops when the output is long enough. */
  method ExpandAll(prk: ByteBuffer, info: ByteBuffer, okm: ByteBuffer, temp: ByteBuffer, length: nat)
    returns (ghost n: nat)
    requires prk.Valid() && info.Valid() && okm.Valid() && temp.Valid()
    requires prk != okm && prk != temp && info != okm && info != temp && okm != temp
    requires okm.buffer !in {prk.buffer, info.buffer, temp.buffer} && temp.buffer !in {prk.buffer, info.buffer}
    requires prk.buffer.Length + 64 < 0x8000_0000_0000_0000 && info.buffer.Length + 192 < 0x8000_0000_0000_0000
    requires okm.buffer.Length == (length / 32 + 1) * 32 && temp.buffer.Length == info.buffer.Length + 33
    requires okm.writeIndex == okm.readIndex == temp.writeIndex == 0
    modifies prk`readIndex, info`readIndex, okm`writeIndex, okm.buffer, temp`readIndex, temp`writeIndex, temp.buffer
    ensures prk.Valid() && info.Valid() && okm.Valid()
    ensures okm.writeIndex == 32 * n && n <= BlocksFor(length) && length <= 32 * n
    ensures Holds(okm.Bytes(), okm.writeIndex, Output(Digest, prk.Bytes(), info.Bytes(), n))
    ensures length > 0 ==> Spent(prk, info)
  {
    hide T, Output, Holds, Spent;
    ghost var p, x := prk.Bytes(), info.Bytes();
    var i := 1;
    n := 0;
    FirstBlock(p, x);
    while okm.writeIndex < length
      invariant prk.Valid() && info.Valid() && okm.Valid() && temp.Valid()
      invariant prk.Bytes() == p && info.Bytes() == x
      invariant i == (n + 1) % 0x100 && okm.writeIndex == 32 * n && n <= BlocksFor(length)
      invariant Holds(temp.Bytes(), temp.writeIndex, T(Digest, p, x, n))
      invariant Holds(okm.Bytes(), okm.writeIndex, Output(Digest, p, x, n))
      invariant n > 0 ==> Spent(prk, info)
      decreases length - okm.writeIndex
    {
      ExpandTurn(prk, info, okm, temp, i, n);
      i := (i + 1) % 0x100;
      n := n + 1;
    }
  }

  /** hkdf256Expand. */
  method HkdfExpand(prk: ByteBuffer, info: ByteBuffer, length: nat) returns (result: ByteBuffer)
    requires prk.Valid() && info.Valid()
    requires prk.buffer.Length + 64 < 0x8000_0000_0000_0000 && info.buffer.Length + 192 < 0x8000_0000_0000_0000
    requires length + 64 < 0x8000_0000_0000_0000
    modifies prk`readIndex, info`readIndex
    ensures prk.Valid() && info.Valid() && result.Valid() && fresh(result) && fresh(result.buffer)
    ensures result.readIndex == 0 && result.writeIndex == length
    ensures result.Bytes() == Expand(Digest, prk.Bytes(), info.Bytes(), length)
    ensures length > 0 ==> Spent(prk, info)
  {
    hide T, Output, Expand, Holds, Spent;
    var okm := new ByteBuffer((length / 32 + 1) * 32);
    var temp := new ByteBuffer(32 + info.buffer.Length + 1);
    ghost var n := ExpandAll(prk, info, okm, temp, length);
    result := okm.ReadSlice(length);
    Taken(okm.Bytes(), prk.Bytes(), info.Bytes(), n, length);
  }

  lemma FirstBlock(prk: seq<byte>, info: seq<byte>)
    ensures forall s: seq<byte> :: Holds(s, 0, T(Digest, prk, info, 0)) && Holds(s, 0, Output(Digest, prk, info, 0))
  {
  }

  lemma Taken(okm: seq<byte>, prk: seq<byte>, info: seq<byte>, n: nat, length: nat)
    requires n <= BlocksFor(length) && length <= 32 * n <= |okm|
    requires Holds(okm, 32 * n, Output(Digest, prk, info, n))
    ensures okm[0..length] == Expand(Digest, prk, info, length)
  {
    hide Output;
    assert okm[..32 * n][..length] == okm[0..length];
  }

  /** hkdf256: extract, then expand. */
  method Hkdf256(key: ByteBuffer, seed: ByteBuffer, info: ByteBuffer, length: nat) returns (result: ByteBuffer)
    requires key.Valid() && seed.Valid() && info.Valid()
    requires key.buffer.Length + 128 < 0x8000_0000_0000_0000 && seed.buffer.Length + 64 < 0x8000_0000_0000_0000
    requires info.buffer.Length + 192 < 0x8000_0000_0000_0000 && length + 64 < 0x8000_0000_0000_0000
    modifies key`readIndex, seed`readIndex, info`readIndex
    ensures key.Valid() && seed.Valid() && info.Valid()
    ensures key !in {seed, info} ==> key.readIndex == key.buffer.Length
    ensures seed !in {key, info} ==> seed.readIndex == AfterKey(seed.buffer.Length)
    ensures length > 0 ==> info.readIndex == info.buffer.Length
    ensures result.Valid() && fresh(result) && fresh(result.buffer)
    ensures result.readIndex == 0 && result.writeIndex == length
    ensures result.Bytes() == Hkdf(Digest, key.Bytes(), seed.Bytes(), info.Bytes(), length)
  {
    hide HmacOf, Expand;
    var prk := Hmac256(seed, key);
    result := HkdfExpand(prk, info, length);
  }
}
