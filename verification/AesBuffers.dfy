/**
 encryptAes_impl and decryptAes_impl: group by group, with a padded last group and a
 trailing octet for its length.
 */
module AesBuffers {
  import opened Bytes
  import opened ByteBuffers
  import opened AesRounds
  import opened Aes
  import opened AesKeys

  /** The first m groups of 16 octets, each mapped by f. */
  ghost function Groups(f: block -> block, data: seq<byte>, m: nat): (s: seq<byte>)
    requires 16 * m <= |data|
    ensures |s| == 16 * m
  {
    if m == 0 then [] else Groups(f, data, m - 1) + f(Group(data, m - 1))
  }

  ghost function Enciphering(keys: seq<block>): block -> block
    requires 1 < |keys|
  {
    b => EncryptOctets(keys, b)
  }

  ghost function Deciphering(keys: seq<block>): block -> block
    requires 1 < |keys|
  {
    b => DecryptOctets(keys, b)
  }

  /** Whole groups encrypted; a partial last group is padded with zeros and followed by its length. */
  ghost function Encrypted(keys: seq<block>, data: seq<byte>): (s: seq<byte>)
    requires 1 < |keys|
  {
    var e := |data| % 16;
    Groups(Enciphering(keys), data, |data| / 16)
    + if e == 0 then [] else EncryptOctets(keys, data[|data| - e..] + Zeros(16 - e)) + [e as byte]
  }

  /** The length that decryption announces. */
  ghost function PlainLength(data: seq<byte>): int {
    if |data| % 16 == 0 then |data| else |data| - 17 + data[|data| - 1] as int
  }

  /** Where decryption stays inside its input and its output. */
  ghost predicate Decryptable(data: seq<byte>) {
    |data| % 16 != 0 ==> 17 <= |data| && (data[|data| - 1] != 0 ==> PlainLength(data) / 16 * 16 <= |data| - 17)
  }

  ghost function Decrypted(keys: seq<block>, data: seq<byte>): (s: seq<byte>)
    requires 1 < |keys| && Decryptable(data)
  {
    var n := PlainLength(data);
    var e := if |data| % 16 == 0 then 0 else data[|data| - 1] as int;
    var whole := Groups(Deciphering(keys), data, n / 16);
    var last := if e == 0 then [] else DecryptOctets(keys, data[|data| - 17..|data| - 1])[..e];
    whole + last + Zeros(n - |whole| - |last|)
  }

  lemma ByteOfLength(e: nat)
    requires 0 < e < 16
    ensures e as byte as int == e && e as byte != 0
  {
  }

  /** Every whole group is encrypted where it stands. */
  lemma GroupInPlace(keys: seq<block>, data: seq<byte>, j: nat)
    requires 1 < |keys| && j < |data| / 16
    ensures |Encrypted(keys, data)| >= 16 * j + 16
    ensures Group(Encrypted(keys, data), j) == EncryptOctets(keys, Group(data, j))
  {
    hide EncryptOctets;
    var whole := Groups(Enciphering(keys), data, |data| / 16);
    GroupAt(Enciphering(keys), data, |data| / 16, j);
    assert Encrypted(keys, data)[..|whole|] == whole;
    assert Group(Encrypted(keys, data), j) == Group(whole, j);
  }

  lemma {:induction false} GroupAt(f: block -> block, data: seq<byte>, m: nat, j: nat)
    requires j < m && 16 * m <= |data|
    ensures Group(Groups(f, data, m), j) == f(Group(data, j))
  {
    var front := Groups(f, data, m - 1);
    if j == m - 1 {
      assert Group(Groups(f, data, m), j) == f(Group(data, j));
    } else {
      GroupAt(f, data, m - 1, j);
      assert Group(Groups(f, data, m), j) == Group(front, j);
    }
  }

  /** Groups decrypted after being encrypted, whatever follows them. */
  lemma {:induction false} GroupsRoundTrip(keys: seq<block>, data: seq<byte>, m: nat, rest: seq<byte>)
    requires 1 < |keys| && 16 * m <= |data|
    ensures Groups(Deciphering(keys), Groups(Enciphering(keys), data, m) + rest, m) == data[..16 * m]
  {
    hide EncryptOctets, DecryptOctets;
    if m != 0 {
      var e := Enciphering(keys);
      var x := e(Group(data, m - 1));
      GroupsRoundTrip(keys, data, m - 1, x + rest);
      assert Groups(e, data, m) + rest == Groups(e, data, m - 1) + (x + rest);
      assert Group(Groups(e, data, m) + rest, m - 1) == x;
      OctetsRoundTrip(keys, Group(data, m - 1));
    }
  }

  /** A partial last group becomes 17 octets, which decryption finds again at the end. */
  lemma PartialShape(keys: seq<block>, data: seq<byte>)
    requires 1 < |keys| && |data| % 16 != 0
    ensures var e, m, c := |data| % 16, |data| / 16, Encrypted(keys, data);
      var last := EncryptOctets(keys, data[16 * m..] + Zeros(16 - e));
      && c == Groups(Enciphering(keys), data, m) + (last + [e as byte])
      && |c| == 16 * m + 17 && |c| % 16 == 1 && c[16 * m + 16] as int == e
      && c[16 * m..16 * m + 16] == last
      && PlainLength(c) == |data|
  {
    hide EncryptOctets, Groups;
    ByteOfLength(|data| % 16);
  }

  /** Decryption undoes encryption of every byte string, of any length. */
  lemma RoundTrip(keys: seq<block>, data: seq<byte>)
    requires 1 < |keys|
    ensures Decryptable(Encrypted(keys, data))
    ensures Decrypted(keys, Encrypted(keys, data)) == data
  {
    hide EncryptOctets, DecryptOctets, Groups, Enciphering, Deciphering;
    var e, m := |data| % 16, |data| / 16;
    var c := Encrypted(keys, data);
    if e == 0 {
      GroupsRoundTrip(keys, data, m, []);
      assert c == Groups(Enciphering(keys), data, m) + [];
    } else {
      var padded := data[16 * m..] + Zeros(16 - e);
      var last := EncryptOctets(keys, padded);
      PartialShape(keys, data);
      GroupsRoundTrip(keys, data, m, last + [e as byte]);
      OctetsRoundTrip(keys, padded);
      assert data[..16 * m] + padded[..e] == data;
      assert Zeros(0) == [];
    }
  }

  /** An output whose first m groups are done. */
  ghost function Partly(f: block -> block, input: seq<byte>, start: seq<byte>, m: nat): (s: seq<byte>)
    requires 16 * m <= |input| && 16 * m <= |start|
    ensures |s| == |start|
  {
    Groups(f, input, m) + start[16 * m..]
  }

  lemma PartlyNone(f: block -> block, input: seq<byte>, start: seq<byte>)
    ensures Partly(f, input, start, 0) == start
  {
  }

  lemma PartlyIs(f: block -> block, input: seq<byte>, start: seq<byte>, m: nat)
    requires 16 * m <= |input| && 16 * m <= |start|
    ensures Partly(f, input, start, m) == Groups(f, input, m) + start[16 * m..]
  {
  }

  /** The next group written behind those already done. */
  lemma GroupAppended(f: block -> block, input: seq<byte>, start: seq<byte>, i: nat)
    requires 16 * i + 16 <= |input| && 16 * i + 16 <= |start|
    ensures var now := Partly(f, input, start, i);
      now[..16 * i] + f(Group(input, i)) + now[16 * i + 16..] == Partly(f, input, start, i + 1)
  {
    hide Group;
    assert Groups(f, input, i + 1) == Groups(f, input, i) + f(Group(input, i));
  }

  lemma Applied(keys: seq<block>, x: block)
    requires 1 < |keys|
    ensures Enciphering(keys)(x) == EncryptOctets(keys, x)
    ensures Deciphering(keys)(x) == DecryptOctets(keys, x)[..16]
  {
    hide EncryptOctets, DecryptOctets;
  }

  method EncryptGroups(keys: seq<block>, input: seq<byte>, out: array<byte>)
    requires 1 < |keys| && |input| / 16 * 16 <= out.Length
    modifies out
    ensures var n := |input| / 16;
      out[..] == Groups(Enciphering(keys), input, n) + old(out[..])[16 * n..]
  {
    hide EncryptOctets, Groups, Group, Enciphering, Partly;
    ghost var start, f := out[..], Enciphering(keys);
    PartlyNone(f, input, start);
    for i := 0 to |input| / 16
      invariant out[..] == Partly(f, input, start, i)
    {
      EncryptGroup(keys, Group(input, i), out, 16 * i);
      Applied(keys, Group(input, i));
      GroupAppended(f, input, start, i);
    }
    PartlyIs(f, input, start, |input| / 16);
  }

  method DecryptGroups(keys: seq<block>, input: seq<byte>, out: array<byte>, cycles: nat)
    requires 1 < |keys| && 16 * cycles <= |input| && 16 * cycles <= out.Length
    modifies out
    ensures out[..] == Groups(Deciphering(keys), input, cycles) + old(out[..])[16 * cycles..]
  {
    hide DecryptOctets, Groups, Group, Deciphering, Partly;
    ghost var start, f := out[..], Deciphering(keys);
    PartlyNone(f, input, start);
    for i := 0 to cycles
      invariant out[..] == Partly(f, input, start, i)
    {
      DecryptGroup(keys, Group(input, i), out, 16 * i, 16);
      Applied(keys, Group(input, i));
      GroupAppended(f, input, start, i);
    }
    PartlyIs(f, input, start, cycles);
  }

  /** Encryption under a key; a key of another size gives an empty buffer. */
  method EncryptAes(nk: nat, input: seq<byte>, key: ByteBuffer) returns (result: ByteBuffer)
    requires (nk == 4 || nk == 8) && |input| + 17 < 0x8000_0000_0000_0000
    ensures result.Valid() && fresh(result) && fresh(result.buffer)
    ensures result.readIndex == 0 && result.writeIndex == 0
    ensures result.Bytes() == if key.buffer.Length != 4 * nk then [] else Encrypted(RoundKeys(key.Bytes(), nk), input)
  {
    hide KeyWord, RoundKeys, Encrypted;
    if key.buffer.Length != 4 * nk {
      result := new ByteBuffer(0);
      return;
    }
    var extra := |input| % 16;
    result := new ByteBuffer(if extra == 0 then |input| else |input| + 16 - extra + 1);
    var keys := GenerateSubKeys(key.buffer[..], nk);
    EncryptInto(keys, input, result.buffer, extra);
  }

  method EncryptInto(keys: seq<block>, input: seq<byte>, out: array<byte>, extra: nat)
    requires 1 < |keys| && extra == |input| % 16
    requires out.Length == if extra == 0 then |input| else |input| + 16 - extra + 1
    modifies out
    ensures out[..] == Encrypted(keys, input)
  {
    hide EncryptOctets, Groups, Enciphering, Encrypted;
    var cycles := |input| / 16;
    EncryptGroups(keys, input, out);
    WholeShape(keys, input);
    if extra != 0 {
      var lastChunk := input[16 * cycles..] + Zeros(16 - extra);
      EncryptGroup(keys, lastChunk, out, 16 * cycles);
      out[16 * cycles + 16] := extra as byte;
      PartialShape(keys, input);
    }
  }

  /** One block encrypts to one block. */
  lemma SingleBlock(keys: seq<block>, data: block)
    requires 1 < |keys|
    ensures |Encrypted(keys, data)| == 16 && Encrypted(keys, data) == EncryptOctets(keys, data)
  {
    hide EncryptOctets;
    assert Groups(Enciphering(keys), data, 1)
      == Groups(Enciphering(keys), data, 0) + EncryptOctets(keys, Group(data, 0));
    assert Group(data, 0) == data;
  }

  lemma WholeShape(keys: seq<block>, data: seq<byte>)
    requires 1 < |keys|
    ensures |data| % 16 == 0 ==> Encrypted(keys, data) == Groups(Enciphering(keys), data, |data| / 16)
  {
  }

  method DecryptAes(nk: nat, input: seq<byte>, key: ByteBuffer) returns (result: ByteBuffer)
    requires (nk == 4 || nk == 8) && |input| < 0x7fff_ffff_ffff_ff00
    requires key.buffer.Length == 4 * nk ==> Decryptable(input)
    ensures result.Valid() && fresh(result) && fresh(result.buffer)
    ensures result.readIndex == 0 && result.writeIndex == 0
    ensures result.Bytes() == if key.buffer.Length != 4 * nk then [] else Decrypted(RoundKeys(key.Bytes(), nk), input)
  {
    hide KeyWord, RoundKeys, Decrypted;
    if key.buffer.Length != 4 * nk {
      result := new ByteBuffer(0);
      return;
    }
    var partial := |input| % 16 != 0;
    var extra := if partial then input[|input| - 1] as int else 0;
    var size := if partial then |input| - 1 - 16 + extra else |input|;
    result := new ByteBuffer(size);
    var keys := GenerateSubKeys(key.buffer[..], nk);
    DecryptInto(keys, input, result.buffer, size / 16, extra);
  }

  method DecryptInto(keys: seq<block>, input: seq<byte>, out: array<byte>, cycles: nat, extra: nat)
    requires 1 < |keys| && Decryptable(input)
    requires out.Length == PlainLength(input) && out[..] == Zeros(out.Length) && cycles == out.Length / 16
    requires extra == if |input| % 16 != 0 then input[|input| - 1] as int else 0
    modifies out
    ensures out[..] == Decrypted(keys, input)
  {
    hide DecryptOctets, Groups, Deciphering, Decrypted, Zeros;
    DecryptGroups(keys, input, out, cycles);
    ghost var whole := Groups(Deciphering(keys), input, cycles);
    DecryptedParts(keys, input, whole);
    ZerosFrom(out.Length, 16 * cycles);
    if extra != 0 {
      DecryptLast(keys, input[|input| - 17..|input| - 1], out, extra, whole);
    }
  }

  /** The last, partial group, into the zeros behind the whole groups. */
  method DecryptLast(keys: seq<block>, lastChunk: block, out: array<byte>, extra: nat, ghost whole: seq<byte>)
    requires 1 < |keys| && extra <= 16 && |whole| == out.Length / 16 * 16 && |whole| + extra <= out.Length
    requires out[..] == whole + Zeros(out.Length - |whole|)
    modifies out
    ensures out[..] == whole + DecryptOctets(keys, lastChunk)[..extra] + Zeros(out.Length - |whole| - extra)
  {
    hide DecryptOctets, Zeros;
    DecryptGroup(keys, lastChunk, out, out.Length / 16 * 16, extra);
    Splice(whole, Zeros(out.Length - |whole|), DecryptOctets(keys, lastChunk)[..extra]);
    ZerosFrom(out.Length - |whole|, extra);
  }

  lemma ZerosFrom(n: nat, k: nat)
    requires k <= n
    ensures Zeros(n)[k..] == Zeros(n - k)
  {
  }

  lemma Splice(head: seq<byte>, tail: seq<byte>, x: seq<byte>)
    requires |x| <= |tail|
    ensures (head + tail)[..|head|] + x + (head + tail)[|head| + |x|..] == head + x + tail[|x|..]
  {
  }

  lemma DecryptedParts(keys: seq<block>, data: seq<byte>, whole: seq<byte>)
    requires 1 < |keys| && Decryptable(data)
    requires whole == Groups(Deciphering(keys), data, PlainLength(data) / 16)
    ensures |data| % 16 == 0 || data[|data| - 1] == 0 ==>
      Decrypted(keys, data) == whole + Zeros(PlainLength(data) - |whole|)
    ensures |data| % 16 != 0 && data[|data| - 1] != 0 ==>
      var last := DecryptOctets(keys, data[|data| - 17..|data| - 1])[..data[|data| - 1] as int];
      Decrypted(keys, data) == whole + last + Zeros(PlainLength(data) - |whole| - |last|)
  {
    hide DecryptOctets, Groups;
    assert whole + [] == whole;
  }
}
