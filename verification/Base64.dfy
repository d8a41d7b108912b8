/**
 The base 64 encoding of section 4 of RFC 4648, the strings that base64.cpp decodes, and
 where encoding and decoding undo each other.
 */
module Base64 {
  import opened Bytes

  const PAD: byte := 0x3d

  /** The alphabet of table 1 of RFC 4648: A to Z, a to z, 0 to 9, + and /. */
  function Symbol(v: byte): byte
    requires v < 64
  {
    if v < 26 then v + 0x41 else if v < 52 then v + 0x47 else if v < 62 then v - 4 else if v == 62 then 0x2b else 0x2f
  }

  predicate IsSymbol(b: byte) {
    0x41 <= b <= 0x5a || 0x61 <= b <= 0x7a || 0x30 <= b <= 0x39 || b == 0x2b || b == 0x2f
  }

  function Value(b: byte): (v: byte)
    requires IsSymbol(b)
    ensures v < 64
  {
    if 0x41 <= b <= 0x5a then b - 0x41
    else if 0x61 <= b <= 0x7a then b - 0x47
    else if 0x30 <= b <= 0x39 then b + 0x04
    else if b == 0x2b then 0x3e else 0x3f
  }

  lemma SymbolValue(v: byte)
    requires v < 64
    ensures IsSymbol(Symbol(v)) && Value(Symbol(v)) == v && Symbol(v) != PAD
  {
  }

  lemma ValueSymbol(b: byte)
    requires IsSymbol(b)
    ensures Symbol(Value(b)) == b && b != PAD
  {
  }

  /** The alphabet in its order: four runs of characters, and a last one of its own. */
  lemma Alphabet(v: byte)
    requires v < 63
    ensures v !in {25, 51, 61, 62} ==> Symbol(v + 1) == Symbol(v) + 1
    ensures Symbol(0) == 0x41 && Symbol(26) == 0x61 && Symbol(52) == 0x30 && Symbol(62) == 0x2b && Symbol(63) == 0x2f
  {
  }

  /** The four groups of six bits in three octets. */
  function Six1(x: byte): (v: byte) ensures v < 64 { x >> 2 }

  function Six2(x: byte, y: byte): (v: byte) ensures v < 64 { ((x & 0x03) << 4) | (y >> 4) }

  function Six3(y: byte, z: byte): (v: byte) ensures v < 64 { ((y & 0x0f) << 2) | (z >> 6) }

  function Six4(z: byte): (v: byte) ensures v < 64 { z & 0x3f }

  /** The three octets in four groups of six bits. */
  function Octet1(a: byte, b: byte): byte { (a << 2) | (b >> 4) }

  function Octet2(b: byte, c: byte): byte { (b << 4) | (c >> 2) }

  function Octet3(c: byte, d: byte): byte { (c << 6) | d }

  lemma OctetsBack(x: byte, y: byte, z: byte)
    ensures Octet1(Six1(x), Six2(x, y)) == x && Octet2(Six2(x, y), Six3(y, z)) == y && Octet3(Six3(y, z), Six4(z)) == z
  {
  }

  lemma SixesBack(a: byte, b: byte, c: byte, d: byte)
    requires a < 64 && b < 64 && c < 64 && d < 64
    ensures var x, y, z := Octet1(a, b), Octet2(b, c), Octet3(c, d);
      Six1(x) == a && Six2(x, y) == b && Six3(y, z) == c && Six4(z) == d
  {
  }

  /** Three octets and their four groups are the same number of 24 bits. */
  lemma SameNumber(x: byte, y: byte, z: byte)
    ensures (Six1(x) as bv24 << 18) | (Six2(x, y) as bv24 << 12) | (Six3(y, z) as bv24 << 6) | Six4(z) as bv24
      == (x as bv24 << 16) | (y as bv24 << 8) | z as bv24
  {
  }

  /** The number of groups that n octets make. */
  function GroupsFor(n: nat): nat {
    if n == 0 then 0 else if n <= 3 then 1 else 1 + GroupsFor(n - 3)
  }

  lemma {:induction false} GroupsForIs(n: nat)
    ensures GroupsFor(n) == n / 3 + if n % 3 > 0 then 1 else 0
  {
    if 3 < n {
      GroupsForIs(n - 3);
    }
  }

  function Encoded(data: seq<byte>): (s: seq<byte>)
    ensures |s| == 4 * GroupsFor(|data|)
    ensures |s| % 4 == 0
  {
    if |data| == 0 then []
    else if |data| == 1 then [Symbol(Six1(data[0])), Symbol(Six2(data[0], 0)), PAD, PAD]
    else if |data| == 2 then [Symbol(Six1(data[0])), Symbol(Six2(data[0], data[1])), Symbol(Six3(data[1], 0)), PAD]
    else
      FourSymbols(data) + Encoded(data[3..])
  }

  function FourSymbols(data: seq<byte>): (s: seq<byte>)
    requires 3 <= |data|
    ensures |s| == 4
  {
    [Symbol(Six1(data[0])), Symbol(Six2(data[0], data[1])), Symbol(Six3(data[1], data[2])), Symbol(Six4(data[2]))]
  }

  datatype Option<T> = None | Some(value: T)

  /** One group of four characters: three octets, or fewer where padding ends the last group. */
  function GroupOctets(s: seq<byte>, isLast: bool): Option<seq<byte>>
    requires |s| == 4
  {
    if !IsSymbol(s[0]) || !IsSymbol(s[1]) then None
    else if isLast && s[2] == PAD then Some([Octet1(Value(s[0]), Value(s[1]))])
    else if !IsSymbol(s[2]) then None
    else if isLast && s[3] == PAD then Some([Octet1(Value(s[0]), Value(s[1])), Octet2(Value(s[1]), Value(s[2]))])
    else if !IsSymbol(s[3]) then None
    else Some([Octet1(Value(s[0]), Value(s[1])), Octet2(Value(s[1]), Value(s[2])), Octet3(Value(s[2]), Value(s[3]))])
  }

  /** What the loop writes, or nothing when it meets a character it refuses. */
  function Read(s: seq<byte>): Option<seq<byte>>
    requires |s| % 4 == 0
  {
    if s == [] then Some([])
    else
      var first := GroupOctets(s[..4], |s| == 4);
      if first.None? then None
      else
        var rest := Read(s[4..]);
        if rest.None? then None else Some(first.value + rest.value)
  }

  /** Padding as it is counted: the last two characters, each for itself. */
  function PaddingOf(s: seq<byte>): (n: nat)
    requires 4 <= |s|
    ensures n <= 2
  {
    (if s[|s| - 1] == PAD then 1 else 0) + (if s[|s| - 2] == PAD then 1 else 0)
  }

  lemma {:induction false} ReadFits(s: seq<byte>)
    requires |s| % 4 == 0 && s != [] && Read(s).Some?
    ensures |Read(s).value| <= |s| / 4 * 3 - PaddingOf(s)
    ensures PaddingOf(s) != 1 || s[|s| - 1] == PAD ==> |Read(s).value| == |s| / 4 * 3 - PaddingOf(s)
    decreases |s|
  {
    hide IsSymbol, Value, Octet1, Octet2, Octet3;
    if |s| != 4 {
      ReadFits(s[4..]);
    } else {
      PadIsNoSymbol();
      assert s[4..] == [] && s[..4] == s;
    }
  }

  lemma PadIsNoSymbol()
    ensures !IsSymbol(PAD)
  {
  }

  /** The buffer that decryptBase64 returns: what was written, and zeros up to the counted size. */
  function Decoded(s: seq<byte>): seq<byte> {
    if |s| % 4 != 0 || |s| == 0 then []
    else
      var r := Read(s);
      if r.None? then []
      else
        ReadFits(s);
        r.value + Zeros(|s| / 4 * 3 - PaddingOf(s) - |r.value|)
  }

  lemma GroupBack(x: byte, y: byte, z: byte, isLast: bool)
    ensures GroupOctets([Symbol(Six1(x)), Symbol(Six2(x, y)), Symbol(Six3(y, z)), Symbol(Six4(z))], isLast)
      == Some([x, y, z])
    ensures GroupOctets([Symbol(Six1(x)), Symbol(Six2(x, y)), Symbol(Six3(y, z)), PAD], true) == Some([x, y])
    ensures GroupOctets([Symbol(Six1(x)), Symbol(Six2(x, y)), PAD, PAD], true) == Some([x])
  {
    hide Symbol, IsSymbol, Value, Octet1, Octet2, Octet3, Six1, Six2, Six3, Six4;
    OctetsBack(x, y, z);
    SymbolValue(Six1(x));
    SymbolValue(Six2(x, y));
    SymbolValue(Six3(y, z));
    SymbolValue(Six4(z));
  }

  lemma ReadLast(s: seq<byte>, d: seq<byte>)
    requires |s| == 4 && GroupOctets(s, true) == Some(d)
    ensures Read(s) == Some(d)
  {
    hide GroupOctets;
    ReadNone();
    assert s[..4] == s && s[4..] == [];
    assert d + [] == d;
  }

  lemma ReadNone()
    ensures Read([]) == Some([])
  {
  }

  /** What is read back from an encoding is the data. */
  lemma {:induction false} ReadEncoded(data: seq<byte>)
    ensures Read(Encoded(data)) == Some(data)
    decreases |data|
  {
    hide Symbol, Six1, Six2, Six3, Six4, GroupOctets;
    var s := Encoded(data);
    if |data| == 1 {
      GroupBack(data[0], 0, 0, true);
      assert data == [data[0]];
      ReadLast(s, data);
    } else if |data| == 2 {
      GroupBack(data[0], data[1], 0, true);
      assert data == [data[0], data[1]];
      ReadLast(s, data);
    } else if |data| >= 3 {
      ReadEncoded(data[3..]);
      GroupBack(data[0], data[1], data[2], true);
      GroupBack(data[0], data[1], data[2], false);
      ReadMore(FourSymbols(data), Encoded(data[3..]), [data[0], data[1], data[2]], data[3..]);
      assert [data[0], data[1], data[2]] + data[3..] == data;
    } else {
      assert data == [] && s == [];
    }
  }

  lemma ReadMore(front: seq<byte>, rest: seq<byte>, x: seq<byte>, y: seq<byte>)
    requires |front| == 4 && |rest| % 4 == 0 && Read(rest) == Some(y)
    requires GroupOctets(front, true) == Some(x) && GroupOctets(front, false) == Some(x)
    ensures Read(front + rest) == Some(x + y)
  {
    hide GroupOctets;
    assert (front + rest)[..4] == front && (front + rest)[4..] == rest;
  }

  lemma {:induction false} PaddingOfEncoded(data: seq<byte>)
    requires data != []
    ensures PaddingOf(Encoded(data)) == (3 - |data| % 3) % 3
    decreases |data|
  {
    hide Encoded, PaddingOf;
    if |data| <= 3 {
      PaddingOfShort(data);
    } else {
      PaddingOfEncoded(data[3..]);
      PaddingOfRest(Encoded(data));
      EncodedRest(data);
    }
  }

  lemma EncodedRest(data: seq<byte>)
    requires 3 <= |data|
    ensures Encoded(data)[4..] == Encoded(data[3..])
  {
    hide Symbol, Six1, Six2, Six3, Six4, FourSymbols;
    assert Encoded(data) == FourSymbols(data) + Encoded(data[3..]);
  }

  lemma PaddingOfShort(data: seq<byte>)
    requires 1 <= |data| <= 3
    ensures PaddingOf(Encoded(data)) == 3 - |data|
  {
    hide Encoded, Symbol, Six3, Six4;
    SymbolValue(Six3(if |data| < 2 then 0 else data[1], if |data| < 3 then 0 else data[2]));
    SymbolValue(Six4(if |data| < 3 then 0 else data[2]));
    ShortEncodings(data);
  }

  lemma ShortEncodings(data: seq<byte>)
    requires 1 <= |data| <= 3
    ensures |Encoded(data)| == 4
    ensures Encoded(data)[3] == if |data| < 3 then PAD else Symbol(Six4(data[2]))
    ensures Encoded(data)[2] == if |data| < 2 then PAD else Symbol(Six3(data[1], if |data| < 3 then 0 else data[2]))
  {
    hide Symbol, Six1, Six2, Six3, Six4;
  }

  lemma SizeBack(n: nat)
    requires 0 < n
    ensures 0 < GroupsFor(n) && 4 * GroupsFor(n) / 4 * 3 - (3 - n % 3) % 3 == n
  {
    GroupsForIs(n);
  }

  /** Decoding gives the encoded octets back, for every string of octets. */
  lemma DecodeEncode(data: seq<byte>)
    ensures Decoded(Encoded(data)) == data
  {
    hide Read, PaddingOf, Encoded, Zeros;
    ReadEncoded(data);
    if data == [] {
      EncodedNone();
    } else {
      PaddingOfEncoded(data);
      SizeBack(|data|);
      assert data + Zeros(0) == data;
    }
  }

  /** Four symbols, or fewer with padding in the last group whose unused bits are zero. */
  predicate CanonicalGroup(s: seq<byte>, isLast: bool)
    requires |s| == 4
  {
    && IsSymbol(s[0]) && IsSymbol(s[1])
    && (|| (IsSymbol(s[2]) && IsSymbol(s[3]))
        || (isLast && IsSymbol(s[2]) && s[3] == PAD && Value(s[2]) & 0x03 == 0)
        || (isLast && s[2] == PAD && s[3] == PAD && Value(s[1]) & 0x0f == 0))
  }

  /** Strings that section 3.5 of RFC 4648 calls canonical. */
  predicate Canonical(s: seq<byte>) {
    |s| % 4 == 0 && (s == [] || (CanonicalGroup(s[..4], |s| == 4) && Canonical(s[4..])))
  }

  lemma UnusedBits(x: byte, y: byte)
    ensures Six2(x, 0) & 0x0f == 0 && Six3(y, 0) & 0x03 == 0
  {
  }

  lemma {:induction false} EncodedIsCanonical(data: seq<byte>)
    ensures Canonical(Encoded(data))
    decreases |data|
  {
    hide Symbol, IsSymbol, Value, Six1, Six2, Six3, Six4;
    var s := Encoded(data);
    if |data| == 1 {
      SymbolValue(Six1(data[0]));
      SymbolValue(Six2(data[0], 0));
      UnusedBits(data[0], 0);
      assert s[4..] == [];
    } else if |data| == 2 {
      SymbolValue(Six1(data[0]));
      SymbolValue(Six2(data[0], data[1]));
      SymbolValue(Six3(data[1], 0));
      UnusedBits(0, data[1]);
      assert s[4..] == [];
    } else if |data| >= 3 {
      SymbolValue(Six1(data[0]));
      SymbolValue(Six2(data[0], data[1]));
      SymbolValue(Six3(data[1], data[2]));
      SymbolValue(Six4(data[2]));
      EncodedIsCanonical(data[3..]);
      assert s[4..] == Encoded(data[3..]);
    }
  }

  lemma ShortSixesBack(a: byte, b: byte, c: byte)
    requires a < 64 && b < 64 && c < 64
    ensures b & 0x0f == 0 ==> Six1(Octet1(a, b)) == a && Six2(Octet1(a, b), 0) == b
    ensures c & 0x03 == 0 ==>
      Six1(Octet1(a, b)) == a && Six2(Octet1(a, b), Octet2(b, c)) == b && Six3(Octet2(b, c), 0) == c
  {
  }

  /** A canonical group is the encoding of the octets it gives, with anything encoded behind three octets. */
  lemma CanonicalGroupBack(s: seq<byte>, isLast: bool, rest: seq<byte>)
    requires |s| == 4 && CanonicalGroup(s, isLast)
    ensures var g := GroupOctets(s, isLast);
      && g.Some?
      && (|g.value| == 3 ==> Encoded(g.value + rest) == s + Encoded(rest))
      && (|g.value| != 3 ==> isLast && Encoded(g.value) == s)
      && (isLast ==> |g.value| == 3 - PaddingOf(s) && (PaddingOf(s) != 1 || s[3] == PAD))
  {
    hide Symbol, IsSymbol, Value, Octet1, Octet2, Octet3, Six1, Six2, Six3, Six4, Encoded;
    PadIsNoSymbol();
    ValueSymbol(s[0]);
    ValueSymbol(s[1]);
    var a, b := Value(s[0]), Value(s[1]);
    if s[2] == PAD {
      ShortSixesBack(a, b, 0);
      EncodedShort([Octet1(a, b)], rest);
    } else if s[3] == PAD {
      ValueSymbol(s[2]);
      ShortSixesBack(a, b, Value(s[2]));
      EncodedShort([Octet1(a, b), Octet2(b, Value(s[2]))], rest);
    } else {
      ValueSymbol(s[2]);
      ValueSymbol(s[3]);
      var c, d := Value(s[2]), Value(s[3]);
      SixesBack(a, b, c, d);
      EncodedShort([Octet1(a, b), Octet2(b, c), Octet3(c, d)], rest);
    }
  }

  lemma EncodedShort(g: seq<byte>, rest: seq<byte>)
    requires 1 <= |g| <= 3
    ensures |g| == 1 ==> Encoded(g) == [Symbol(Six1(g[0])), Symbol(Six2(g[0], 0)), PAD, PAD]
    ensures |g| == 2 ==> Encoded(g) == [Symbol(Six1(g[0])), Symbol(Six2(g[0], g[1])), Symbol(Six3(g[1], 0)), PAD]
    ensures |g| == 3 ==> Encoded(g + rest) == FourSymbols(g) + Encoded(rest)
  {
    hide Symbol, Six1, Six2, Six3, Six4;
    if |g| == 3 {
      assert (g + rest)[3..] == rest;
    }
  }

  lemma {:induction false} CanonicalBack(s: seq<byte>)
    requires Canonical(s)
    ensures Read(s).Some? && Encoded(Read(s).value) == s
    ensures s != [] ==> |Read(s).value| == |s| / 4 * 3 - PaddingOf(s)
    decreases |s|
  {
    hide CanonicalGroup, GroupOctets, Encoded, PaddingOf;
    if s == [] {
      EncodedNone();
    } else {
      CanonicalBack(s[4..]);
      var rest := Read(s[4..]).value;
      CanonicalGroupBack(s[..4], |s| == 4, rest);
      assert s == s[..4] + s[4..];
      PaddingOfRest(s);
      if |s| == 4 {
        EncodedNone();
        assert s[4..] == [] && s[..4] == s && GroupOctets(s, true).value + [] == GroupOctets(s, true).value;
      }
    }
  }

  lemma EncodedNone()
    ensures Encoded([]) == []
  {
  }

  lemma PaddingOfRest(s: seq<byte>)
    requires 4 <= |s| && |s| % 4 == 0
    ensures |s| != 4 ==> PaddingOf(s[4..]) == PaddingOf(s)
    ensures |s| == 4 ==> s[..4] == s
  {
  }

  /** Encoding gives a decoded string back exactly when it is canonical. */
  lemma EncodeDecode(s: seq<byte>)
    ensures Encoded(Decoded(s)) == s <==> Canonical(s)
  {
    hide Read, Encoded, PaddingOf;
    EncodedIsCanonical(Decoded(s));
    if Canonical(s) {
      CanonicalBack(s);
      EncodedNone();
      CanonicalLength(s);
      if s != [] {
        assert Read(s).value + Zeros(0) == Read(s).value;
      }
    }
  }

  lemma CanonicalLength(s: seq<byte>)
    requires Canonical(s)
    ensures |s| % 4 == 0
  {
  }

  /** What is left to read from a cursor on, filled up with octets that no decoder accepts. */
  function Rest(s: seq<byte>, cursor: nat): (v: seq<byte>)
    requires cursor <= |s|
    ensures |v| == |s|
  {
    s[cursor..] + Zeros(cursor)
  }

  lemma RestOfAll(s: seq<byte>)
    ensures Rest(s, 0) == s
  {
  }

  lemma ZeroIsNothing()
    ensures !IsSymbol(0) && PAD != 0
  {
  }

  /** The last group never gives more octets than the counted size has room for. */
  lemma LastGroupFits(s: seq<byte>, cursor: nat)
    requires |s| % 4 == 0 && s != [] && cursor <= |s|
    ensures var g := GroupOctets(Rest(s, cursor)[|s| - 4..], true);
      g.Some? ==> 1 <= |g.value| <= 3 - PaddingOf(s)
  {
    hide IsSymbol, Value, Octet1, Octet2, Octet3;
    PadIsNoSymbol();
    ZeroIsNothing();
    var v, n := Rest(s, cursor), |s|;
    if cursor == 0 {
      assert v[n - 1] == s[n - 1] && v[n - 2] == s[n - 2];
    } else {
      assert v[n - 1] == 0;
      if cursor > 1 {
        assert v[n - 2] == 0;
      }
    }
  }

  lemma {:induction false} ReadSize(v: seq<byte>)
    requires |v| % 4 == 0 && v != [] && Read(v).Some?
    ensures var g := GroupOctets(v[|v| - 4..], true);
      g.Some? && |Read(v).value| == |v| / 4 * 3 - 3 + |g.value|
    decreases |v|
  {
    hide GroupOctets;
    if |v| != 4 {
      ReadSize(v[4..]);
      assert v[4..][|v| - 8..] == v[|v| - 4..];
      InnerGroup(v[..4]);
    } else {
      ReadNone();
      assert v[..4] == v && v[0..] == v && v[4..] == [];
    }
  }

  lemma InnerGroup(s: seq<byte>)
    requires |s| == 4 && GroupOctets(s, false).Some?
    ensures |GroupOctets(s, false).value| == 3
  {
    hide IsSymbol, Value, Octet1, Octet2, Octet3;
  }

  lemma ReadFitsFrom(s: seq<byte>, cursor: nat)
    requires |s| % 4 == 0 && s != [] && cursor <= |s| && Read(Rest(s, cursor)).Some?
    ensures |Read(Rest(s, cursor)).value| <= |s| / 4 * 3 - PaddingOf(s)
  {
    hide Read, PaddingOf, Rest, GroupOctets;
    ReadSize(Rest(s, cursor));
    LastGroupFits(s, cursor);
  }

  /** The buffer that decryptBase64 returns, from any read cursor. */
  function DecodedFrom(s: seq<byte>, cursor: nat): seq<byte>
    requires cursor <= |s|
  {
    if |s| % 4 != 0 || |s| == 0 then []
    else
      var r := Read(Rest(s, cursor));
      if r.None? then []
      else
        ReadFitsFrom(s, cursor);
        r.value + Zeros(|s| / 4 * 3 - PaddingOf(s) - |r.value|)
  }

  lemma DecodedFromStart(s: seq<byte>)
    ensures DecodedFrom(s, 0) == Decoded(s)
  {
    hide Read, PaddingOf, Rest;
    RestOfAll(s);
  }

  /** Three octets more, behind whole groups. */
  lemma {:induction false} EncodedAppend(data: seq<byte>, g: seq<byte>)
    requires |data| % 3 == 0
    ensures Encoded(data + g) == Encoded(data) + Encoded(g)
    decreases |data|
  {
    hide Symbol, Six1, Six2, Six3, Six4, FourSymbols;
    if data == [] {
      assert data + g == g && Encoded(data) == [];
    } else {
      EncodedAppend(data[3..], g);
      assert (data + g)[3..] == data[3..] + g;
      SameFourSymbols(data, g);
    }
  }

  lemma SameFourSymbols(data: seq<byte>, g: seq<byte>)
    requires 3 <= |data|
    ensures FourSymbols(data + g) == FourSymbols(data)
  {
  }

  /** How many characters of a group are read: up to the first that is refused or ends the string. */
  function GroupTaken(s: seq<byte>): (n: nat)
    requires |s| == 4
    ensures 1 <= n <= 4
  {
    if !IsSymbol(s[0]) then 1 else if !IsSymbol(s[1]) then 2 else if !IsSymbol(s[2]) then 3 else 4
  }

  /** How many characters the whole loop reads. */
  function CharactersTaken(v: seq<byte>): (n: nat)
    requires |v| % 4 == 0
    ensures n <= |v|
  {
    if v == [] then 0
    else
      var d := GroupOctets(v[..4], |v| == 4);
      if d.Some? && |d.value| == 3 then 4 + CharactersTaken(v[4..]) else GroupTaken(v[..4])
  }

  lemma FullGroupTaken(s: seq<byte>, isLast: bool)
    requires |s| == 4 && GroupOctets(s, isLast).Some? && |GroupOctets(s, isLast).value| == 3
    ensures GroupTaken(s) == 4
  {
    hide IsSymbol, Value, Octet1, Octet2, Octet3;
  }

  /** "foobar", "fooba" and "foob" of section 10 of RFC 4648. */
  lemma Examples()
    ensures Encoded([0x66, 0x6f, 0x6f, 0x62, 0x61, 0x72]) == [0x5a, 0x6d, 0x39, 0x76, 0x59, 0x6d, 0x46, 0x79]
    ensures Encoded([0x66, 0x6f, 0x6f, 0x62, 0x61]) == [0x5a, 0x6d, 0x39, 0x76, 0x59, 0x6d, 0x45, 0x3d]
    ensures Encoded([0x66, 0x6f, 0x6f, 0x62]) == [0x5a, 0x6d, 0x39, 0x76, 0x59, 0x67, 0x3d, 0x3d]
  {
    var s: seq<byte> := [0x66, 0x6f, 0x6f, 0x62, 0x61, 0x72];
    var foo: seq<byte> := [0x5a, 0x6d, 0x39, 0x76];
    assert FourSymbols(s) == foo && s[3..] == [0x62, 0x61, 0x72] && s[3..][3..] == [];
    assert FourSymbols(s[3..]) == [0x59, 0x6d, 0x46, 0x79];
    assert Encoded(s[3..]) == FourSymbols(s[3..]) + Encoded([]);
    assert s[..5][3..] == [0x62, 0x61] && s[..4][3..] == [0x62];
    assert FourSymbols(s[..5]) == foo && FourSymbols(s[..4]) == foo;
    assert s[..5] == [0x66, 0x6f, 0x6f, 0x62, 0x61] && s[..4] == [0x66, 0x6f, 0x6f, 0x62];
  }
}
