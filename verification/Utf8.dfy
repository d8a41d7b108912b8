/**
 Tools.cpp: wide strings and UTF-8, as the branches for systems with 32-bit wide
 characters have it, and where each direction undoes the other (section 3 of RFC 3629).
 */
module Utf8 {
  import opened Bytes

  type codepoint = bv32

  const LIMIT: codepoint := 0x20_0000

  function Low8(x: bv32): byte { (x & 0xff) as byte }

  /** Lead octets of two, three and four; the last is cut off above 2^21. */
  function Lead2(cp: codepoint): byte { Low8(0xc0 | (cp >> 6)) }

  function Lead3(cp: codepoint): byte { Low8(0xe0 | (cp >> 12)) }

  function Lead4(cp: codepoint): byte { Low8(0xf0 | (cp >> 18)) }

  /** Tail octets, from the lowest six bits up. */
  function Tail1(cp: codepoint): byte { Low8(0x80 | (cp & 0x3f)) }

  function Tail2(cp: codepoint): byte { Low8(0x80 | ((cp >> 6) & 0x3f)) }

  function Tail3(cp: codepoint): byte { Low8(0x80 | ((cp >> 12) & 0x3f)) }

  /** The octets of one character. */
  function EncodeOne(cp: codepoint): (s: seq<byte>)
    ensures 1 <= |s| <= 4
  {
    if cp < 0x80 then [Low8(cp)]
    else if cp < 0x800 then [Lead2(cp), Tail1(cp)]
    else if cp < 0x1_0000 then [Lead3(cp), Tail2(cp), Tail1(cp)]
    else [Lead4(cp), Tail3(cp), Tail2(cp), Tail1(cp)]
  }

  function Encode(s: seq<codepoint>): seq<byte> {
    if s == [] then [] else EncodeOne(s[0]) + Encode(s[1..])
  }

  /** The bits that lead and tail octets contribute. */
  function Low5(b: byte): bv32 { (b & 0x1f) as bv32 }

  function Low4(b: byte): bv32 { (b & 0x0f) as bv32 }

  function Low3(b: byte): bv32 { (b & 0x07) as bv32 }

  function Low6(b: byte): bv32 { (b & 0x3f) as bv32 }

  function Join2(p: bv32, q: bv32): codepoint { (p << 6) | q }

  function Join3(p: bv32, q: bv32, r: bv32): codepoint { (p << 12) | (q << 6) | r }

  function Join4(p: bv32, q: bv32, r: bv32, t: bv32): codepoint { (p << 18) | (q << 12) | (r << 6) | t }

  predicate Asks2(b: byte) { b & 0xe0 == 0xc0 }

  predicate Asks3(b: byte) { b & 0xf0 == 0xe0 }

  predicate Asks4(b: byte) { b & 0xf8 == 0xf0 }

  /** How many octets the lead octet asks for; one where it is not a lead octet or too few octets are left. */
  function Taken(s: seq<byte>): (n: nat)
    requires s != []
    ensures 1 <= n <= |s| && n <= 4
  {
    if s[0] < 0x80 then 1
    else if Asks2(s[0]) && 1 < |s| then 2
    else if Asks3(s[0]) && 2 < |s| then 3
    else if Asks4(s[0]) && 3 < |s| then 4
    else 1
  }

  /** The character that these octets give; an octet that fits nowhere gives the character zero. */
  function DecodeOne(s: seq<byte>): codepoint
    requires s != []
  {
    var n := Taken(s);
    if n == 1 then (if s[0] < 0x80 then s[0] as bv32 else 0)
    else if n == 2 then Join2(Low5(s[0]), Low6(s[1]))
    else if n == 3 then Join3(Low4(s[0]), Low6(s[1]), Low6(s[2]))
    else Join4(Low3(s[0]), Low6(s[1]), Low6(s[2]), Low6(s[3]))
  }

  function Decode(s: seq<byte>): seq<codepoint> {
    if s == [] then [] else [DecodeOne(s)] + Decode(s[Taken(s)..])
  }

  predicate IsTail(b: byte) { b & 0xc0 == 0x80 }

  /**
   The first character is in the shortest form: its lead octet is right, its tails are, and no
   shorter form would do.
   */
  predicate StartsWell(s: seq<byte>)
    requires s != []
  {
    || s[0] < 0x80
    || (0xc2 <= s[0] <= 0xdf && 1 < |s| && IsTail(s[1]))
    || (0xe0 <= s[0] <= 0xef && 2 < |s| && IsTail(s[1]) && IsTail(s[2]) && (s[0] == 0xe0 ==> 0xa0 <= s[1]))
    || (0xf0 <= s[0] <= 0xf7 && 3 < |s| && IsTail(s[1]) && IsTail(s[2]) && IsTail(s[3])
      && (s[0] == 0xf0 ==> 0x90 <= s[1]))
  }

  /** Strings of characters below 2^21, each in its shortest form. */
  predicate WellFormed(s: seq<byte>) {
    s == [] || (StartsWell(s) && WellFormed(s[Taken(s)..]))
  }

  /** The strings of section 4 of RFC 3629: no surrogates and nothing above U+10FFFF. */
  predicate Rfc3629(s: seq<byte>) {
    s == [] ||
    (&& StartsWell(s)
     && (s[0] == 0xed ==> s[1] <= 0x9f) && s[0] <= 0xf4 && (s[0] == 0xf4 ==> s[1] <= 0x8f)
     && Rfc3629(s[Taken(s)..]))
  }

  lemma {:induction false} Rfc3629IsWellFormed(s: seq<byte>)
    requires Rfc3629(s)
    ensures WellFormed(s)
    decreases |s|
  {
    if s != [] {
      Rfc3629IsWellFormed(s[Taken(s)..]);
    }
  }

  lemma One(cp: codepoint)
    requires cp < 0x80
    ensures Low8(cp) < 0x80 && Low8(cp) as bv32 == cp
  {
  }

  lemma TailsAre(cp: codepoint)
    ensures IsTail(Tail1(cp)) && Low6(Tail1(cp)) == cp & 0x3f
    ensures IsTail(Tail2(cp)) && Low6(Tail2(cp)) == (cp >> 6) & 0x3f
    ensures IsTail(Tail3(cp)) && Low6(Tail3(cp)) == (cp >> 12) & 0x3f
  {
  }

  lemma Two(cp: codepoint)
    requires 0x80 <= cp < 0x800
    ensures var a := Lead2(cp); 0xc2 <= a <= 0xdf && Asks2(a) && Low5(a) == cp >> 6
    ensures Join2(cp >> 6, cp & 0x3f) == cp
  {
  }

  lemma Three(cp: codepoint)
    requires 0x800 <= cp < 0x1_0000
    ensures var a := Lead3(cp); 0xe0 <= a <= 0xef && !Asks2(a) && Asks3(a) && Low4(a) == cp >> 12
    ensures Lead3(cp) == 0xe0 ==> 0xa0 <= Tail2(cp)
    ensures Join3(cp >> 12, (cp >> 6) & 0x3f, cp & 0x3f) == cp
  {
  }

  lemma Four(cp: codepoint)
    requires 0x1_0000 <= cp < LIMIT
    ensures var a := Lead4(cp); 0xf0 <= a <= 0xf7 && !Asks2(a) && !Asks3(a) && Asks4(a) && Low3(a) == cp >> 18
    ensures Lead4(cp) == 0xf0 ==> 0x90 <= Tail3(cp)
    ensures Join4(cp >> 18, (cp >> 12) & 0x3f, (cp >> 6) & 0x3f, cp & 0x3f) == cp
  {
  }

  /** One character in front of anything is decoded to itself, and is in the shortest form. */
  lemma OneRoundTrip(cp: codepoint, rest: seq<byte>)
    requires cp < LIMIT
    ensures var s := EncodeOne(cp) + rest;
      DecodeOne(s) == cp && Taken(s) == |EncodeOne(cp)| && StartsWell(s)
  {
    hide Low8, Lead2, Lead3, Lead4, Tail1, Tail2, Tail3, IsTail, Join2, Join3, Join4;
    hide Low3, Low4, Low5, Low6, Asks2, Asks3, Asks4;
    TailsAre(cp);
    if cp < 0x80 {
      One(cp);
    } else if cp < 0x800 {
      Two(cp);
    } else if cp < 0x1_0000 {
      Three(cp);
    } else {
      Four(cp);
    }
  }

  predicate Small(s: seq<codepoint>) {
    forall k :: 0 <= k < |s| ==> s[k] < LIMIT
  }

  /** Characters below 2^21 survive, and their encoding is in the shortest form throughout. */
  lemma {:induction false} SmallRoundTrip(s: seq<codepoint>)
    requires Small(s)
    ensures Decode(Encode(s)) == s && WellFormed(Encode(s))
    decreases |s|
  {
    hide EncodeOne, DecodeOne, Taken, StartsWell;
    if s != [] {
      var rest := Encode(s[1..]);
      OneRoundTrip(s[0], rest);
      SmallRoundTrip(s[1..]);
      var t := EncodeOne(s[0]) + rest;
      assert t[|EncodeOne(s[0])|..] == rest;
    }
  }

  lemma JoinsAreSmall(a: byte, b: byte, c: byte, d: byte)
    ensures Join2(Low5(a), Low6(b)) < LIMIT && Join3(Low4(a), Low6(b), Low6(c)) < LIMIT
    ensures Join4(Low3(a), Low6(b), Low6(c), Low6(d)) < LIMIT
  {
  }

  lemma AsciiIsSmall(b: byte)
    ensures b < 0x80 ==> b as bv32 < LIMIT
  {
  }

  /** Decoding never gives a character of more than 21 bits. */
  lemma {:induction false} DecodedIsSmall(s: seq<byte>)
    ensures Small(Decode(s))
    decreases |s|
  {
    hide Join2, Join3, Join4, Low3, Low4, Low5, Low6, Asks2, Asks3, Asks4, Taken;
    if s != [] {
      DecodedIsSmall(s[Taken(s)..]);
      OneIsSmall(s);
    }
  }

  lemma OneIsSmall(s: seq<byte>)
    requires s != []
    ensures DecodeOne(s) < LIMIT
  {
    hide Join2, Join3, Join4, Low3, Low4, Low5, Low6, Asks2, Asks3, Asks4;
    AsciiIsSmall(s[0]);
    JoinsAreSmall(s[0], if 1 < |s| then s[1] else 0, if 2 < |s| then s[2] else 0, if 3 < |s| then s[3] else 0);
  }

  /** utf8_to_wstring undoes wstring_to_utf8 exactly on characters below 2^21. */
  lemma DecodeEncode(s: seq<codepoint>)
    ensures Decode(Encode(s)) == s <==> Small(s)
  {
    hide Encode, Decode, Small;
    if Small(s) {
      SmallRoundTrip(s);
    }
    DecodedIsSmall(Encode(s));
  }

  lemma OneBack(a: byte)
    requires a < 0x80
    ensures var cp := a as bv32; cp < 0x80 && Low8(cp) == a
  {
  }

  lemma TwoBack(a: byte, b: byte)
    requires 0xc2 <= a <= 0xdf && IsTail(b)
    ensures var cp := Join2(Low5(a), Low6(b)); 0x80 <= cp < 0x800 && Lead2(cp) == a && Tail1(cp) == b
    ensures !(a < 0x80) && Asks2(a)
  {
  }

  lemma ThreeBack(a: byte, b: byte, c: byte)
    requires 0xe0 <= a <= 0xef && IsTail(b) && IsTail(c) && (a == 0xe0 ==> 0xa0 <= b)
    ensures var cp := Join3(Low4(a), Low6(b), Low6(c));
      0x800 <= cp < 0x1_0000 && Lead3(cp) == a && Tail2(cp) == b && Tail1(cp) == c
    ensures !(a < 0x80) && !Asks2(a) && Asks3(a)
  {
  }

  lemma FourBack(a: byte, b: byte, c: byte, d: byte)
    requires 0xf0 <= a <= 0xf7 && IsTail(b) && IsTail(c) && IsTail(d) && (a == 0xf0 ==> 0x90 <= b)
    ensures var cp := Join4(Low3(a), Low6(b), Low6(c), Low6(d));
      0x1_0000 <= cp && Lead4(cp) == a && Tail3(cp) == b && Tail2(cp) == c && Tail1(cp) == d
    ensures !(a < 0x80) && !Asks2(a) && !Asks3(a) && Asks4(a)
  {
  }

  /** A character in the shortest form is encoded to the octets it was decoded from. */
  lemma OneBackAgain(s: seq<byte>)
    requires s != [] && StartsWell(s)
    ensures EncodeOne(DecodeOne(s)) == s[..Taken(s)]
  {
    hide Low8, Lead2, Lead3, Lead4, Tail1, Tail2, Tail3, IsTail, Join2, Join3, Join4;
    hide Low3, Low4, Low5, Low6, Asks2, Asks3, Asks4;
    if s[0] < 0x80 {
      OneBack(s[0]);
      assert s[..1] == [s[0]];
    } else if s[0] <= 0xdf {
      TwoBackAgain(s);
    } else if s[0] <= 0xef {
      ThreeBackAgain(s);
    } else {
      FourBackAgain(s);
    }
  }

  lemma TwoBackAgain(s: seq<byte>)
    requires 1 < |s| && 0xc2 <= s[0] <= 0xdf && IsTail(s[1])
    ensures EncodeOne(DecodeOne(s)) == s[..Taken(s)]
  {
    hide Low8, Lead2, Lead3, Lead4, Tail1, Tail2, Tail3, IsTail, Join2, Join3, Join4;
    hide Low3, Low4, Low5, Low6, Asks2, Asks3, Asks4;
    TwoBack(s[0], s[1]);
    assert s[..2] == [s[0], s[1]];
    assert EncodeOne(DecodeOne(s)) == [s[0], s[1]];
  }

  lemma ThreeBackAgain(s: seq<byte>)
    requires 2 < |s| && 0xe0 <= s[0] <= 0xef && IsTail(s[1]) && IsTail(s[2]) && (s[0] == 0xe0 ==> 0xa0 <= s[1])
    ensures EncodeOne(DecodeOne(s)) == s[..Taken(s)]
  {
    hide Low8, Lead2, Lead3, Lead4, Tail1, Tail2, Tail3, IsTail, Join2, Join3, Join4;
    hide Low3, Low4, Low5, Low6, Asks2, Asks3, Asks4;
    ThreeBack(s[0], s[1], s[2]);
    assert s[..3] == [s[0], s[1], s[2]];
    assert EncodeOne(DecodeOne(s)) == [s[0], s[1], s[2]];
  }

  lemma FourBackAgain(s: seq<byte>)
    requires 3 < |s| && 0xf0 <= s[0] <= 0xf7 && IsTail(s[1]) && IsTail(s[2]) && IsTail(s[3])
      && (s[0] == 0xf0 ==> 0x90 <= s[1])
    ensures EncodeOne(DecodeOne(s)) == s[..Taken(s)]
  {
    hide Low8, Lead2, Lead3, Lead4, Tail1, Tail2, Tail3, IsTail, Join2, Join3, Join4;
    hide Low3, Low4, Low5, Low6, Asks2, Asks3, Asks4;
    FourBack(s[0], s[1], s[2], s[3]);
    assert s[..4] == [s[0], s[1], s[2], s[3]];
    assert EncodeOne(DecodeOne(s)) == [s[0], s[1], s[2], s[3]];
  }

  lemma {:induction false} WellFormedRoundTrip(s: seq<byte>)
    requires WellFormed(s)
    ensures Encode(Decode(s)) == s
    decreases |s|
  {
    hide EncodeOne, DecodeOne, Taken, StartsWell;
    if s != [] {
      var rest := s[Taken(s)..];
      WellFormedRoundTrip(rest);
      OneBackAgain(s);
      assert ([DecodeOne(s)] + Decode(rest))[1..] == Decode(rest);
    }
  }

  /** wstring_to_utf8 undoes utf8_to_wstring exactly on strings in the shortest form. */
  lemma EncodeDecode(s: seq<byte>)
    ensures Encode(Decode(s)) == s <==> WellFormed(s)
  {
    hide Encode, Decode, WellFormed;
    if WellFormed(s) {
      WellFormedRoundTrip(s);
    }
    DecodedIsSmall(s);
    SmallRoundTrip(Decode(s));
  }

  lemma {:induction false} EncodeAppend(s: seq<codepoint>, cp: codepoint)
    ensures Encode(s + [cp]) == Encode(s) + EncodeOne(cp)
    decreases |s|
  {
    hide EncodeOne;
    if s == [] {
      assert [cp][1..] == [];
    } else {
      EncodeAppend(s[1..], cp);
      assert (s + [cp])[1..] == s[1..] + [cp];
    }
  }

  method WstringToUtf8(str: seq<codepoint>) returns (result: seq<byte>)
    ensures result == Encode(str)
  {
    hide Encode, Lead2, Lead3, Lead4, Tail1, Tail2, Tail3, Low8;
    result := [];
    EncodeNone();
    for i := 0 to |str|
      invariant result == Encode(str[..i])
    {
      var cp := str[i];
      EncodeAppend(str[..i], cp);
      assert str[..i + 1] == str[..i] + [cp];
      if cp < 0x80 {
        result := result + [Low8(cp)];
      } else if cp < 0x800 {
        result := result + [Lead2(cp), Tail1(cp)];
      } else if cp < 0x1_0000 {
        result := result + [Lead3(cp), Tail2(cp), Tail1(cp)];
      } else {
        result := result + [Lead4(cp), Tail3(cp), Tail2(cp), Tail1(cp)];
      }
    }
    assert str[..|str|] == str;
  }

  lemma EncodeNone()
    ensures Encode([]) == []
  {
  }

  /** The branches of the loop: one character, and how far the pointer moves. */
  method Take(str: seq<byte>, s: nat) returns (cp: codepoint, next: nat)
    requires s < |str|
    ensures cp == DecodeOne(str[s..]) && next == s + Taken(str[s..])
  {
    hide Join2, Join3, Join4, Low3, Low4, Low5, Low6, Asks2, Asks3, Asks4;
    var end := |str|;
    if str[s] < 0x80 {
      cp, next := str[s] as bv32, s + 1;
    } else if Asks2(str[s]) && s + 1 < end {
      cp, next := Join2(Low5(str[s]), Low6(str[s + 1])), s + 2;
    } else if Asks3(str[s]) && s + 2 < end {
      cp, next := Join3(Low4(str[s]), Low6(str[s + 1]), Low6(str[s + 2])), s + 3;
    } else if Asks4(str[s]) && s + 3 < end {
      cp, next := Join4(Low3(str[s]), Low6(str[s + 1]), Low6(str[s + 2]), Low6(str[s + 3])), s + 4;
    } else {
      cp, next := 0, s + 1;
    }
  }

  method Utf8ToWstring(str: seq<byte>) returns (result: seq<codepoint>)
    ensures result == Decode(str)
  {
    hide Decode, DecodeOne, Taken;
    result := [];
    var s := 0;
    DecodeFrom(str, 0);
    while s < |str|
      invariant 0 <= s <= |str| && result + Decode(str[s..]) == Decode(str)
    {
      DecodeFrom(str, s);
      var cp, next := Take(str, s);
      assert str[s..][next - s..] == str[next..];
      result := result + [cp];
      s := next;
    }
    DecodeFrom(str, s);
  }

  lemma DecodeFrom(str: seq<byte>, at: nat)
    requires at <= |str|
    ensures var rest := str[at..];
      if at == |str| then Decode(rest) == [] else Decode(rest) == [DecodeOne(rest)] + Decode(rest[Taken(rest)..])
    ensures at == 0 ==> str[at..] == str
  {
    hide DecodeOne, Taken;
  }

  /** An octet that is no lead octet, and a lead octet with too few octets behind it, become the character zero. */
  lemma StrayOctet(s: seq<byte>)
    requires s != [] && s[0] >= 0x80 && Taken(s) == 1
    ensures Decode(s) == [0] + Decode(s[1..]) && Encode(Decode(s)) != s
  {
    hide Asks2, Asks3, Asks4;
    EncodeDecode(s);
    if StartsWell(s) {
      OneBackAgain(s);
      NotZero(s[0]);
    }
  }

  lemma NotZero(b: byte)
    requires b >= 0x80
    ensures EncodeOne(0) != [b]
  {
  }

  /** The first and the last example of section 7 of RFC 3629. */
  lemma Examples()
    ensures Encode([0x41, 0x2262, 0x391, 0x2e]) == [0x41, 0xe2, 0x89, 0xa2, 0xce, 0x91, 0x2e]
    ensures Encode([0xfeff, 0x233b4]) == [0xef, 0xbb, 0xbf, 0xf0, 0xa3, 0x8e, 0xb4]
  {
    assert EncodeOne(0x41) == [0x41] && EncodeOne(0x2262) == [0xe2, 0x89, 0xa2];
    assert EncodeOne(0x391) == [0xce, 0x91] && EncodeOne(0x2e) == [0x2e];
    var s: seq<codepoint> := [0x41, 0x2262, 0x391, 0x2e];
    assert s[1..][0] == 0x2262 && s[1..][1..][0] == 0x391 && s[1..][1..][1..] == [0x2e];
    assert Encode([0x2e]) == EncodeOne(0x2e) + Encode([]);
    assert EncodeOne(0xfeff) == [0xef, 0xbb, 0xbf] && EncodeOne(0x233b4) == [0xf0, 0xa3, 0x8e, 0xb4];
    var t: seq<codepoint> := [0xfeff, 0x233b4];
    assert t[1..] == [0x233b4] && Encode([0x233b4]) == EncodeOne(0x233b4) + Encode([]);
  }
}
