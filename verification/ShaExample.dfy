/**
 The one-block example of SHA-256, the message "abc": every word of its schedule and every
 round, down to the digest.
 */
module ShaExample {
  import opened Bytes
  import opened Sha256
  import opened ShaConstants

  const ABC: seq<byte> := [0x61, 0x62, 0x63]

  /** The padded message, which is one block. */
  ghost function Block(): (b: seq<byte>)
    ensures |b| == 64
  {
    Padded(ABC)
  }

  ghost function W(t: nat): word { Schedule(Block(), t) }

  ghost function R(t: nat): Registers
    requires t <= 64
  {
    Rounds(START, Block(), t)
  }

  lemma PaddedAbc()
    ensures Block() == ABC + [0x80] + Zeros(59) + [0x18]
  {
    hide Padded, StandardPadding, NumberOctets;
    NumberOctetsOf24();
    PaddingIsStandard(ABC);
    PaddingOfThree(ABC);
  }

  lemma PaddingOfThree(m: seq<byte>)
    requires |m| == 3 && NumberOctets(24, 8) == Zeros(7) + [0x18]
    ensures StandardPadding(m) == m + [0x80] + Zeros(59) + [0x18]
  {
    hide NumberOctets;
    assert PaddingLength(3) == 52;
    assert Zeros(52) + Zeros(7) == Zeros(59);
  }

  lemma NumberOctetsOf24()
    ensures NumberOctets(24, 8) == Zeros(7) + [0x18]
  {
    ZeroOctets(7);
    assert NumberOctets(24, 8) == NumberOctets(0, 7) + [OctetFor(24)];
  }

  lemma {:induction false} ZeroOctets(k: nat)
    ensures NumberOctets(0, k) == Zeros(k)
  {
    if k != 0 {
      ZeroOctets(k - 1);
    }
  }

  lemma FirstWords()
    ensures W(0) == 0x61626380 && (forall t :: 1 <= t < 15 ==> W(t) == 0) && W(15) == 0x18
  {
    PaddedAbc();
    hide Block;
    forall t | 1 <= t < 15
      ensures W(t) == 0
    {
      var b := Block();
      assert b[4 * t] == 0 && b[4 * t + 1] == 0 && b[4 * t + 2] == 0 && b[4 * t + 3] == 0;
    }
    var b := Block();
    assert b[0] == 0x61 && b[1] == 0x62 && b[2] == 0x63 && b[3] == 0x80;
    assert b[60] == 0 && b[61] == 0 && b[62] == 0 && b[63] == 0x18;
  }

  lemma NextWord(t: nat, w16: word, w15: word, w7: word, w2: word, w: word)
    requires 16 <= t && W(t - 16) == w16 && W(t - 15) == w15 && W(t - 7) == w7 && W(t - 2) == w2
    requires Sum4(w16, SmallSigma0(w15), w7, SmallSigma1(w2)) == w
    ensures W(t) == w
  {
    hide Sum4, SmallSigma0, SmallSigma1, Block;
  }

  /** One round with the constant k and the word w; x and y are the new registers a and e. */
  predicate Turns(k: word, w: word, x: word, y: word,
      a: word, b: word, c: word, d: word, e: word, f: word, g: word, h: word)
  {
    Round(Registers(a, b, c, d, e, f, g, h), k, w) == Registers(x, a, b, c, y, e, f, g)
  }

  lemma NextRound(t: nat)
    requires t < 64
    ensures R(t + 1) == Round(R(t), K[t], W(t))
  {
    hide Round, Schedule, Block;
  }

  lemma Words1()
    ensures W(16) == 0x61626380 && W(17) == 0x000f0000 && W(18) == 0x7da86405 && W(19) == 0x600003c6
    ensures W(20) == 0x3e9d7b78 && W(21) == 0x0183fc00 && W(22) == 0x12dcbfdb && W(23) == 0xe2e2c38e
    ensures W(24) == 0xc8215c1a && W(25) == 0xb73679a2 && W(26) == 0xe5bc3909 && W(27) == 0x32663c5b
    ensures W(28) == 0x9d209d67 && W(29) == 0xec8726cb && W(30) == 0x702138a4 && W(31) == 0xd3b7973b
  {
    hide W;
    FirstWords();
    NextWord(16, 0x61626380, 0x00000000, 0x00000000, 0x00000000, 0x61626380);
    NextWord(17, 0x00000000, 0x00000000, 0x00000000, 0x00000018, 0x000f0000);
    NextWord(18, 0x00000000, 0x00000000, 0x00000000, 0x61626380, 0x7da86405);
    NextWord(19, 0x00000000, 0x00000000, 0x00000000, 0x000f0000, 0x600003c6);
    NextWord(20, 0x00000000, 0x00000000, 0x00000000, 0x7da86405, 0x3e9d7b78);
    NextWord(21, 0x00000000, 0x00000000, 0x00000000, 0x600003c6, 0x0183fc00);
    NextWord(22, 0x00000000, 0x00000000, 0x00000018, 0x3e9d7b78, 0x12dcbfdb);
    NextWord(23, 0x00000000, 0x00000000, 0x61626380, 0x0183fc00, 0xe2e2c38e);
    NextWord(24, 0x00000000, 0x00000000, 0x000f0000, 0x12dcbfdb, 0xc8215c1a);
    NextWord(25, 0x00000000, 0x00000000, 0x7da86405, 0xe2e2c38e, 0xb73679a2);
    NextWord(26, 0x00000000, 0x00000000, 0x600003c6, 0xc8215c1a, 0xe5bc3909);
    NextWord(27, 0x00000000, 0x00000000, 0x3e9d7b78, 0xb73679a2, 0x32663c5b);
    NextWord(28, 0x00000000, 0x00000000, 0x0183fc00, 0xe5bc3909, 0x9d209d67);
    NextWord(29, 0x00000000, 0x00000000, 0x12dcbfdb, 0x32663c5b, 0xec8726cb);
    NextWord(30, 0x00000000, 0x00000018, 0xe2e2c38e, 0x9d209d67, 0x702138a4);
    NextWord(31, 0x00000018, 0x61626380, 0xc8215c1a, 0xec8726cb, 0xd3b7973b);
  }

  lemma Words2()
    ensures W(32) == 0x93f5997f && W(33) == 0x3b68ba73 && W(34) == 0xaff4ffc1 && W(35) == 0xf10a5c62
    ensures W(36) == 0x0a8b3996 && W(37) == 0x72af830a && W(38) == 0x9409e33e && W(39) == 0x24641522
    ensures W(40) == 0x9f47bf94 && W(41) == 0xf0a64f5a && W(42) == 0x3e246a79 && W(43) == 0x27333ba3
    ensures W(44) == 0x0c4763f2 && W(45) == 0x840abf27 && W(46) == 0x7a290d5d && W(47) == 0x065c43da
  {
    hide W;
    Words1();
    NextWord(32, 0x61626380, 0x000f0000, 0xb73679a2, 0x702138a4, 0x93f5997f);
    NextWord(33, 0x000f0000, 0x7da86405, 0xe5bc3909, 0xd3b7973b, 0x3b68ba73);
    NextWord(34, 0x7da86405, 0x600003c6, 0x32663c5b, 0x93f5997f, 0xaff4ffc1);
    NextWord(35, 0x600003c6, 0x3e9d7b78, 0x9d209d67, 0x3b68ba73, 0xf10a5c62);
    NextWord(36, 0x3e9d7b78, 0x0183fc00, 0xec8726cb, 0xaff4ffc1, 0x0a8b3996);
    NextWord(37, 0x0183fc00, 0x12dcbfdb, 0x702138a4, 0xf10a5c62, 0x72af830a);
    NextWord(38, 0x12dcbfdb, 0xe2e2c38e, 0xd3b7973b, 0x0a8b3996, 0x9409e33e);
    NextWord(39, 0xe2e2c38e, 0xc8215c1a, 0x93f5997f, 0x72af830a, 0x24641522);
    NextWord(40, 0xc8215c1a, 0xb73679a2, 0x3b68ba73, 0x9409e33e, 0x9f47bf94);
    NextWord(41, 0xb73679a2, 0xe5bc3909, 0xaff4ffc1, 0x24641522, 0xf0a64f5a);
    NextWord(42, 0xe5bc3909, 0x32663c5b, 0xf10a5c62, 0x9f47bf94, 0x3e246a79);
    NextWord(43, 0x32663c5b, 0x9d209d67, 0x0a8b3996, 0xf0a64f5a, 0x27333ba3);
    NextWord(44, 0x9d209d67, 0xec8726cb, 0x72af830a, 0x3e246a79, 0x0c4763f2);
    NextWord(45, 0xec8726cb, 0x702138a4, 0x9409e33e, 0x27333ba3, 0x840abf27);
    NextWord(46, 0x702138a4, 0xd3b7973b, 0x24641522, 0x0c4763f2, 0x7a290d5d);
    NextWord(47, 0xd3b7973b, 0x93f5997f, 0x9f47bf94, 0x840abf27, 0x065c43da);
  }

  lemma Words3()
    ensures W(48) == 0xfb3e89cb && W(49) == 0xcc7617db && W(50) == 0xb9e66c34 && W(51) == 0xa9993667
    ensures W(52) == 0x84badedd && W(53) == 0xc21462bc && W(54) == 0x1487472c && W(55) == 0xb20f7a99
    ensures W(56) == 0xef57b9cd && W(57) == 0xebe6b238 && W(58) == 0x9fe3095e && W(59) == 0x78bc8d4b
    ensures W(60) == 0xa43fcf15 && W(61) == 0x668b2ff8 && W(62) == 0xeeaba2cc && W(63) == 0x12b1edeb
  {
    hide W;
    Words2();
    NextWord(48, 0x93f5997f, 0x3b68ba73, 0xf0a64f5a, 0x7a290d5d, 0xfb3e89cb);
    NextWord(49, 0x3b68ba73, 0xaff4ffc1, 0x3e246a79, 0x065c43da, 0xcc7617db);
    NextWord(50, 0xaff4ffc1, 0xf10a5c62, 0x27333ba3, 0xfb3e89cb, 0xb9e66c34);
    NextWord(51, 0xf10a5c62, 0x0a8b3996, 0x0c4763f2, 0xcc7617db, 0xa9993667);
    NextWord(52, 0x0a8b3996, 0x72af830a, 0x840abf27, 0xb9e66c34, 0x84badedd);
    NextWord(53, 0x72af830a, 0x9409e33e, 0x7a290d5d, 0xa9993667, 0xc21462bc);
    NextWord(54, 0x9409e33e, 0x24641522, 0x065c43da, 0x84badedd, 0x1487472c);
    NextWord(55, 0x24641522, 0x9f47bf94, 0xfb3e89cb, 0xc21462bc, 0xb20f7a99);
    NextWord(56, 0x9f47bf94, 0xf0a64f5a, 0xcc7617db, 0x1487472c, 0xef57b9cd);
    NextWord(57, 0xf0a64f5a, 0x3e246a79, 0xb9e66c34, 0xb20f7a99, 0xebe6b238);
    NextWord(58, 0x3e246a79, 0x27333ba3, 0xa9993667, 0xef57b9cd, 0x9fe3095e);
    NextWord(59, 0x27333ba3, 0x0c4763f2, 0x84badedd, 0xebe6b238, 0x78bc8d4b);
    NextWord(60, 0x0c4763f2, 0x840abf27, 0xc21462bc, 0x9fe3095e, 0xa43fcf15);
    NextWord(61, 0x840abf27, 0x7a290d5d, 0x1487472c, 0x78bc8d4b, 0x668b2ff8);
    NextWord(62, 0x7a290d5d, 0x065c43da, 0xb20f7a99, 0xa43fcf15, 0xeeaba2cc);
    NextWord(63, 0x065c43da, 0xfb3e89cb, 0xef57b9cd, 0x668b2ff8, 0x12b1edeb);
  }

  lemma RoundValues1()
    ensures Turns(0x428a2f98, 0x61626380, 0x5d6aebcd, 0xfa2a4622,
      0x6a09e667, 0xbb67ae85, 0x3c6ef372, 0xa54ff53a, 0x510e527f, 0x9b05688c, 0x1f83d9ab, 0x5be0cd19)
    ensures Turns(0x71374491, 0x00000000, 0x5a6ad9ad, 0x78ce7989,
      0x5d6aebcd, 0x6a09e667, 0xbb67ae85, 0x3c6ef372, 0xfa2a4622, 0x510e527f, 0x9b05688c, 0x1f83d9ab)
    ensures Turns(0xb5c0fbcf, 0x00000000, 0xc8c347a7, 0xf92939eb,
      0x5a6ad9ad, 0x5d6aebcd, 0x6a09e667, 0xbb67ae85, 0x78ce7989, 0xfa2a4622, 0x510e527f, 0x9b05688c)
    ensures Turns(0xe9b5dba5, 0x00000000, 0xd550f666, 0x24e00850,
      0xc8c347a7, 0x5a6ad9ad, 0x5d6aebcd, 0x6a09e667, 0xf92939eb, 0x78ce7989, 0xfa2a4622, 0x510e527f)
    ensures Turns(0x3956c25b, 0x00000000, 0x04409a6a, 0x43ada245,
      0xd550f666, 0xc8c347a7, 0x5a6ad9ad, 0x5d6aebcd, 0x24e00850, 0xf92939eb, 0x78ce7989, 0xfa2a4622)
    ensures Turns(0x59f111f1, 0x00000000, 0x2b4209f5, 0x714260ad,
      0x04409a6a, 0xd550f666, 0xc8c347a7, 0x5a6ad9ad, 0x43ada245, 0x24e00850, 0xf92939eb, 0x78ce7989)
    ensures Turns(0x923f82a4, 0x00000000, 0xe5030380, 0x9b27a401,
      0x2b4209f5, 0x04409a6a, 0xd550f666, 0xc8c347a7, 0x714260ad, 0x43ada245, 0x24e00850, 0xf92939eb)
    ensures Turns(0xab1c5ed5, 0x00000000, 0x85a07b5f, 0x0c657a79,
      0xe5030380, 0x2b4209f5, 0x04409a6a, 0xd550f666, 0x9b27a401, 0x714260ad, 0x43ada245, 0x24e00850)
    ensures Turns(0xd807aa98, 0x00000000, 0x8e04ecb9, 0x32ca2d8c,
      0x85a07b5f, 0xe5030380, 0x2b4209f5, 0x04409a6a, 0x0c657a79, 0x9b27a401, 0x714260ad, 0x43ada245)
    ensures Turns(0x12835b01, 0x00000000, 0x8c87346b, 0x1cc92596,
      0x8e04ecb9, 0x85a07b5f, 0xe5030380, 0x2b4209f5, 0x32ca2d8c, 0x0c657a79, 0x9b27a401, 0x714260ad)
    ensures Turns(0x243185be, 0x00000000, 0x4798a3f4, 0x436b23e8,
      0x8c87346b, 0x8e04ecb9, 0x85a07b5f, 0xe5030380, 0x1cc92596, 0x32ca2d8c, 0x0c657a79, 0x9b27a401)
    ensures Turns(0x550c7dc3, 0x00000000, 0xf71fc5a9, 0x816fd6e9,
      0x4798a3f4, 0x8c87346b, 0x8e04ecb9, 0x85a07b5f, 0x436b23e8, 0x1cc92596, 0x32ca2d8c, 0x0c657a79)
    ensures Turns(0x72be5d74, 0x00000000, 0x87912990, 0x1e578218,
      0xf71fc5a9, 0x4798a3f4, 0x8c87346b, 0x8e04ecb9, 0x816fd6e9, 0x436b23e8, 0x1cc92596, 0x32ca2d8c)
    ensures Turns(0x80deb1fe, 0x00000000, 0xd932eb16, 0x745a48de,
      0x87912990, 0xf71fc5a9, 0x4798a3f4, 0x8c87346b, 0x1e578218, 0x816fd6e9, 0x436b23e8, 0x1cc92596)
    ensures Turns(0x9bdc06a7, 0x00000000, 0xc0645fde, 0x0b92f20c,
      0xd932eb16, 0x87912990, 0xf71fc5a9, 0x4798a3f4, 0x745a48de, 0x1e578218, 0x816fd6e9, 0x436b23e8)
    ensures Turns(0xc19bf174, 0x00000018, 0xb0fa238e, 0x07590dcd,
      0xc0645fde, 0xd932eb16, 0x87912990, 0xf71fc5a9, 0x0b92f20c, 0x745a48de, 0x1e578218, 0x816fd6e9)
  {
  }

  lemma Rounds1()
    ensures R(16)
      == Registers(0xb0fa238e, 0xc0645fde, 0xd932eb16, 0x87912990, 0x07590dcd, 0x0b92f20c, 0x745a48de, 0x1e578218)
  {
    hide R, W, Round, K;
    FirstRound();
    FirstWords();
    RoundValues1();
    Rows1();
    NextRound(0); NextRound(1); NextRound(2); NextRound(3);
    NextRound(4); NextRound(5); NextRound(6); NextRound(7);
    NextRound(8); NextRound(9); NextRound(10); NextRound(11);
    NextRound(12); NextRound(13); NextRound(14); NextRound(15);
  }

  lemma RoundValues2()
    ensures Turns(0xe49b69c1, 0x61626380, 0x21da9a9b, 0x8034229c,
      0xb0fa238e, 0xc0645fde, 0xd932eb16, 0x87912990, 0x07590dcd, 0x0b92f20c, 0x745a48de, 0x1e578218)
    ensures Turns(0xefbe4786, 0x000f0000, 0xc2fbd9d1, 0x846ee454,
      0x21da9a9b, 0xb0fa238e, 0xc0645fde, 0xd932eb16, 0x8034229c, 0x07590dcd, 0x0b92f20c, 0x745a48de)
    ensures Turns(0x0fc19dc6, 0x7da86405, 0xfe777bbf, 0xcc899961,
      0xc2fbd9d1, 0x21da9a9b, 0xb0fa238e, 0xc0645fde, 0x846ee454, 0x8034229c, 0x07590dcd, 0x0b92f20c)
    ensures Turns(0x240ca1cc, 0x600003c6, 0xe1f20c33, 0xb0638179,
      0xfe777bbf, 0xc2fbd9d1, 0x21da9a9b, 0xb0fa238e, 0xcc899961, 0x846ee454, 0x8034229c, 0x07590dcd)
    ensures Turns(0x2de92c6f, 0x3e9d7b78, 0x9dc68b63, 0x8ada8930,
      0xe1f20c33, 0xfe777bbf, 0xc2fbd9d1, 0x21da9a9b, 0xb0638179, 0xcc899961, 0x846ee454, 0x8034229c)
    ensures Turns(0x4a7484aa, 0x0183fc00, 0xc2606d6d, 0xe1257970,
      0x9dc68b63, 0xe1f20c33, 0xfe777bbf, 0xc2fbd9d1, 0x8ada8930, 0xb0638179, 0xcc899961, 0x846ee454)
    ensures Turns(0x5cb0a9dc, 0x12dcbfdb, 0xa7a3623f, 0x49f5114a,
      0xc2606d6d, 0x9dc68b63, 0xe1f20c33, 0xfe777bbf, 0xe1257970, 0x8ada8930, 0xb0638179, 0xcc899961)
    ensures Turns(0x76f988da, 0xe2e2c38e, 0xc5d53d8d, 0xaa47c347,
      0xa7a3623f, 0xc2606d6d, 0x9dc68b63, 0xe1f20c33, 0x49f5114a, 0xe1257970, 0x8ada8930, 0xb0638179)
    ensures Turns(0x983e5152, 0xc8215c1a, 0x1c2c2838, 0x2823ef91,
      0xc5d53d8d, 0xa7a3623f, 0xc2606d6d, 0x9dc68b63, 0xaa47c347, 0x49f5114a, 0xe1257970, 0x8ada8930)
    ensures Turns(0xa831c66d, 0xb73679a2, 0xcde8037d, 0x14383d8e,
      0x1c2c2838, 0xc5d53d8d, 0xa7a3623f, 0xc2606d6d, 0x2823ef91, 0xaa47c347, 0x49f5114a, 0xe1257970)
    ensures Turns(0xb00327c8, 0xe5bc3909, 0xb62ec4bc, 0xc74c6516,
      0xcde8037d, 0x1c2c2838, 0xc5d53d8d, 0xa7a3623f, 0x14383d8e, 0x2823ef91, 0xaa47c347, 0x49f5114a)
    ensures Turns(0xbf597fc7, 0x32663c5b, 0x77d37528, 0xedffbff8,
      0xb62ec4bc, 0xcde8037d, 0x1c2c2838, 0xc5d53d8d, 0xc74c6516, 0x14383d8e, 0x2823ef91, 0xaa47c347)
    ensures Turns(0xc6e00bf3, 0x9d209d67, 0x363482c9, 0x6112a3b7,
      0x77d37528, 0xb62ec4bc, 0xcde8037d, 0x1c2c2838, 0xedffbff8, 0xc74c6516, 0x14383d8e, 0x2823ef91)
    ensures Turns(0xd5a79147, 0xec8726cb, 0xa0060b30, 0xade79437,
      0x363482c9, 0x77d37528, 0xb62ec4bc, 0xcde8037d, 0x6112a3b7, 0xedffbff8, 0xc74c6516, 0x14383d8e)
    ensures Turns(0x06ca6351, 0x702138a4, 0xea992a22, 0x0109ab3a,
      0xa0060b30, 0x363482c9, 0x77d37528, 0xb62ec4bc, 0xade79437, 0x6112a3b7, 0xedffbff8, 0xc74c6516)
    ensures Turns(0x14292967, 0xd3b7973b, 0x73b33bf5, 0xba591112,
      0xea992a22, 0xa0060b30, 0x363482c9, 0x77d37528, 0x0109ab3a, 0xade79437, 0x6112a3b7, 0xedffbff8)
  {
  }

  lemma Rounds2()
    ensures R(32)
      == Registers(0x73b33bf5, 0xea992a22, 0xa0060b30, 0x363482c9, 0xba591112, 0x0109ab3a, 0xade79437, 0x6112a3b7)
  {
    hide R, W, Round, K;
    Rounds1();
    Words1();
    RoundValues2();
    Rows2();
    NextRound(16); NextRound(17); NextRound(18); NextRound(19);
    NextRound(20); NextRound(21); NextRound(22); NextRound(23);
    NextRound(24); NextRound(25); NextRound(26); NextRound(27);
    NextRound(28); NextRound(29); NextRound(30); NextRound(31);
  }

  lemma RoundValues3()
    ensures Turns(0x27b70a85, 0x93f5997f, 0x98e12507, 0x9cd9f5f6,
      0x73b33bf5, 0xea992a22, 0xa0060b30, 0x363482c9, 0xba591112, 0x0109ab3a, 0xade79437, 0x6112a3b7)
    ensures Turns(0x2e1b2138, 0x3b68ba73, 0xfe604df5, 0x59249dd3,
      0x98e12507, 0x73b33bf5, 0xea992a22, 0xa0060b30, 0x9cd9f5f6, 0xba591112, 0x0109ab3a, 0xade79437)
    ensures Turns(0x4d2c6dfc, 0xaff4ffc1, 0xa9a7738c, 0x085f3833,
      0xfe604df5, 0x98e12507, 0x73b33bf5, 0xea992a22, 0x59249dd3, 0x9cd9f5f6, 0xba591112, 0x0109ab3a)
    ensures Turns(0x53380d13, 0xf10a5c62, 0x65a0cfe4, 0xf4b002d6,
      0xa9a7738c, 0xfe604df5, 0x98e12507, 0x73b33bf5, 0x085f3833, 0x59249dd3, 0x9cd9f5f6, 0xba591112)
    ensures Turns(0x650a7354, 0x0a8b3996, 0x41a65cb1, 0x0772a26b,
      0x65a0cfe4, 0xa9a7738c, 0xfe604df5, 0x98e12507, 0xf4b002d6, 0x085f3833, 0x59249dd3, 0x9cd9f5f6)
    ensures Turns(0x766a0abb, 0x72af830a, 0x34df1604, 0xa507a53d,
      0x41a65cb1, 0x65a0cfe4, 0xa9a7738c, 0xfe604df5, 0x0772a26b, 0xf4b002d6, 0x085f3833, 0x59249dd3)
    ensures Turns(0x81c2c92e, 0x9409e33e, 0x6dc57a8a, 0xf0781bc8,
      0x34df1604, 0x41a65cb1, 0x65a0cfe4, 0xa9a7738c, 0xa507a53d, 0x0772a26b, 0xf4b002d6, 0x085f3833)
    ensures Turns(0x92722c85, 0x24641522, 0x79ea687a, 0x1efbc0a0,
      0x6dc57a8a, 0x34df1604, 0x41a65cb1, 0x65a0cfe4, 0xf0781bc8, 0xa507a53d, 0x0772a26b, 0xf4b002d6)
    ensures Turns(0xa2bfe8a1, 0x9f47bf94, 0xd6670766, 0x26352d63,
      0x79ea687a, 0x6dc57a8a, 0x34df1604, 0x41a65cb1, 0x1efbc0a0, 0xf0781bc8, 0xa507a53d, 0x0772a26b)
    ensures Turns(0xa81a664b, 0xf0a64f5a, 0xdf46652f, 0x838b2711,
      0xd6670766, 0x79ea687a, 0x6dc57a8a, 0x34df1604, 0x26352d63, 0x1efbc0a0, 0xf0781bc8, 0xa507a53d)
    ensures Turns(0xc24b8b70, 0x3e246a79, 0x17aa0dfe, 0xdecd4715,
      0xdf46652f, 0xd6670766, 0x79ea687a, 0x6dc57a8a, 0x838b2711, 0x26352d63, 0x1efbc0a0, 0xf0781bc8)
    ensures Turns(0xc76c51a3, 0x27333ba3, 0x9d4baf93, 0xfda24c2e,
      0x17aa0dfe, 0xdf46652f, 0xd6670766, 0x79ea687a, 0xdecd4715, 0x838b2711, 0x26352d63, 0x1efbc0a0)
    ensures Turns(0xd192e819, 0x0c4763f2, 0x26628815, 0xa80f11f0,
      0x9d4baf93, 0x17aa0dfe, 0xdf46652f, 0xd6670766, 0xfda24c2e, 0xdecd4715, 0x838b2711, 0x26352d63)
    ensures Turns(0xd6990624, 0x840abf27, 0x72ab4b91, 0xb7755da1,
      0x26628815, 0x9d4baf93, 0x17aa0dfe, 0xdf46652f, 0xa80f11f0, 0xfda24c2e, 0xdecd4715, 0x838b2711)
    ensures Turns(0xf40e3585, 0x7a290d5d, 0xa14c14b0, 0xd57b94a9,
      0x72ab4b91, 0x26628815, 0x9d4baf93, 0x17aa0dfe, 0xb7755da1, 0xa80f11f0, 0xfda24c2e, 0xdecd4715)
    ensures Turns(0x106aa070, 0x065c43da, 0x4172328d, 0xfecf0bc6,
      0xa14c14b0, 0x72ab4b91, 0x26628815, 0x9d4baf93, 0xd57b94a9, 0xb7755da1, 0xa80f11f0, 0xfda24c2e)
  {
  }

  lemma Rounds3()
    ensures R(48)
      == Registers(0x4172328d, 0xa14c14b0, 0x72ab4b91, 0x26628815, 0xfecf0bc6, 0xd57b94a9, 0xb7755da1, 0xa80f11f0)
  {
    hide R, W, Round, K;
    Rounds2();
    Words2();
    RoundValues3();
    Rows3();
    NextRound(32); NextRound(33); NextRound(34); NextRound(35);
    NextRound(36); NextRound(37); NextRound(38); NextRound(39);
    NextRound(40); NextRound(41); NextRound(42); NextRound(43);
    NextRound(44); NextRound(45); NextRound(46); NextRound(47);
  }

  lemma RoundValues4()
    ensures Turns(0x19a4c116, 0xfb3e89cb, 0x05757ceb, 0xbd714038,
      0x4172328d, 0xa14c14b0, 0x72ab4b91, 0x26628815, 0xfecf0bc6, 0xd57b94a9, 0xb7755da1, 0xa80f11f0)
    ensures Turns(0x1e376c08, 0xcc7617db, 0xf11bfaa8, 0x6e5c390c,
      0x05757ceb, 0x4172328d, 0xa14c14b0, 0x72ab4b91, 0xbd714038, 0xfecf0bc6, 0xd57b94a9, 0xb7755da1)
    ensures Turns(0x2748774c, 0xb9e66c34, 0x7a0508a1, 0x52f1ccf7,
      0xf11bfaa8, 0x05757ceb, 0x4172328d, 0xa14c14b0, 0x6e5c390c, 0xbd714038, 0xfecf0bc6, 0xd57b94a9)
    ensures Turns(0x34b0bcb5, 0xa9993667, 0x886e7a22, 0x49231c1e,
      0x7a0508a1, 0xf11bfaa8, 0x05757ceb, 0x4172328d, 0x52f1ccf7, 0x6e5c390c, 0xbd714038, 0xfecf0bc6)
    ensures Turns(0x391c0cb3, 0x84badedd, 0x101fd28f, 0x529e7d00,
      0x886e7a22, 0x7a0508a1, 0xf11bfaa8, 0x05757ceb, 0x49231c1e, 0x52f1ccf7, 0x6e5c390c, 0xbd714038)
    ensures Turns(0x4ed8aa4a, 0xc21462bc, 0xf5702fdb, 0x9f4787c3,
      0x101fd28f, 0x886e7a22, 0x7a0508a1, 0xf11bfaa8, 0x529e7d00, 0x49231c1e, 0x52f1ccf7, 0x6e5c390c)
    ensures Turns(0x5b9cca4f, 0x1487472c, 0x3ec45cdb, 0xe50e1b4f,
      0xf5702fdb, 0x101fd28f, 0x886e7a22, 0x7a0508a1, 0x9f4787c3, 0x529e7d00, 0x49231c1e, 0x52f1ccf7)
    ensures Turns(0x682e6ff3, 0xb20f7a99, 0x38cc9913, 0x54cb266b,
      0x3ec45cdb, 0xf5702fdb, 0x101fd28f, 0x886e7a22, 0xe50e1b4f, 0x9f4787c3, 0x529e7d00, 0x49231c1e)
    ensures Turns(0x748f82ee, 0xef57b9cd, 0xfcd1887b, 0x9b5e906c,
      0x38cc9913, 0x3ec45cdb, 0xf5702fdb, 0x101fd28f, 0x54cb266b, 0xe50e1b4f, 0x9f4787c3, 0x529e7d00)
    ensures Turns(0x78a5636f, 0xebe6b238, 0xc062d46f, 0x7e44008e,
      0xfcd1887b, 0x38cc9913, 0x3ec45cdb, 0xf5702fdb, 0x9b5e906c, 0x54cb266b, 0xe50e1b4f, 0x9f4787c3)
    ensures Turns(0x84c87814, 0x9fe3095e, 0xffb70472, 0x6d83bfc6,
      0xc062d46f, 0xfcd1887b, 0x38cc9913, 0x3ec45cdb, 0x7e44008e, 0x9b5e906c, 0x54cb266b, 0xe50e1b4f)
    ensures Turns(0x8cc70208, 0x78bc8d4b, 0xb6ae8fff, 0xb21bad3d,
      0xffb70472, 0xc062d46f, 0xfcd1887b, 0x38cc9913, 0x6d83bfc6, 0x7e44008e, 0x9b5e906c, 0x54cb266b)
    ensures Turns(0x90befffa, 0xa43fcf15, 0xb85e2ce9, 0x961f4894,
      0xb6ae8fff, 0xffb70472, 0xc062d46f, 0xfcd1887b, 0xb21bad3d, 0x6d83bfc6, 0x7e44008e, 0x9b5e906c)
    ensures Turns(0xa4506ceb, 0x668b2ff8, 0x04d24d6c, 0x948d25b6,
      0xb85e2ce9, 0xb6ae8fff, 0xffb70472, 0xc062d46f, 0x961f4894, 0xb21bad3d, 0x6d83bfc6, 0x7e44008e)
    ensures Turns(0xbef9a3f7, 0xeeaba2cc, 0xd39a2165, 0xfb121210,
      0x04d24d6c, 0xb85e2ce9, 0xb6ae8fff, 0xffb70472, 0x948d25b6, 0x961f4894, 0xb21bad3d, 0x6d83bfc6)
    ensures Turns(0xc67178f2, 0x12b1edeb, 0x506e3058, 0x5ef50f24,
      0xd39a2165, 0x04d24d6c, 0xb85e2ce9, 0xb6ae8fff, 0xfb121210, 0x948d25b6, 0x961f4894, 0xb21bad3d)
  {
  }

  lemma Rounds4()
    ensures R(64)
      == Registers(0x506e3058, 0xd39a2165, 0x04d24d6c, 0xb85e2ce9, 0x5ef50f24, 0xfb121210, 0x948d25b6, 0x961f4894)
  {
    hide R, W, Round, K;
    Rounds3();
    Words3();
    RoundValues4();
    Rows4();
    NextRound(48); NextRound(49); NextRound(50); NextRound(51);
    NextRound(52); NextRound(53); NextRound(54); NextRound(55);
    NextRound(56); NextRound(57); NextRound(58); NextRound(59);
    NextRound(60); NextRound(61); NextRound(62); NextRound(63);
  }

  lemma FirstRound()
    ensures R(0)
      == Registers(0x6a09e667, 0xbb67ae85, 0x3c6ef372, 0xa54ff53a, 0x510e527f, 0x9b05688c, 0x1f83d9ab, 0x5be0cd19)
  {
  }

  lemma Sums()
    ensures Added(
      Registers(0x6a09e667, 0xbb67ae85, 0x3c6ef372, 0xa54ff53a, 0x510e527f, 0x9b05688c, 0x1f83d9ab, 0x5be0cd19),
      Registers(0x506e3058, 0xd39a2165, 0x04d24d6c, 0xb85e2ce9, 0x5ef50f24, 0xfb121210, 0x948d25b6, 0x961f4894))
      == Registers(0xba7816bf, 0x8f01cfea, 0x414140de, 0x5dae2223, 0xb00361a3, 0x96177a9c, 0xb410ff61, 0xf20015ad)
  {
  }

  lemma LastValue()
    ensures HashValue(Block(), 1)
      == Registers(0xba7816bf, 0x8f01cfea, 0x414140de, 0x5dae2223, 0xb00361a3, 0x96177a9c, 0xb410ff61, 0xf20015ad)
  {
    Rounds4();
    Sums();
    hide Rounds, Schedule;
    assert Chunk(Block(), 0) == Block() && HashValue(Block(), 0) == START;
    hide Block;
    assert HashValue(Block(), 1) == Added(START, R(64));
  }

  const DIGEST: seq<byte> := [
    0xba, 0x78, 0x16, 0xbf, 0x8f, 0x01, 0xcf, 0xea, 0x41, 0x41, 0x40, 0xde, 0x5d, 0xae, 0x22, 0x23,
    0xb0, 0x03, 0x61, 0xa3, 0x96, 0x17, 0x7a, 0x9c, 0xb4, 0x10, 0xff, 0x61, 0xf2, 0x00, 0x15, 0xad]

  lemma LastOctets()
    ensures Octets(
      Registers(0xba7816bf, 0x8f01cfea, 0x414140de, 0x5dae2223, 0xb00361a3, 0x96177a9c, 0xb410ff61, 0xf20015ad)) ==
      DIGEST
  {
  }

  lemma DigestOfOneBlock(m: seq<byte>, r: Registers)
    requires |m| <= 55 && HashValue(Padded(m), 1) == r
    ensures Digest(m) == Octets(r) && Standard(m) == Octets(r)
  {
    hide HashValue, Octets, Padded, Standard;
    assert |Padded(m)| == 64;
    DigestIsStandard(m);
  }

  /** The digest of "abc". */
  lemma Abc()
    ensures Digest(ABC) == DIGEST && Standard(ABC) == DIGEST
  {
    hide HashValue, Octets, Digest, Standard, Padded, DIGEST;
    LastValue();
    LastOctets();
    DigestOfOneBlock(ABC,
      Registers(0xba7816bf, 0x8f01cfea, 0x414140de, 0x5dae2223, 0xb00361a3, 0x96177a9c, 0xb410ff61, 0xf20015ad));
  }
}
