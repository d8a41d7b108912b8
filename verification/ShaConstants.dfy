/**
 The constants of SHA-256: the first 32 bits of the fractional parts of the square roots of
 the first eight primes, and of the cube roots of the first sixty-four (sections 4.2.2 and
 5.3.3 of FIPS 180-4).
 */
module ShaConstants {
  import opened Sha256

  /** The cube root of p is i and a fraction that begins with the bits of w. */
  predicate CubeRoot(p: nat, i: nat, w: word) {
    var n := 0x1_0000_0000 * i + w as int;
    n * n * n <= p * 0x1_0000_0000_0000_0000_0000_0000 < (n + 1) * (n + 1) * (n + 1)
  }

  predicate SquareRoot(p: nat, i: nat, w: word) {
    var n := 0x1_0000_0000 * i + w as int;
    n * n <= p * 0x1_0000_0000_0000_0000 < (n + 1) * (n + 1)
  }

  lemma Root(p: nat, i: nat, w: word, v: nat)
    requires w as int == v
    requires var n := 0x1_0000_0000 * i + v;
      n * n * n <= p * 0x1_0000_0000_0000_0000_0000_0000 < (n + 1) * (n + 1) * (n + 1)
    ensures CubeRoot(p, i, w)
  {
  }

  lemma StartConstants()
    ensures SquareRoot(2, 1, START.a) && SquareRoot(3, 1, START.b) && SquareRoot(5, 2, START.c)
    ensures SquareRoot(7, 2, START.d) && SquareRoot(11, 3, START.e) && SquareRoot(13, 3, START.f)
    ensures SquareRoot(17, 4, START.g) && SquareRoot(19, 4, START.h)
  {
  }

  lemma Rows1()
    ensures |K| == 64
    ensures K[0] == 0x428a2f98 && K[1] == 0x71374491 && K[2] == 0xb5c0fbcf && K[3] == 0xe9b5dba5
    ensures K[4] == 0x3956c25b && K[5] == 0x59f111f1 && K[6] == 0x923f82a4 && K[7] == 0xab1c5ed5
    ensures K[8] == 0xd807aa98 && K[9] == 0x12835b01 && K[10] == 0x243185be && K[11] == 0x550c7dc3
    ensures K[12] == 0x72be5d74 && K[13] == 0x80deb1fe && K[14] == 0x9bdc06a7 && K[15] == 0xc19bf174
  {
  }

  lemma Rows2()
    ensures |K| == 64
    ensures K[16] == 0xe49b69c1 && K[17] == 0xefbe4786 && K[18] == 0x0fc19dc6 && K[19] == 0x240ca1cc
    ensures K[20] == 0x2de92c6f && K[21] == 0x4a7484aa && K[22] == 0x5cb0a9dc && K[23] == 0x76f988da
    ensures K[24] == 0x983e5152 && K[25] == 0xa831c66d && K[26] == 0xb00327c8 && K[27] == 0xbf597fc7
    ensures K[28] == 0xc6e00bf3 && K[29] == 0xd5a79147 && K[30] == 0x06ca6351 && K[31] == 0x14292967
  {
  }

  lemma Rows3()
    ensures |K| == 64
    ensures K[32] == 0x27b70a85 && K[33] == 0x2e1b2138 && K[34] == 0x4d2c6dfc && K[35] == 0x53380d13
    ensures K[36] == 0x650a7354 && K[37] == 0x766a0abb && K[38] == 0x81c2c92e && K[39] == 0x92722c85
    ensures K[40] == 0xa2bfe8a1 && K[41] == 0xa81a664b && K[42] == 0xc24b8b70 && K[43] == 0xc76c51a3
    ensures K[44] == 0xd192e819 && K[45] == 0xd6990624 && K[46] == 0xf40e3585 && K[47] == 0x106aa070
  {
  }

  lemma Rows4()
    ensures |K| == 64
    ensures K[48] == 0x19a4c116 && K[49] == 0x1e376c08 && K[50] == 0x2748774c && K[51] == 0x34b0bcb5
    ensures K[52] == 0x391c0cb3 && K[53] == 0x4ed8aa4a && K[54] == 0x5b9cca4f && K[55] == 0x682e6ff3
    ensures K[56] == 0x748f82ee && K[57] == 0x78a5636f && K[58] == 0x84c87814 && K[59] == 0x8cc70208
    ensures K[60] == 0x90befffa && K[61] == 0xa4506ceb && K[62] == 0xbef9a3f7 && K[63] == 0xc67178f2
  {
  }

  lemma Constants1()
    ensures CubeRoot(2, 1, K[0]) && CubeRoot(3, 1, K[1]) && CubeRoot(5, 1, K[2]) && CubeRoot(7, 1, K[3])
    ensures CubeRoot(11, 2, K[4]) && CubeRoot(13, 2, K[5]) && CubeRoot(17, 2, K[6]) && CubeRoot(19, 2, K[7])
  {
    hide CubeRoot, K;
    Rows1();
    Root(2, 1, K[0], 0x428a2f98); Root(3, 1, K[1], 0x71374491);
    Root(5, 1, K[2], 0xb5c0fbcf); Root(7, 1, K[3], 0xe9b5dba5);
    Root(11, 2, K[4], 0x3956c25b); Root(13, 2, K[5], 0x59f111f1);
    Root(17, 2, K[6], 0x923f82a4); Root(19, 2, K[7], 0xab1c5ed5);
  }

  lemma Constants2()
    ensures CubeRoot(23, 2, K[8]) && CubeRoot(29, 3, K[9]) && CubeRoot(31, 3, K[10]) && CubeRoot(37, 3, K[11])
    ensures CubeRoot(41, 3, K[12]) && CubeRoot(43, 3, K[13]) && CubeRoot(47, 3, K[14]) && CubeRoot(53, 3, K[15])
  {
    hide CubeRoot, K;
    Rows1();
    Root(23, 2, K[8], 0xd807aa98); Root(29, 3, K[9], 0x12835b01);
    Root(31, 3, K[10], 0x243185be); Root(37, 3, K[11], 0x550c7dc3);
    Root(41, 3, K[12], 0x72be5d74); Root(43, 3, K[13], 0x80deb1fe);
    Root(47, 3, K[14], 0x9bdc06a7); Root(53, 3, K[15], 0xc19bf174);
  }

  lemma Constants3()
    ensures CubeRoot(59, 3, K[16]) && CubeRoot(61, 3, K[17]) && CubeRoot(67, 4, K[18]) && CubeRoot(71, 4, K[19])
    ensures CubeRoot(73, 4, K[20]) && CubeRoot(79, 4, K[21]) && CubeRoot(83, 4, K[22]) && CubeRoot(89, 4, K[23])
  {
    hide CubeRoot, K;
    Rows2();
    Root(59, 3, K[16], 0xe49b69c1); Root(61, 3, K[17], 0xefbe4786);
    Root(67, 4, K[18], 0x0fc19dc6); Root(71, 4, K[19], 0x240ca1cc);
    Root(73, 4, K[20], 0x2de92c6f); Root(79, 4, K[21], 0x4a7484aa);
    Root(83, 4, K[22], 0x5cb0a9dc); Root(89, 4, K[23], 0x76f988da);
  }

  lemma Constants4()
    ensures CubeRoot(97, 4, K[24]) && CubeRoot(101, 4, K[25]) && CubeRoot(103, 4, K[26]) && CubeRoot(107, 4, K[27])
    ensures CubeRoot(109, 4, K[28]) && CubeRoot(113, 4, K[29]) && CubeRoot(127, 5, K[30]) && CubeRoot(131, 5, K[31])
  {
    hide CubeRoot, K;
    Rows2();
    Root(97, 4, K[24], 0x983e5152); Root(101, 4, K[25], 0xa831c66d);
    Root(103, 4, K[26], 0xb00327c8); Root(107, 4, K[27], 0xbf597fc7);
    Root(109, 4, K[28], 0xc6e00bf3); Root(113, 4, K[29], 0xd5a79147);
    Root(127, 5, K[30], 0x06ca6351); Root(131, 5, K[31], 0x14292967);
  }

  lemma Constants5()
    ensures CubeRoot(137, 5, K[32]) && CubeRoot(139, 5, K[33]) && CubeRoot(149, 5, K[34]) && CubeRoot(151, 5, K[35])
    ensures CubeRoot(157, 5, K[36]) && CubeRoot(163, 5, K[37]) && CubeRoot(167, 5, K[38]) && CubeRoot(173, 5, K[39])
  {
    hide CubeRoot, K;
    Rows3();
    Root(137, 5, K[32], 0x27b70a85); Root(139, 5, K[33], 0x2e1b2138);
    Root(149, 5, K[34], 0x4d2c6dfc); Root(151, 5, K[35], 0x53380d13);
    Root(157, 5, K[36], 0x650a7354); Root(163, 5, K[37], 0x766a0abb);
    Root(167, 5, K[38], 0x81c2c92e); Root(173, 5, K[39], 0x92722c85);
  }

  lemma Constants6()
    ensures CubeRoot(179, 5, K[40]) && CubeRoot(181, 5, K[41]) && CubeRoot(191, 5, K[42]) && CubeRoot(193, 5, K[43])
    ensures CubeRoot(197, 5, K[44]) && CubeRoot(199, 5, K[45]) && CubeRoot(211, 5, K[46]) && CubeRoot(223, 6, K[47])
  {
    hide CubeRoot, K;
    Rows3();
    Root(179, 5, K[40], 0xa2bfe8a1); Root(181, 5, K[41], 0xa81a664b);
    Root(191, 5, K[42], 0xc24b8b70); Root(193, 5, K[43], 0xc76c51a3);
    Root(197, 5, K[44], 0xd192e819); Root(199, 5, K[45], 0xd6990624);
    Root(211, 5, K[46], 0xf40e3585); Root(223, 6, K[47], 0x106aa070);
  }

  lemma Constants7()
    ensures CubeRoot(227, 6, K[48]) && CubeRoot(229, 6, K[49]) && CubeRoot(233, 6, K[50]) && CubeRoot(239, 6, K[51])
    ensures CubeRoot(241, 6, K[52]) && CubeRoot(251, 6, K[53]) && CubeRoot(257, 6, K[54]) && CubeRoot(263, 6, K[55])
  {
    hide CubeRoot, K;
    Rows4();
    Root(227, 6, K[48], 0x19a4c116); Root(229, 6, K[49], 0x1e376c08);
    Root(233, 6, K[50], 0x2748774c); Root(239, 6, K[51], 0x34b0bcb5);
    Root(241, 6, K[52], 0x391c0cb3); Root(251, 6, K[53], 0x4ed8aa4a);
    Root(257, 6, K[54], 0x5b9cca4f); Root(263, 6, K[55], 0x682e6ff3);
  }

  lemma Constants8()
    ensures CubeRoot(269, 6, K[56]) && CubeRoot(271, 6, K[57]) && CubeRoot(277, 6, K[58]) && CubeRoot(281, 6, K[59])
    ensures CubeRoot(283, 6, K[60]) && CubeRoot(293, 6, K[61]) && CubeRoot(307, 6, K[62]) && CubeRoot(311, 6, K[63])
  {
    hide CubeRoot, K;
    Rows4();
    Root(269, 6, K[56], 0x748f82ee); Root(271, 6, K[57], 0x78a5636f);
    Root(277, 6, K[58], 0x84c87814); Root(281, 6, K[59], 0x8cc70208);
    Root(283, 6, K[60], 0x90befffa); Root(293, 6, K[61], 0xa4506ceb);
    Root(307, 6, K[62], 0xbef9a3f7); Root(311, 6, K[63], 0xc67178f2);
  }
}
