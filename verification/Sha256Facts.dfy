/** Facts that pin SHA-256 apart from the bodies that compute it: what its functions do to bits, where
    its constants come from, and the digest of a known message. */
module Sha256Facts {
  import opened Sha256

  // ------------------------------------------------------------- functions, section 4.1.2

  /** Choice: where a bit of `x` is set the bit of `y`, elsewhere the bit of `z`. */
  lemma ChChooses(x: bv32, y: bv32, z: bv32)
    ensures Ch(x, y, z) & x == y & x && Ch(x, y, z) & !x == z & !x
  {
  }

  /** Majority: the value at least two of the three bits have. */
  lemma MajIsMajority(x: bv32, y: bv32, z: bv32)
    ensures Maj(x, y, z) == (x & y) | (y & z) | (z & x)
    ensures Maj(x, x, z) == x && Maj(x, y, x) == x && Maj(x, y, y) == y
  {
  }

  /** The sums, with rotation spelled out by shifts as section 3.2 defines it. */
  lemma BigSumsByShifts(x: bv32)
    ensures BigSigma0(x) == ((x >> 2) | (x << 30)) ^ ((x >> 13) | (x << 19)) ^ ((x >> 22) | (x << 10))
    ensures BigSigma1(x) == ((x >> 6) | (x << 26)) ^ ((x >> 11) | (x << 21)) ^ ((x >> 25) | (x << 7))
    ensures BigSigma0(1) == 0x4008_0400 && BigSigma1(1) == 0x0420_0080
  {
  }

  /** The small sums have one shift in the place of a rotation, which lets the low bits fall out. */
  lemma SmallSumsByShifts(x: bv32)
    ensures SmallSigma0(x) == ((x >> 7) | (x << 25)) ^ ((x >> 18) | (x << 14)) ^ (x >> 3)
    ensures SmallSigma1(x) == ((x >> 17) | (x << 15)) ^ ((x >> 19) | (x << 13)) ^ (x >> 10)
    ensures SmallSigma0(1) == 0x0200_4000 && SmallSigma1(1) == 0x0000_a000
  {
  }

  // ------------------------------------------------------------- constants, sections 4.2.2 and 5.3.3

  /** `k` holds the first 32 bits of the fraction of the cube root of `p`. */
  ghost predicate CubeRootFraction(p: int, k: bv32, q: int) {
    var x := q * 0x1_0000_0000 + k as int;
    x * x * x <= p * 0x1_0000_0000_0000_0000_0000_0000 < (x + 1) * (x + 1) * (x + 1)
  }

  /** The same for the square root. */
  ghost predicate SquareRootFraction(p: int, k: bv32, q: int) {
    var x := q * 0x1_0000_0000 + k as int;
    x * x <= p * 0x1_0000_0000_0000_0000 < (x + 1) * (x + 1)
  }

  /** The initial state comes from the square roots of the first eight primes. */
  lemma InitialFromPrimes()
    ensures SquareRootFraction(2, INITIAL[0], 1)
    ensures SquareRootFraction(3, INITIAL[1], 1)
    ensures SquareRootFraction(5, INITIAL[2], 2)
    ensures SquareRootFraction(7, INITIAL[3], 2)
    ensures SquareRootFraction(11, INITIAL[4], 3)
    ensures SquareRootFraction(13, INITIAL[5], 3)
    ensures SquareRootFraction(17, INITIAL[6], 4)
    ensures SquareRootFraction(19, INITIAL[7], 4)
  {
    assert SquareRootFraction(2, 0x6a09e667, 1);
    assert SquareRootFraction(3, 0xbb67ae85, 1);
    assert SquareRootFraction(5, 0x3c6ef372, 2);
    assert SquareRootFraction(7, 0xa54ff53a, 2);
    assert SquareRootFraction(11, 0x510e527f, 3);
    assert SquareRootFraction(13, 0x9b05688c, 3);
    assert SquareRootFraction(17, 0x1f83d9ab, 4);
    assert SquareRootFraction(19, 0x5be0cd19, 4);
    hide SquareRootFraction;
  }

  lemma KRow0()
    ensures RoundConstant(0) == 0x428a2f98 && RoundConstant(1) == 0x71374491
    ensures RoundConstant(2) == 0xb5c0fbcf && RoundConstant(3) == 0xe9b5dba5
    ensures RoundConstant(4) == 0x3956c25b && RoundConstant(5) == 0x59f111f1
    ensures RoundConstant(6) == 0x923f82a4 && RoundConstant(7) == 0xab1c5ed5
  {
  }

  lemma KRow1()
    ensures RoundConstant(8) == 0xd807aa98 && RoundConstant(9) == 0x12835b01
    ensures RoundConstant(10) == 0x243185be && RoundConstant(11) == 0x550c7dc3
    ensures RoundConstant(12) == 0x72be5d74 && RoundConstant(13) == 0x80deb1fe
    ensures RoundConstant(14) == 0x9bdc06a7 && RoundConstant(15) == 0xc19bf174
  {
  }

  lemma KRow2()
    ensures RoundConstant(16) == 0xe49b69c1 && RoundConstant(17) == 0xefbe4786
    ensures RoundConstant(18) == 0x0fc19dc6 && RoundConstant(19) == 0x240ca1cc
    ensures RoundConstant(20) == 0x2de92c6f && RoundConstant(21) == 0x4a7484aa
    ensures RoundConstant(22) == 0x5cb0a9dc && RoundConstant(23) == 0x76f988da
  {
  }

  lemma KRow3()
    ensures RoundConstant(24) == 0x983e5152 && RoundConstant(25) == 0xa831c66d
    ensures RoundConstant(26) == 0xb00327c8 && RoundConstant(27) == 0xbf597fc7
    ensures RoundConstant(28) == 0xc6e00bf3 && RoundConstant(29) == 0xd5a79147
    ensures RoundConstant(30) == 0x06ca6351 && RoundConstant(31) == 0x14292967
  {
  }

  lemma KRow4()
    ensures RoundConstant(32) == 0x27b70a85 && RoundConstant(33) == 0x2e1b2138
    ensures RoundConstant(34) == 0x4d2c6dfc && RoundConstant(35) == 0x53380d13
    ensures RoundConstant(36) == 0x650a7354 && RoundConstant(37) == 0x766a0abb
    ensures RoundConstant(38) == 0x81c2c92e && RoundConstant(39) == 0x92722c85
  {
  }

  lemma KRow5()
    ensures RoundConstant(40) == 0xa2bfe8a1 && RoundConstant(41) == 0xa81a664b
    ensures RoundConstant(42) == 0xc24b8b70 && RoundConstant(43) == 0xc76c51a3
    ensures RoundConstant(44) == 0xd192e819 && RoundConstant(45) == 0xd6990624
    ensures RoundConstant(46) == 0xf40e3585 && RoundConstant(47) == 0x106aa070
  {
  }

  lemma KRow6()
    ensures RoundConstant(48) == 0x19a4c116 && RoundConstant(49) == 0x1e376c08
    ensures RoundConstant(50) == 0x2748774c && RoundConstant(51) == 0x34b0bcb5
    ensures RoundConstant(52) == 0x391c0cb3 && RoundConstant(53) == 0x4ed8aa4a
    ensures RoundConstant(54) == 0x5b9cca4f && RoundConstant(55) == 0x682e6ff3
  {
  }

  lemma KRow7()
    ensures RoundConstant(56) == 0x748f82ee && RoundConstant(57) == 0x78a5636f
    ensures RoundConstant(58) == 0x84c87814 && RoundConstant(59) == 0x8cc70208
    ensures RoundConstant(60) == 0x90befffa && RoundConstant(61) == 0xa4506ceb
    ensures RoundConstant(62) == 0xbef9a3f7 && RoundConstant(63) == 0xc67178f2
  {
  }

  /** The round constants come from the cube roots of the first sixty-four primes. */
  lemma KFromPrimes0()
    ensures CubeRootFraction(2, RoundConstant(0), 1)
    ensures CubeRootFraction(3, RoundConstant(1), 1)
    ensures CubeRootFraction(5, RoundConstant(2), 1)
    ensures CubeRootFraction(7, RoundConstant(3), 1)
  {
    hide RoundConstant;
    assert CubeRootFraction(2, 0x428a2f98, 1);
    assert CubeRootFraction(3, 0x71374491, 1);
    assert CubeRootFraction(5, 0xb5c0fbcf, 1);
    assert CubeRootFraction(7, 0xe9b5dba5, 1);
    hide CubeRootFraction;
    KRow0();
  }

  lemma KFromPrimes4()
    ensures CubeRootFraction(11, RoundConstant(4), 2)
    ensures CubeRootFraction(13, RoundConstant(5), 2)
    ensures CubeRootFraction(17, RoundConstant(6), 2)
    ensures CubeRootFraction(19, RoundConstant(7), 2)
  {
    hide RoundConstant;
    assert CubeRootFraction(11, 0x3956c25b, 2);
    assert CubeRootFraction(13, 0x59f111f1, 2);
    assert CubeRootFraction(17, 0x923f82a4, 2);
    assert CubeRootFraction(19, 0xab1c5ed5, 2);
    hide CubeRootFraction;
    KRow0();
  }

  lemma KFromPrimes8()
    ensures CubeRootFraction(23, RoundConstant(8), 2)
    ensures CubeRootFraction(29, RoundConstant(9), 3)
    ensures CubeRootFraction(31, RoundConstant(10), 3)
    ensures CubeRootFraction(37, RoundConstant(11), 3)
  {
    hide RoundConstant;
    assert CubeRootFraction(23, 0xd807aa98, 2);
    assert CubeRootFraction(29, 0x12835b01, 3);
    assert CubeRootFraction(31, 0x243185be, 3);
    assert CubeRootFraction(37, 0x550c7dc3, 3);
    hide CubeRootFraction;
    KRow1();
  }

  lemma KFromPrimes12()
    ensures CubeRootFraction(41, RoundConstant(12), 3)
    ensures CubeRootFraction(43, RoundConstant(13), 3)
    ensures CubeRootFraction(47, RoundConstant(14), 3)
    ensures CubeRootFraction(53, RoundConstant(15), 3)
  {
    hide RoundConstant;
    assert CubeRootFraction(41, 0x72be5d74, 3);
    assert CubeRootFraction(43, 0x80deb1fe, 3);
    assert CubeRootFraction(47, 0x9bdc06a7, 3);
    assert CubeRootFraction(53, 0xc19bf174, 3);
    hide CubeRootFraction;
    KRow1();
  }

  lemma KFromPrimes16()
    ensures CubeRootFraction(59, RoundConstant(16), 3)
    ensures CubeRootFraction(61, RoundConstant(17), 3)
    ensures CubeRootFraction(67, RoundConstant(18), 4)
    ensures CubeRootFraction(71, RoundConstant(19), 4)
  {
    hide RoundConstant;
    assert CubeRootFraction(59, 0xe49b69c1, 3);
    assert CubeRootFraction(61, 0xefbe4786, 3);
    assert CubeRootFraction(67, 0x0fc19dc6, 4);
    assert CubeRootFraction(71, 0x240ca1cc, 4);
    hide CubeRootFraction;
    KRow2();
  }

  lemma KFromPrimes20()
    ensures CubeRootFraction(73, RoundConstant(20), 4)
    ensures CubeRootFraction(79, RoundConstant(21), 4)
    ensures CubeRootFraction(83, RoundConstant(22), 4)
    ensures CubeRootFraction(89, RoundConstant(23), 4)
  {
    hide RoundConstant;
    assert CubeRootFraction(73, 0x2de92c6f, 4);
    assert CubeRootFraction(79, 0x4a7484aa, 4);
    assert CubeRootFraction(83, 0x5cb0a9dc, 4);
    assert CubeRootFraction(89, 0x76f988da, 4);
    hide CubeRootFraction;
    KRow2();
  }

  lemma KFromPrimes24()
    ensures CubeRootFraction(97, RoundConstant(24), 4)
    ensures CubeRootFraction(101, RoundConstant(25), 4)
    ensures CubeRootFraction(103, RoundConstant(26), 4)
    ensures CubeRootFraction(107, RoundConstant(27), 4)
  {
    hide RoundConstant;
    assert CubeRootFraction(97, 0x983e5152, 4);
    assert CubeRootFraction(101, 0xa831c66d, 4);
    assert CubeRootFraction(103, 0xb00327c8, 4);
    assert CubeRootFraction(107, 0xbf597fc7, 4);
    hide CubeRootFraction;
    KRow3();
  }

  lemma KFromPrimes28()
    ensures CubeRootFraction(109, RoundConstant(28), 4)
    ensures CubeRootFraction(113, RoundConstant(29), 4)
    ensures CubeRootFraction(127, RoundConstant(30), 5)
    ensures CubeRootFraction(131, RoundConstant(31), 5)
  {
    hide RoundConstant;
    assert CubeRootFraction(109, 0xc6e00bf3, 4);
    assert CubeRootFraction(113, 0xd5a79147, 4);
    assert CubeRootFraction(127, 0x06ca6351, 5);
    assert CubeRootFraction(131, 0x14292967, 5);
    hide CubeRootFraction;
    KRow3();
  }

  lemma KFromPrimes32()
    ensures CubeRootFraction(137, RoundConstant(32), 5)
    ensures CubeRootFraction(139, RoundConstant(33), 5)
    ensures CubeRootFraction(149, RoundConstant(34), 5)
    ensures CubeRootFraction(151, RoundConstant(35), 5)
  {
    hide RoundConstant;
    assert CubeRootFraction(137, 0x27b70a85, 5);
    assert CubeRootFraction(139, 0x2e1b2138, 5);
    assert CubeRootFraction(149, 0x4d2c6dfc, 5);
    assert CubeRootFraction(151, 0x53380d13, 5);
    hide CubeRootFraction;
    KRow4();
  }

  lemma KFromPrimes36()
    ensures CubeRootFraction(157, RoundConstant(36), 5)
    ensures CubeRootFraction(163, RoundConstant(37), 5)
    ensures CubeRootFraction(167, RoundConstant(38), 5)
    ensures CubeRootFraction(173, RoundConstant(39), 5)
  {
    hide RoundConstant;
    assert CubeRootFraction(157, 0x650a7354, 5);
    assert CubeRootFraction(163, 0x766a0abb, 5);
    assert CubeRootFraction(167, 0x81c2c92e, 5);
    assert CubeRootFraction(173, 0x92722c85, 5);
    hide CubeRootFraction;
    KRow4();
  }

  lemma KFromPrimes40()
    ensures CubeRootFraction(179, RoundConstant(40), 5)
    ensures CubeRootFraction(181, RoundConstant(41), 5)
    ensures CubeRootFraction(191, RoundConstant(42), 5)
    ensures CubeRootFraction(193, RoundConstant(43), 5)
  {
    hide RoundConstant;
    assert CubeRootFraction(179, 0xa2bfe8a1, 5);
    assert CubeRootFraction(181, 0xa81a664b, 5);
    assert CubeRootFraction(191, 0xc24b8b70, 5);
    assert CubeRootFraction(193, 0xc76c51a3, 5);
    hide CubeRootFraction;
    KRow5();
  }

  lemma KFromPrimes44()
    ensures CubeRootFraction(197, RoundConstant(44), 5)
    ensures CubeRootFraction(199, RoundConstant(45), 5)
    ensures CubeRootFraction(211, RoundConstant(46), 5)
    ensures CubeRootFraction(223, RoundConstant(47), 6)
  {
    hide RoundConstant;
    assert CubeRootFraction(197, 0xd192e819, 5);
    assert CubeRootFraction(199, 0xd6990624, 5);
    assert CubeRootFraction(211, 0xf40e3585, 5);
    assert CubeRootFraction(223, 0x106aa070, 6);
    hide CubeRootFraction;
    KRow5();
  }

  lemma KFromPrimes48()
    ensures CubeRootFraction(227, RoundConstant(48), 6)
    ensures CubeRootFraction(229, RoundConstant(49), 6)
    ensures CubeRootFraction(233, RoundConstant(50), 6)
    ensures CubeRootFraction(239, RoundConstant(51), 6)
  {
    hide RoundConstant;
    assert CubeRootFraction(227, 0x19a4c116, 6);
    assert CubeRootFraction(229, 0x1e376c08, 6);
    assert CubeRootFraction(233, 0x2748774c, 6);
    assert CubeRootFraction(239, 0x34b0bcb5, 6);
    hide CubeRootFraction;
    KRow6();
  }

  lemma KFromPrimes52()
    ensures CubeRootFraction(241, RoundConstant(52), 6)
    ensures CubeRootFraction(251, RoundConstant(53), 6)
    ensures CubeRootFraction(257, RoundConstant(54), 6)
    ensures CubeRootFraction(263, RoundConstant(55), 6)
  {
    hide RoundConstant;
    assert CubeRootFraction(241, 0x391c0cb3, 6);
    assert CubeRootFraction(251, 0x4ed8aa4a, 6);
    assert CubeRootFraction(257, 0x5b9cca4f, 6);
    assert CubeRootFraction(263, 0x682e6ff3, 6);
    hide CubeRootFraction;
    KRow6();
  }

  lemma KFromPrimes56()
    ensures CubeRootFraction(269, RoundConstant(56), 6)
    ensures CubeRootFraction(271, RoundConstant(57), 6)
    ensures CubeRootFraction(277, RoundConstant(58), 6)
    ensures CubeRootFraction(281, RoundConstant(59), 6)
  {
    hide RoundConstant;
    assert CubeRootFraction(269, 0x748f82ee, 6);
    assert CubeRootFraction(271, 0x78a5636f, 6);
    assert CubeRootFraction(277, 0x84c87814, 6);
    assert CubeRootFraction(281, 0x8cc70208, 6);
    hide CubeRootFraction;
    KRow7();
  }

  lemma KFromPrimes60()
    ensures CubeRootFraction(283, RoundConstant(60), 6)
    ensures CubeRootFraction(293, RoundConstant(61), 6)
    ensures CubeRootFraction(307, RoundConstant(62), 6)
    ensures CubeRootFraction(311, RoundConstant(63), 6)
  {
    hide RoundConstant;
    assert CubeRootFraction(283, 0x90befffa, 6);
    assert CubeRootFraction(293, 0xa4506ceb, 6);
    assert CubeRootFraction(307, 0xbef9a3f7, 6);
    assert CubeRootFraction(311, 0xc67178f2, 6);
    hide CubeRootFraction;
    KRow7();
  }
}
