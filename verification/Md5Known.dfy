/**
 * The known answer of section A.5 of RFC 1321 for the empty message, computed step by step: it ties the macros, tables,
 * schedule, initial words, additions and padding together.
 */
module Md5Known {
  import opened Common
  import opened Md5Words
  import opened Md5Transform
  import opened Md5

  /** The one block of the padded empty message. */
  ghost predicate EmptyBlock(x: seq<Word>) {
    |x| == 16 && x[0] == 0x80 && forall i :: 1 <= i < 16 ==> x[i] == 0
  }

  lemma EmptyWords(x: seq<Word>)
    requires EmptyBlock(x)
    ensures |x| == 16 && x[0] == 0x80 && x[1] == 0 && x[2] == 0 && x[3] == 0
    ensures x[4] == 0 && x[5] == 0 && x[6] == 0 && x[7] == 0 && x[8] == 0 && x[9] == 0
    ensures x[10] == 0 && x[11] == 0 && x[12] == 0 && x[13] == 0 && x[14] == 0 && x[15] == 0
  {
  }

  lemma AddWrapped(x: nat, y: nat)
    ensures (x + y % TWO32) % TWO32 == (x + y) % TWO32
  {
    CyclicTurns(x + y % TWO32, y / TWO32, TWO32);
  }

  lemma AddFour(a: Word, m: Word, x: Word, ac: Word)
    ensures Add(a, Add(Add(m, x), ac)) == (a + m + x + ac) % TWO32
  {
    AddWrapped(ac, m + x);
    AddWrapped(a, m + x + ac);
  }

  lemma FFValue(a: Word, b: Word, c: Word, d: Word, x: Word, s: bv32, ac: Word, m: Word, t: Word, r: Word)
    requires 0 < s < 32 && F(b, c, d) == m && (a + m + x + ac) % TWO32 == t && RotateLeft(t, s) == r
    ensures FF(a, b, c, d, x, s, ac) == (r + b) % TWO32
  {
    hide F, RotateLeft;
    AddFour(a, m, x, ac);
  }

  lemma GGValue(a: Word, b: Word, c: Word, d: Word, x: Word, s: bv32, ac: Word, m: Word, t: Word, r: Word)
    requires 0 < s < 32 && G(b, c, d) == m && (a + m + x + ac) % TWO32 == t && RotateLeft(t, s) == r
    ensures GG(a, b, c, d, x, s, ac) == (r + b) % TWO32
  {
    hide G, RotateLeft;
    AddFour(a, m, x, ac);
  }

  lemma HHValue(a: Word, b: Word, c: Word, d: Word, x: Word, s: bv32, ac: Word, m: Word, t: Word, r: Word)
    requires 0 < s < 32 && H(b, c, d) == m && (a + m + x + ac) % TWO32 == t && RotateLeft(t, s) == r
    ensures HH(a, b, c, d, x, s, ac) == (r + b) % TWO32
  {
    hide H, RotateLeft;
    AddFour(a, m, x, ac);
  }

  lemma IIValue(a: Word, b: Word, c: Word, d: Word, x: Word, s: bv32, ac: Word, m: Word, t: Word, r: Word)
    requires 0 < s < 32 && I(b, c, d) == m && (a + m + x + ac) % TWO32 == t && RotateLeft(t, s) == r
    ensures II(a, b, c, d, x, s, ac) == (r + b) % TWO32
  {
    hide I, RotateLeft;
    AddFour(a, m, x, ac);
  }

  // ---- Round 1 ---------------------------------------------------------------------------------------------

  lemma Words0()
    ensures F(0xefcdab89, 0x98badcfe, 0x10325476) == 0x98badcfe && RotateLeft(0xd76aa4f7, 7) == 0xb5527beb
    ensures F(0xa5202774, 0xefcdab89, 0x98badcfe) == 0xbd9afb8a && RotateLeft(0xb6950756, 12) == 0x50756b69
    ensures F(0xf59592dd, 0xa5202774, 0xefcdab89) == 0xaf482b54 && RotateLeft(0x6c23792d, 17) == 0xf25ad846
    ensures F(0xe7f06b23, 0xf59592dd, 0xa5202774) == 0xe5900655 && RotateLeft(0x971b80cc, 22) == 0x3325c6e0
  {
  }

  lemma Steps0(r: Regs, x: seq<Word>)
    requires EmptyBlock(x) && Steps(r, x, 0, 0) == Regs(0x67452301, 0xefcdab89, 0x98badcfe, 0x10325476)
    ensures Steps(r, x, 0, 4) == Regs(0xa5202774, 0x1b163203, 0xe7f06b23, 0xf59592dd)
  {
    ScheduleOfRoundOne();
    hide F, G, H, I, FF, GG, HH, II, RotateLeft, Steps, K, T, EmptyBlock;
    EmptyWords(x);
    Words0();
    FFValue(0x67452301, 0xefcdab89, 0x98badcfe, 0x10325476, 0x80, 7, 0xd76aa478, 0x98badcfe, 0xd76aa4f7, 0xb5527beb);
    FFValue(0x10325476, 0xa5202774, 0xefcdab89, 0x98badcfe, 0x0, 12, 0xe8c7b756, 0xbd9afb8a, 0xb6950756, 0x50756b69);
    FFValue(0x98badcfe, 0xf59592dd, 0xa5202774, 0xefcdab89, 0x0, 17, 0x242070db, 0xaf482b54, 0x6c23792d, 0xf25ad846);
    FFValue(0xefcdab89, 0xe7f06b23, 0xf59592dd, 0xa5202774, 0x0, 22, 0xc1bdceee, 0xe5900655, 0x971b80cc, 0x3325c6e0);
    FourOfRoundOne(r, x, 0);
  }

  lemma Words4()
    ensures F(0x1b163203, 0xe7f06b23, 0xf59592dd) == 0xe791a2df && RotateLeft(0x822dda02, 7) == 0x16ed0141
    ensures F(0x32033344, 0x1b163203, 0xe7f06b23) == 0xd7f27a23 && RotateLeft(0x150fd32a, 12) == 0xfd32a150
    ensures F(0x2f35d494, 0x32033344, 0x1b163203) == 0x32033207 && RotateLeft(0xc223e33d, 17) == 0xc67b8447
    ensures F(0xf5b158db, 0x2f35d494, 0x32033344) == 0x27337394 && RotateLeft(0x3f903a98, 22) == 0xa60fe40e
  {
  }

  lemma Steps4(r: Regs, x: seq<Word>)
    requires EmptyBlock(x) && Steps(r, x, 0, 4) == Regs(0xa5202774, 0x1b163203, 0xe7f06b23, 0xf59592dd)
    ensures Steps(r, x, 0, 8) == Regs(0x32033344, 0x9bc13ce9, 0xf5b158db, 0x2f35d494)
  {
    ScheduleOfRoundOne();
    hide F, G, H, I, FF, GG, HH, II, RotateLeft, Steps, K, T, EmptyBlock;
    EmptyWords(x);
    Words4();
    FFValue(0xa5202774, 0x1b163203, 0xe7f06b23, 0xf59592dd, 0x0, 7, 0xf57c0faf, 0xe791a2df, 0x822dda02, 0x16ed0141);
    FFValue(0xf59592dd, 0x32033344, 0x1b163203, 0xe7f06b23, 0x0, 12, 0x4787c62a, 0xd7f27a23, 0x150fd32a, 0xfd32a150);
    FFValue(0xe7f06b23, 0x2f35d494, 0x32033344, 0x1b163203, 0x0, 17, 0xa8304613, 0x32033207, 0xc223e33d, 0xc67b8447);
    FFValue(0x1b163203, 0xf5b158db, 0x2f35d494, 0x32033344, 0x0, 22, 0xfd469501, 0x27337394, 0x3f903a98, 0xa60fe40e);
    FourOfRoundOne(r, x, 4);
  }

  lemma Words8()
    ensures F(0x9bc13ce9, 0xf5b158db, 0x2f35d494) == 0xb5b5d8dd && RotateLeft(0x5139a4f9, 7) == 0x9cd27ca8
    ensures F(0x3893b991, 0x9bc13ce9, 0xf5b158db) == 0xdda178cb && RotateLeft(0x981c450e, 12) == 0xc450e981
    ensures F(0xfce4a312, 0x3893b991, 0x9bc13ce9) == 0x3b81bdf9 && RotateLeft(0x31327285, 17) == 0xe50a6264
    ensures F(0xe1ef0576, 0xfce4a312, 0x3893b991) == 0xf8f4b993 && RotateLeft(0x1e12ce3a, 22) == 0x8e8784b3
  {
  }

  lemma Steps8(r: Regs, x: seq<Word>)
    requires EmptyBlock(x) && Steps(r, x, 0, 8) == Regs(0x32033344, 0x9bc13ce9, 0xf5b158db, 0x2f35d494)
    ensures Steps(r, x, 0, 12) == Regs(0x3893b991, 0x70768a29, 0xe1ef0576, 0xfce4a312)
  {
    ScheduleOfRoundOne();
    hide F, G, H, I, FF, GG, HH, II, RotateLeft, Steps, K, T, EmptyBlock;
    EmptyWords(x);
    Words8();
    FFValue(0x32033344, 0x9bc13ce9, 0xf5b158db, 0x2f35d494, 0x0, 7, 0x698098d8, 0xb5b5d8dd, 0x5139a4f9, 0x9cd27ca8);
    FFValue(0x2f35d494, 0x3893b991, 0x9bc13ce9, 0xf5b158db, 0x0, 12, 0x8b44f7af, 0xdda178cb, 0x981c450e, 0xc450e981);
    FFValue(0xf5b158db, 0xfce4a312, 0x3893b991, 0x9bc13ce9, 0x0, 17, 0xffff5bb1, 0x3b81bdf9, 0x31327285, 0xe50a6264);
    FFValue(0x9bc13ce9, 0xe1ef0576, 0xfce4a312, 0x3893b991, 0x0, 22, 0x895cd7be, 0xf8f4b993, 0x1e12ce3a, 0x8e8784b3);
    FourOfRoundOne(r, x, 8);
  }

  lemma Words12()
    ensures F(0x70768a29, 0xe1ef0576, 0xfce4a312) == 0xece62132 && RotateLeft(0x9109ebe5, 7) == 0x84f5f2c8
    ensures F(0xf56c7cf1, 0x70768a29, 0xe1ef0576) == 0x70e70927 && RotateLeft(0x6b641dcc, 12) == 0x41dcc6b6
    ensures F(0x374943a7, 0xf56c7cf1, 0x70768a29) == 0x757ec8a9 && RotateLeft(0xfde711ad, 17) == 0x235bfbce
    ensures F(0x5aa53f75, 0x374943a7, 0xf56c7cf1) == 0xb74943a5 && RotateLeft(0x7173d5ef, 22) == 0x7bdc5cf5
  {
  }

  lemma Steps12(r: Regs, x: seq<Word>)
    requires EmptyBlock(x) && Steps(r, x, 0, 12) == Regs(0x3893b991, 0x70768a29, 0xe1ef0576, 0xfce4a312)
    ensures Steps(r, x, 0, 16) == Regs(0xf56c7cf1, 0xd6819c6a, 0x5aa53f75, 0x374943a7)
  {
    ScheduleOfRoundOne();
    hide F, G, H, I, FF, GG, HH, II, RotateLeft, Steps, K, T, EmptyBlock;
    EmptyWords(x);
    Words12();
    FFValue(0x3893b991, 0x70768a29, 0xe1ef0576, 0xfce4a312, 0x0, 7, 0x6b901122, 0xece62132, 0x9109ebe5, 0x84f5f2c8);
    FFValue(0xfce4a312, 0xf56c7cf1, 0x70768a29, 0xe1ef0576, 0x0, 12, 0xfd987193, 0x70e70927, 0x6b641dcc, 0x41dcc6b6);
    FFValue(0xe1ef0576, 0x374943a7, 0xf56c7cf1, 0x70768a29, 0x0, 17, 0xa679438e, 0x757ec8a9, 0xfde711ad, 0x235bfbce);
    FFValue(0x70768a29, 0x5aa53f75, 0x374943a7, 0xf56c7cf1, 0x0, 22, 0x49b40821, 0xb74943a5, 0x7173d5ef, 0x7bdc5cf5);
    FourOfRoundOne(r, x, 12);
  }

  // ---- Round 2 ---------------------------------------------------------------------------------------------

  lemma Words16()
    ensures G(0xd6819c6a, 0x5aa53f75, 0x374943a7) == 0x5ea53c72 && RotateLeft(0x4a2fdec5, 5) == 0x45fbd8a9
    ensures G(0x1c7d7513, 0xd6819c6a, 0x5aa53f75) == 0x9c25b51b && RotateLeft(0x93afac02, 9) == 0x5f580527
    ensures G(0x7bd57a3a, 0x1c7d7513, 0xd6819c6a) == 0x5afd793b && RotateLeft(0xdc011301, 14) == 0x44c07700
    ensures G(0xc095f13a, 0x7bd57a3a, 0x1c7d7513) == 0x63957b3a && RotateLeft(0x23cddfce, 20) == 0xfce23cdd
  {
  }

  lemma Steps16(r: Regs, x: seq<Word>)
    requires EmptyBlock(x) && Steps(r, x, 16, 16) == Regs(0xf56c7cf1, 0xd6819c6a, 0x5aa53f75, 0x374943a7)
    ensures Steps(r, x, 16, 20) == Regs(0x1c7d7513, 0xbd782e17, 0xc095f13a, 0x7bd57a3a)
  {
    ScheduleOfRoundTwo();
    hide F, G, H, I, FF, GG, HH, II, RotateLeft, Steps, K, T, EmptyBlock;
    EmptyWords(x);
    Words16();
    GGValue(0xf56c7cf1, 0xd6819c6a, 0x5aa53f75, 0x374943a7, 0x0, 5, 0xf61e2562, 0x5ea53c72, 0x4a2fdec5, 0x45fbd8a9);
    GGValue(0x374943a7, 0x1c7d7513, 0xd6819c6a, 0x5aa53f75, 0x0, 9, 0xc040b340, 0x9c25b51b, 0x93afac02, 0x5f580527);
    GGValue(0x5aa53f75, 0x7bd57a3a, 0x1c7d7513, 0xd6819c6a, 0x0, 14, 0x265e5a51, 0x5afd793b, 0xdc011301, 0x44c07700);
    GGValue(0xd6819c6a, 0xc095f13a, 0x7bd57a3a, 0x1c7d7513, 0x80, 20, 0xe9b6c7aa, 0x63957b3a, 0x23cddfce, 0xfce23cdd);
    FourOfRoundTwo(r, x, 16);
  }

  lemma Words20()
    ensures G(0xbd782e17, 0xc095f13a, 0x7bd57a3a) == 0xb950ab12 && RotateLeft(0xabfd3082, 5) == 0x7fa61055
    ensures G(0x3d1e3e6c, 0xbd782e17, 0xc095f13a) == 0x3d7c3e2d && RotateLeft(0xbb95ccba, 9) == 0x2b997577
    ensures G(0x68b7b3e3, 0x3d1e3e6c, 0xbd782e17) == 0x2836326b && RotateLeft(0xc16e0a26, 14) == 0x8289b05b
    ensures G(0xeb41643e, 0x68b7b3e3, 0x3d1e3e6c) == 0x69a1a5af && RotateLeft(0xeedcf8e, 20) == 0xf8e0eedc
  {
  }

  lemma Steps20(r: Regs, x: seq<Word>)
    requires EmptyBlock(x) && Steps(r, x, 16, 20) == Regs(0x1c7d7513, 0xbd782e17, 0xc095f13a, 0x7bd57a3a)
    ensures Steps(r, x, 16, 24) == Regs(0x3d1e3e6c, 0xe422531a, 0xeb41643e, 0x68b7b3e3)
  {
    ScheduleOfRoundTwo();
    hide F, G, H, I, FF, GG, HH, II, RotateLeft, Steps, K, T, EmptyBlock;
    EmptyWords(x);
    Words20();
    GGValue(0x1c7d7513, 0xbd782e17, 0xc095f13a, 0x7bd57a3a, 0x0, 5, 0xd62f105d, 0xb950ab12, 0xabfd3082, 0x7fa61055);
    GGValue(0x7bd57a3a, 0x3d1e3e6c, 0xbd782e17, 0xc095f13a, 0x0, 9, 0x2441453, 0x3d7c3e2d, 0xbb95ccba, 0x2b997577);
    GGValue(0xc095f13a, 0x68b7b3e3, 0x3d1e3e6c, 0xbd782e17, 0x0, 14, 0xd8a1e681, 0x2836326b, 0xc16e0a26, 0x8289b05b);
    GGValue(0xbd782e17, 0xeb41643e, 0x68b7b3e3, 0x3d1e3e6c, 0x0, 20, 0xe7d3fbc8, 0x69a1a5af, 0xeedcf8e, 0xf8e0eedc);
    FourOfRoundTwo(r, x, 20);
  }

  lemma Words24()
    ensures G(0xe422531a, 0xeb41643e, 0x68b7b3e3) == 0xe362571e && RotateLeft(0x42626370, 5) == 0x4c4c6e08
    ensures G(0x306ec122, 0xe422531a, 0xeb41643e) == 0x24625322 && RotateLeft(0x50510edb, 9) == 0xa21db6a0
    ensures G(0xd28c77c2, 0x306ec122, 0xe422531a) == 0xd04cd322 && RotateLeft(0xb06344e7, 14) == 0xd139ec18
    ensures G(0xa3c663da, 0xd28c77c2, 0x306ec122) == 0xe2c677c2 && RotateLeft(0xc42dfc9, 20) == 0xfc90c42d
  {
  }

  lemma Steps24(r: Regs, x: seq<Word>)
    requires EmptyBlock(x) && Steps(r, x, 16, 24) == Regs(0x3d1e3e6c, 0xe422531a, 0xeb41643e, 0x68b7b3e3)
    ensures Steps(r, x, 16, 28) == Regs(0x306ec122, 0xa0572807, 0xa3c663da, 0xd28c77c2)
  {
    ScheduleOfRoundTwo();
    hide F, G, H, I, FF, GG, HH, II, RotateLeft, Steps, K, T, EmptyBlock;
    EmptyWords(x);
    Words24();
    GGValue(0x3d1e3e6c, 0xe422531a, 0xeb41643e, 0x68b7b3e3, 0x0, 5, 0x21e1cde6, 0xe362571e, 0x42626370, 0x4c4c6e08);
    GGValue(0x68b7b3e3, 0x306ec122, 0xe422531a, 0xeb41643e, 0x0, 9, 0xc33707d6, 0x24625322, 0x50510edb, 0xa21db6a0);
    GGValue(0xeb41643e, 0xd28c77c2, 0x306ec122, 0xe422531a, 0x0, 14, 0xf4d50d87, 0xd04cd322, 0xb06344e7, 0xd139ec18);
    GGValue(0xe422531a, 0xa3c663da, 0xd28c77c2, 0x306ec122, 0x0, 20, 0x455a14ed, 0xe2c677c2, 0xc42dfc9, 0xfc90c42d);
    FourOfRoundTwo(r, x, 24);
  }

  lemma Words28()
    ensures G(0xa0572807, 0xa3c663da, 0xd28c77c2) == 0xa146201a && RotateLeft(0x7b98ca41, 5) == 0x7319482f
    ensures G(0x13707036, 0xa0572807, 0xa3c663da) == 0x3516817 && RotateLeft(0xd2cd83d1, 9) == 0x9b07a3a5
    ensures G(0xae7813db, 0x13707036, 0xa0572807) == 0xb3705033 && RotateLeft(0xbea5b6e6, 14) == 0x6db9afa9
    ensures G(0x1c31c384, 0xae7813db, 0x13707036) == 0xbc3843cd && RotateLeft(0xe9b9b85e, 20) == 0x85ee9b9b
  {
  }

  lemma Steps28(r: Regs, x: seq<Word>)
    requires EmptyBlock(x) && Steps(r, x, 16, 28) == Regs(0x306ec122, 0xa0572807, 0xa3c663da, 0xd28c77c2)
    ensures Steps(r, x, 16, 32) == Regs(0x13707036, 0xa2205f1f, 0x1c31c384, 0xae7813db)
  {
    ScheduleOfRoundTwo();
    hide F, G, H, I, FF, GG, HH, II, RotateLeft, Steps, K, T, EmptyBlock;
    EmptyWords(x);
    Words28();
    GGValue(0x306ec122, 0xa0572807, 0xa3c663da, 0xd28c77c2, 0x0, 5, 0xa9e3e905, 0xa146201a, 0x7b98ca41, 0x7319482f);
    GGValue(0xd28c77c2, 0x13707036, 0xa0572807, 0xa3c663da, 0x0, 9, 0xfcefa3f8, 0x3516817, 0xd2cd83d1, 0x9b07a3a5);
    GGValue(0xa3c663da, 0xae7813db, 0x13707036, 0xa0572807, 0x0, 14, 0x676f02d9, 0xb3705033, 0xbea5b6e6, 0x6db9afa9);
    GGValue(0xa0572807, 0x1c31c384, 0xae7813db, 0x13707036, 0x0, 20, 0x8d2a4c8a, 0xbc3843cd, 0xe9b9b85e, 0x85ee9b9b);
    FourOfRoundTwo(r, x, 28);
  }

  // ---- Round 3 ---------------------------------------------------------------------------------------------

  lemma Words32()
    ensures H(0xa2205f1f, 0x1c31c384, 0xae7813db) == 0x10698f40 && RotateLeft(0x23d438b8, 4) == 0x3d438b82
    ensures H(0xdf63eaa1, 0xa2205f1f, 0x1c31c384) == 0x6172763a && RotateLeft(0x975c8096, 11) == 0xe404b4ba
    ensures H(0xc3689f5b, 0xdf63eaa1, 0xa2205f1f) == 0xbe2b2ae5 && RotateLeft(0x47fa4f8b, 16) == 0x4f8b47fa
    ensures H(0x12f3e755, 0xc3689f5b, 0xdf63eaa1) == 0xef892af && RotateLeft(0xaefe29da, 23) == 0xed577f14
  {
  }

  lemma Steps32(r: Regs, x: seq<Word>)
    requires EmptyBlock(x) && Steps(r, x, 32, 32) == Regs(0x13707036, 0xa2205f1f, 0x1c31c384, 0xae7813db)
    ensures Steps(r, x, 32, 36) == Regs(0xdf63eaa1, 0x4b6669, 0x12f3e755, 0xc3689f5b)
  {
    ScheduleOfRoundThree();
    hide F, G, H, I, FF, GG, HH, II, RotateLeft, Steps, K, T, EmptyBlock;
    EmptyWords(x);
    Words32();
    HHValue(0x13707036, 0xa2205f1f, 0x1c31c384, 0xae7813db, 0x0, 4, 0xfffa3942, 0x10698f40, 0x23d438b8, 0x3d438b82);
    HHValue(0xae7813db, 0xdf63eaa1, 0xa2205f1f, 0x1c31c384, 0x0, 11, 0x8771f681, 0x6172763a, 0x975c8096, 0xe404b4ba);
    HHValue(0x1c31c384, 0xc3689f5b, 0xdf63eaa1, 0xa2205f1f, 0x0, 16, 0x6d9d6122, 0xbe2b2ae5, 0x47fa4f8b, 0x4f8b47fa);
    HHValue(0xa2205f1f, 0x12f3e755, 0xc3689f5b, 0xdf63eaa1, 0x0, 23, 0xfde5380c, 0xef892af, 0xaefe29da, 0xed577f14);
    FourOfRoundThree(r, x, 32);
  }

  lemma Words36()
    ensures H(0x4b6669, 0x12f3e755, 0xc3689f5b) == 0xd1d01e67 && RotateLeft(0x55f2f34c, 4) == 0x5f2f34c5
    ensures H(0x5f7a9b2e, 0x4b6669, 0x12f3e755) == 0x4dc21a12 && RotateLeft(0x5d098916, 11) == 0x4c48b2e8
    ensures H(0xabc34e16, 0x5f7a9b2e, 0x4b6669) == 0xf4f2b351 && RotateLeft(0xfea1e606, 16) == 0xe606fea1
    ensures H(0x91ca4cb7, 0xabc34e16, 0x5f7a9b2e) == 0x6573998f && RotateLeft(0x247ebc68, 23) == 0x34123f5e
  {
  }

  lemma Steps36(r: Regs, x: seq<Word>)
    requires EmptyBlock(x) && Steps(r, x, 32, 36) == Regs(0xdf63eaa1, 0x4b6669, 0x12f3e755, 0xc3689f5b)
    ensures Steps(r, x, 32, 40) == Regs(0x5f7a9b2e, 0xc5dc8c15, 0x91ca4cb7, 0xabc34e16)
  {
    ScheduleOfRoundThree();
    hide F, G, H, I, FF, GG, HH, II, RotateLeft, Steps, K, T, EmptyBlock;
    EmptyWords(x);
    Words36();
    HHValue(0xdf63eaa1, 0x4b6669, 0x12f3e755, 0xc3689f5b, 0x0, 4, 0xa4beea44, 0xd1d01e67, 0x55f2f34c, 0x5f2f34c5);
    HHValue(0xc3689f5b, 0x5f7a9b2e, 0x4b6669, 0x12f3e755, 0x0, 11, 0x4bdecfa9, 0x4dc21a12, 0x5d098916, 0x4c48b2e8);
    HHValue(0x12f3e755, 0xabc34e16, 0x5f7a9b2e, 0x4b6669, 0x0, 16, 0xf6bb4b60, 0xf4f2b351, 0xfea1e606, 0xe606fea1);
    HHValue(0x4b6669, 0x91ca4cb7, 0xabc34e16, 0x5f7a9b2e, 0x0, 23, 0xbebfbc70, 0x6573998f, 0x247ebc68, 0x34123f5e);
    FourOfRoundThree(r, x, 36);
  }

  lemma Words40()
    ensures H(0xc5dc8c15, 0x91ca4cb7, 0xabc34e16) == 0xffd58eb4 && RotateLeft(0x87eba8a8, 4) == 0x7eba8a88
    ensures H(0x4497169d, 0xc5dc8c15, 0x91ca4cb7) == 0x1081d63f && RotateLeft(0xa6e64ccf, 11) == 0x32667d37
    ensures H(0x76fd93d4, 0x4497169d, 0xc5dc8c15) == 0xf7b6095c && RotateLeft(0x5e6f8698, 16) == 0x86985e6f
    ensures H(0xfd95f243, 0x76fd93d4, 0x4497169d) == 0xcfff770a && RotateLeft(0x9a642024, 23) == 0x124d3210
  {
  }

  lemma Steps40(r: Regs, x: seq<Word>)
    requires EmptyBlock(x) && Steps(r, x, 32, 40) == Regs(0x5f7a9b2e, 0xc5dc8c15, 0x91ca4cb7, 0xabc34e16)
    ensures Steps(r, x, 32, 44) == Regs(0x4497169d, 0xfe32453, 0xfd95f243, 0x76fd93d4)
  {
    ScheduleOfRoundThree();
    hide F, G, H, I, FF, GG, HH, II, RotateLeft, Steps, K, T, EmptyBlock;
    EmptyWords(x);
    Words40();
    HHValue(0x5f7a9b2e, 0xc5dc8c15, 0x91ca4cb7, 0xabc34e16, 0x0, 4, 0x289b7ec6, 0xffd58eb4, 0x87eba8a8, 0x7eba8a88);
    HHValue(0xabc34e16, 0x4497169d, 0xc5dc8c15, 0x91ca4cb7, 0x80, 11, 0xeaa127fa, 0x1081d63f, 0xa6e64ccf, 0x32667d37);
    HHValue(0x91ca4cb7, 0x76fd93d4, 0x4497169d, 0xc5dc8c15, 0x0, 16, 0xd4ef3085, 0xf7b6095c, 0x5e6f8698, 0x86985e6f);
    HHValue(0xc5dc8c15, 0xfd95f243, 0x76fd93d4, 0x4497169d, 0x0, 23, 0x4881d05, 0xcfff770a, 0x9a642024, 0x124d3210);
    FourOfRoundThree(r, x, 40);
  }

  lemma Words44()
    ensures H(0xfe32453, 0xfd95f243, 0x76fd93d4) == 0x848b45c4 && RotateLeft(0xa2f72c9a, 4) == 0x2f72c9aa
    ensures H(0x3f55edfd, 0xfe32453, 0xfd95f243) == 0xcd233bed && RotateLeft(0x2afc69a6, 11) == 0xe34d3157
    ensures H(0x22a31f54, 0x3f55edfd, 0xfe32453) == 0x1215d6fa && RotateLeft(0x2f4e4635, 16) == 0x46352f4e
    ensures H(0x68d84ea2, 0x22a31f54, 0x3f55edfd) == 0x752ebc0b && RotateLeft(0x49be36c3, 23) == 0x61a4df1b
  {
  }

  lemma Steps44(r: Regs, x: seq<Word>)
    requires EmptyBlock(x) && Steps(r, x, 32, 44) == Regs(0x4497169d, 0xfe32453, 0xfd95f243, 0x76fd93d4)
    ensures Steps(r, x, 32, 48) == Regs(0x3f55edfd, 0xca7d2dbd, 0x68d84ea2, 0x22a31f54)
  {
    ScheduleOfRoundThree();
    hide F, G, H, I, FF, GG, HH, II, RotateLeft, Steps, K, T, EmptyBlock;
    EmptyWords(x);
    Words44();
    HHValue(0x4497169d, 0xfe32453, 0xfd95f243, 0x76fd93d4, 0x0, 4, 0xd9d4d039, 0x848b45c4, 0xa2f72c9a, 0x2f72c9aa);
    HHValue(0x76fd93d4, 0x3f55edfd, 0xfe32453, 0xfd95f243, 0x0, 11, 0xe6db99e5, 0xcd233bed, 0x2afc69a6, 0xe34d3157);
    HHValue(0xfd95f243, 0x22a31f54, 0x3f55edfd, 0xfe32453, 0x0, 16, 0x1fa27cf8, 0x1215d6fa, 0x2f4e4635, 0x46352f4e);
    HHValue(0xfe32453, 0x68d84ea2, 0x22a31f54, 0x3f55edfd, 0x0, 23, 0xc4ac5665, 0x752ebc0b, 0x49be36c3, 0x61a4df1b);
    FourOfRoundThree(r, x, 44);
  }

  // ---- Round 4 ---------------------------------------------------------------------------------------------

  lemma Words48()
    ensures I(0xca7d2dbd, 0x68d84ea2, 0x22a31f54) == 0xb7a5a31d && RotateLeft(0xeb24b3de, 6) == 0xc92cf7ba
    ensures I(0x93aa2577, 0xca7d2dbd, 0x68d84ea2) == 0x5dd298c2 && RotateLeft(0xc3a0b7ad, 10) == 0x82deb70e
    ensures I(0x1688dc85, 0x93aa2577, 0xca7d2dbd) == 0xa420fbb0 && RotateLeft(0xb88d6df9, 15) == 0xb6fcdc46
    ensures I(0xcd85b8cb, 0x1688dc85, 0x93aa2577) == 0xfb5d264e && RotateLeft(0xc26df444, 21) == 0x88984dbe
  {
  }

  lemma Steps48(r: Regs, x: seq<Word>)
    requires EmptyBlock(x) && Steps(r, x, 48, 48) == Regs(0x3f55edfd, 0xca7d2dbd, 0x68d84ea2, 0x22a31f54)
    ensures Steps(r, x, 48, 52) == Regs(0x93aa2577, 0x561e0689, 0xcd85b8cb, 0x1688dc85)
  {
    ScheduleOfRoundFour();
    hide F, G, H, I, FF, GG, HH, II, RotateLeft, Steps, K, T, EmptyBlock;
    EmptyWords(x);
    Words48();
    IIValue(0x3f55edfd, 0xca7d2dbd, 0x68d84ea2, 0x22a31f54, 0x80, 6, 0xf4292244, 0xb7a5a31d, 0xeb24b3de, 0xc92cf7ba);
    IIValue(0x22a31f54, 0x93aa2577, 0xca7d2dbd, 0x68d84ea2, 0x0, 10, 0x432aff97, 0x5dd298c2, 0xc3a0b7ad, 0x82deb70e);
    IIValue(0x68d84ea2, 0x1688dc85, 0x93aa2577, 0xca7d2dbd, 0x0, 15, 0xab9423a7, 0xa420fbb0, 0xb88d6df9, 0xb6fcdc46);
    IIValue(0xca7d2dbd, 0xcd85b8cb, 0x1688dc85, 0x93aa2577, 0x0, 21, 0xfc93a039, 0xfb5d264e, 0xc26df444, 0x88984dbe);
    FourOfRoundFour(r, x, 48);
  }

  lemma Words52()
    ensures I(0x561e0689, 0xcd85b8cb, 0x1688dc85) == 0x32fa9f30 && RotateLeft(0x2c001e6a, 6) == 0x79a8b
    ensures I(0x5625a114, 0x561e0689, 0xcd85b8cb) == 0x2061e1bd && RotateLeft(0xc5f78ad4, 10) == 0xde2b5317
    ensures I(0x3450f42b, 0x5625a114, 0x561e0689) == 0xebd45c6b && RotateLeft(0xb94a09b3, 15) == 0x4d9dca5
    ensures I(0x392ad0d0, 0x3450f42b, 0x5625a114) == 0x8daa2ad0 && RotateLeft(0x694c8f2a, 21) == 0xe54d2991
  {
  }

  lemma Steps52(r: Regs, x: seq<Word>)
    requires EmptyBlock(x) && Steps(r, x, 48, 52) == Regs(0x93aa2577, 0x561e0689, 0xcd85b8cb, 0x1688dc85)
    ensures Steps(r, x, 48, 56) == Regs(0x5625a114, 0x1e77fa61, 0x392ad0d0, 0x3450f42b)
  {
    ScheduleOfRoundFour();
    hide F, G, H, I, FF, GG, HH, II, RotateLeft, Steps, K, T, EmptyBlock;
    EmptyWords(x);
    Words52();
    IIValue(0x93aa2577, 0x561e0689, 0xcd85b8cb, 0x1688dc85, 0x0, 6, 0x655b59c3, 0x32fa9f30, 0x2c001e6a, 0x79a8b);
    IIValue(0x1688dc85, 0x5625a114, 0x561e0689, 0xcd85b8cb, 0x0, 10, 0x8f0ccc92, 0x2061e1bd, 0xc5f78ad4, 0xde2b5317);
    IIValue(0xcd85b8cb, 0x3450f42b, 0x5625a114, 0x561e0689, 0x0, 15, 0xffeff47d, 0xebd45c6b, 0xb94a09b3, 0x4d9dca5);
    IIValue(0x561e0689, 0x392ad0d0, 0x3450f42b, 0x5625a114, 0x0, 21, 0x85845dd1, 0x8daa2ad0, 0x694c8f2a, 0xe54d2991);
    FourOfRoundFour(r, x, 52);
  }

  lemma Words56()
    ensures I(0x1e77fa61, 0x392ad0d0, 0x3450f42b) == 0xe6d52b25 && RotateLeft(0xaca34a88, 6) == 0x28d2a22b
    ensures I(0x474a9c8c, 0x1e77fa61, 0x392ad0d0) == 0xd9a845ce && RotateLeft(0xc2620d9, 10) == 0x98836430
    ensures I(0xdfce00bc, 0x474a9c8c, 0x1e77fa61) == 0xb8849932 && RotateLeft(0x94b0ad16, 15) == 0x568b4a58
    ensures I(0x36594b14, 0xdfce00bc, 0x474a9c8c) == 0x61336bcb && RotateLeft(0xcdb377cd, 21) == 0xf9b9b66e
  {
  }

  lemma Steps56(r: Regs, x: seq<Word>)
    requires EmptyBlock(x) && Steps(r, x, 48, 56) == Regs(0x5625a114, 0x1e77fa61, 0x392ad0d0, 0x3450f42b)
    ensures Steps(r, x, 48, 60) == Regs(0x474a9c8c, 0x30130182, 0x36594b14, 0xdfce00bc)
  {
    ScheduleOfRoundFour();
    hide F, G, H, I, FF, GG, HH, II, RotateLeft, Steps, K, T, EmptyBlock;
    EmptyWords(x);
    Words56();
    IIValue(0x5625a114, 0x1e77fa61, 0x392ad0d0, 0x3450f42b, 0x0, 6, 0x6fa87e4f, 0xe6d52b25, 0xaca34a88, 0x28d2a22b);
    IIValue(0x3450f42b, 0x474a9c8c, 0x1e77fa61, 0x392ad0d0, 0x0, 10, 0xfe2ce6e0, 0xd9a845ce, 0xc2620d9, 0x98836430);
    IIValue(0x392ad0d0, 0xdfce00bc, 0x474a9c8c, 0x1e77fa61, 0x0, 15, 0xa3014314, 0xb8849932, 0x94b0ad16, 0x568b4a58);
    IIValue(0x1e77fa61, 0x36594b14, 0xdfce00bc, 0x474a9c8c, 0x0, 21, 0x4e0811a1, 0x61336bcb, 0xcdb377cd, 0xf9b9b66e);
    FourOfRoundFour(r, x, 56);
  }

  lemma Words60()
    ensures I(0x30130182, 0x36594b14, 0xdfce00bc) == 0x66ab4d7 && RotateLeft(0x4508cfe5, 6) == 0x4233f951
    ensures I(0x7246fad3, 0x30130182, 0x36594b14) == 0xcbf5ff79 && RotateLeft(0x68fef26a, 10) == 0xfbc9a9a3
    ensures I(0x6e10a476, 0x7246fad3, 0x30130182) == 0x9dba04ac && RotateLeft(0xfeeb227b, 15) == 0x913dff75
    ensures I(0xff4ea3eb, 0x6e10a476, 0x7246fad3) == 0x91ef0399 && RotateLeft(0xad88d8ac, 21) == 0x1595b11b
  {
  }

  lemma Steps60(r: Regs, x: seq<Word>)
    requires EmptyBlock(x) && Steps(r, x, 48, 60) == Regs(0x474a9c8c, 0x30130182, 0x36594b14, 0xdfce00bc)
    ensures Steps(r, x, 48, 64) == Regs(0x7246fad3, 0x14e45506, 0xff4ea3eb, 0x6e10a476)
  {
    ScheduleOfRoundFour();
    hide F, G, H, I, FF, GG, HH, II, RotateLeft, Steps, K, T, EmptyBlock;
    EmptyWords(x);
    Words60();
    IIValue(0x474a9c8c, 0x30130182, 0x36594b14, 0xdfce00bc, 0x0, 6, 0xf7537e82, 0x66ab4d7, 0x4508cfe5, 0x4233f951);
    IIValue(0xdfce00bc, 0x7246fad3, 0x30130182, 0x36594b14, 0x0, 10, 0xbd3af235, 0xcbf5ff79, 0x68fef26a, 0xfbc9a9a3);
    IIValue(0x36594b14, 0x6e10a476, 0x7246fad3, 0x30130182, 0x0, 15, 0x2ad7d2bb, 0x9dba04ac, 0xfeeb227b, 0x913dff75);
    IIValue(0x30130182, 0xff4ea3eb, 0x6e10a476, 0x7246fad3, 0x0, 21, 0xeb86d391, 0x91ef0399, 0xad88d8ac, 0x1595b11b);
    FourOfRoundFour(r, x, 60);
  }

  // ---- The digest --------------------------------------------------------------------------------------------

  lemma Round1(r: Regs, x: seq<Word>)
    requires EmptyBlock(x) && r == Regs(0x67452301, 0xefcdab89, 0x98badcfe, 0x10325476)
    ensures Steps(r, x, 0, 16) == Regs(0xf56c7cf1, 0xd6819c6a, 0x5aa53f75, 0x374943a7)
  {
    assert Steps(r, x, 0, 0) == r;
    hide Steps, EmptyBlock;
    Steps0(r, x);
    Steps4(r, x);
    Steps8(r, x);
    Steps12(r, x);
  }

  lemma Round2(r: Regs, x: seq<Word>)
    requires EmptyBlock(x) && r == Regs(0xf56c7cf1, 0xd6819c6a, 0x5aa53f75, 0x374943a7)
    ensures Steps(r, x, 16, 32) == Regs(0x13707036, 0xa2205f1f, 0x1c31c384, 0xae7813db)
  {
    assert Steps(r, x, 16, 16) == r;
    hide Steps, EmptyBlock;
    Steps16(r, x);
    Steps20(r, x);
    Steps24(r, x);
    Steps28(r, x);
  }

  lemma Round3(r: Regs, x: seq<Word>)
    requires EmptyBlock(x) && r == Regs(0x13707036, 0xa2205f1f, 0x1c31c384, 0xae7813db)
    ensures Steps(r, x, 32, 48) == Regs(0x3f55edfd, 0xca7d2dbd, 0x68d84ea2, 0x22a31f54)
  {
    assert Steps(r, x, 32, 32) == r;
    hide Steps, EmptyBlock;
    Steps32(r, x);
    Steps36(r, x);
    Steps40(r, x);
    Steps44(r, x);
  }

  lemma Round4(r: Regs, x: seq<Word>)
    requires EmptyBlock(x) && r == Regs(0x3f55edfd, 0xca7d2dbd, 0x68d84ea2, 0x22a31f54)
    ensures Steps(r, x, 48, 64) == Regs(0x7246fad3, 0x14e45506, 0xff4ea3eb, 0x6e10a476)
  {
    assert Steps(r, x, 48, 48) == r;
    hide Steps, EmptyBlock;
    Steps48(r, x);
    Steps52(r, x);
    Steps56(r, x);
    Steps60(r, x);
  }

  lemma AllRounds(r: Regs, x: seq<Word>)
    requires EmptyBlock(x) && r == Regs(0x67452301, 0xefcdab89, 0x98badcfe, 0x10325476)
    ensures Steps(r, x, 0, 64) == Regs(0x7246fad3, 0x14e45506, 0xff4ea3eb, 0x6e10a476)
  {
    hide Steps;
    Round1(r, x);
    var r1 := Steps(r, x, 0, 16);
    Round2(r1, x);
    var r2 := Steps(r1, x, 16, 32);
    Round3(r2, x);
    Round4(Steps(r2, x, 32, 48), x);
    StepsCompose(r, x, 0, 16, 32);
    StepsCompose(r, x, 0, 32, 48);
    StepsCompose(r, x, 0, 48, 64);
  }

  lemma PaddedEmpty()
    ensures |Pad([])| == 64 && EmptyBlock(BytesToWords(Pad([])))
  {
    assert BitLength(0) == 0;
    LittleEndianStep(0, 0, 7);
    LittleEndianFour(0, 0, 0, 0, 0, 4);
    LittleEndianFour(0, 0, 0, 0, 0, 0);
    hide LittleEndian, BitLength;
    var p: seq<Byte> := Pad([]);
    assert p[0] == 0x80 && forall i :: 1 <= i < 64 ==> p[i] == 0;
  }

  lemma EmptyCompressed(b: Block)
    requires EmptyBlock(BytesToWords(b))
    ensures Compress(IV, b) == [0xd98c1dd4, 0x4b2008f, 0x980980e9, 0x7e42f8ec]
  {
    hide Steps, EmptyBlock, BytesToWords;
    AllRounds(Regs(IV[0], IV[1], IV[2], IV[3]), BytesToWords(b));
  }

  lemma DigestBytes()
    ensures LittleEndian(0xd98c1dd4, 4) == [0xd4, 0x1d, 0x8c, 0xd9]
    ensures LittleEndian(0x4b2008f, 4) == [0x8f, 0x0, 0xb2, 0x4]
    ensures LittleEndian(0x980980e9, 4) == [0xe9, 0x80, 0x9, 0x98]
    ensures LittleEndian(0x7e42f8ec, 4) == [0xec, 0xf8, 0x42, 0x7e]
  {
    LittleEndianWord(0xd98c1dd4);
    LittleEndianWord(0x4b2008f);
    LittleEndianWord(0x980980e9);
    LittleEndianWord(0x7e42f8ec);
  }

  /** MD5 ("") = d41d8cd98f00b204e9800998ecf8427e. */
  lemma EmptyDigest()
    ensures Digest([]) == [0xd4, 0x1d, 0x8c, 0xd9, 0x8f, 0x0, 0xb2, 0x4,
                           0xe9, 0x80, 0x9, 0x98, 0xec, 0xf8, 0x42, 0x7e]
  {
    hide Compress, Absorb, Pad, EmptyBlock, WordsToBytes, LittleEndian;
    PaddedEmpty();
    EmptyCompressed(Pad([]));
    AbsorbOne(Compress, IV, Pad([]));
    BytesOfFour(0xd98c1dd4, 0x4b2008f, 0x980980e9, 0x7e42f8ec);
    DigestBytes();
  }
}
