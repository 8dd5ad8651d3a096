/**
 * MD5Transform (common/md5.cpp:191-281): the 64 unrolled macro calls compute the four rounds of
 * section 3.4 of RFC 1321.
 */
module Md5Transform {
  import opened Common
  import opened Md5Words

  // ---- The calls ---------------------------------------------------------------------------------------

  function FF(a: Word, b: Word, c: Word, d: Word, x: Word, s: bv32, ac: Word): Word
    requires 0 < s < 32
  {
    Add(RotateLeft(Add(a, Add(Add(F(b, c, d), x), ac)), s), b)
  }

  function GG(a: Word, b: Word, c: Word, d: Word, x: Word, s: bv32, ac: Word): Word
    requires 0 < s < 32
  {
    Add(RotateLeft(Add(a, Add(Add(G(b, c, d), x), ac)), s), b)
  }

  function HH(a: Word, b: Word, c: Word, d: Word, x: Word, s: bv32, ac: Word): Word
    requires 0 < s < 32
  {
    Add(RotateLeft(Add(a, Add(Add(H(b, c, d), x), ac)), s), b)
  }

  function II(a: Word, b: Word, c: Word, d: Word, x: Word, s: bv32, ac: Word): Word
    requires 0 < s < 32
  {
    Add(RotateLeft(Add(a, Add(Add(I(b, c, d), x), ac)), s), b)
  }

  const S11: bv32 := 7  const S12: bv32 := 12  const S13: bv32 := 17  const S14: bv32 := 22
  const S21: bv32 := 5  const S22: bv32 := 9   const S23: bv32 := 14  const S24: bv32 := 20
  const S31: bv32 := 4  const S32: bv32 := 11  const S33: bv32 := 16  const S34: bv32 := 23
  const S41: bv32 := 6  const S42: bv32 := 10  const S43: bv32 := 15  const S44: bv32 := 21

  // ---- The loop form of section 3.4 --------------------------------------------------------------------

  datatype Regs = Regs(a: Word, b: Word, c: Word, d: Word)

  /** T[i + 1], the integer part of 2^32 * abs(sin(i + 1)). */
  function T(i: nat): Word
    requires i < 64
  {
    if i < 16 then T1(i) else if i < 32 then T2(i - 16) else if i < 48 then T3(i - 32) else T4(i - 48)
  }

  function T1(i: nat): Word {
    match i
    case 0 => 0xd76aa478 case 1 => 0xe8c7b756 case 2 => 0x242070db case 3 => 0xc1bdceee
    case 4 => 0xf57c0faf case 5 => 0x4787c62a case 6 => 0xa8304613 case 7 => 0xfd469501
    case 8 => 0x698098d8 case 9 => 0x8b44f7af case 10 => 0xffff5bb1 case 11 => 0x895cd7be
    case 12 => 0x6b901122 case 13 => 0xfd987193 case 14 => 0xa679438e case _ => 0x49b40821
  }

  function T2(i: nat): Word {
    match i
    case 0 => 0xf61e2562 case 1 => 0xc040b340 case 2 => 0x265e5a51 case 3 => 0xe9b6c7aa
    case 4 => 0xd62f105d case 5 => 0x2441453 case 6 => 0xd8a1e681 case 7 => 0xe7d3fbc8
    case 8 => 0x21e1cde6 case 9 => 0xc33707d6 case 10 => 0xf4d50d87 case 11 => 0x455a14ed
    case 12 => 0xa9e3e905 case 13 => 0xfcefa3f8 case 14 => 0x676f02d9 case _ => 0x8d2a4c8a
  }

  function T3(i: nat): Word {
    match i
    case 0 => 0xfffa3942 case 1 => 0x8771f681 case 2 => 0x6d9d6122 case 3 => 0xfde5380c
    case 4 => 0xa4beea44 case 5 => 0x4bdecfa9 case 6 => 0xf6bb4b60 case 7 => 0xbebfbc70
    case 8 => 0x289b7ec6 case 9 => 0xeaa127fa case 10 => 0xd4ef3085 case 11 => 0x4881d05
    case 12 => 0xd9d4d039 case 13 => 0xe6db99e5 case 14 => 0x1fa27cf8 case _ => 0xc4ac5665
  }

  function T4(i: nat): Word {
    match i
    case 0 => 0xf4292244 case 1 => 0x432aff97 case 2 => 0xab9423a7 case 3 => 0xfc93a039
    case 4 => 0x655b59c3 case 5 => 0x8f0ccc92 case 6 => 0xffeff47d case 7 => 0x85845dd1
    case 8 => 0x6fa87e4f case 9 => 0xfe2ce6e0 case 10 => 0xa3014314 case 11 => 0x4e0811a1
    case 12 => 0xf7537e82 case 13 => 0xbd3af235 case 14 => 0x2ad7d2bb case _ => 0xeb86d391
  }

  /** Which word of the block step i uses. */
  function K(i: nat): (k: nat)
    requires i < 64
    ensures k < 16
  {
    if i < 16 then i % 16
    else if i < 32 then (1 + 5 * i) % 16
    else if i < 48 then (5 + 3 * i) % 16
    else 7 * i % 16
  }

  /** How far step i rotates. */
  function Shift(i: nat): (s: bv32)
    requires i < 64
    ensures 0 < s < 32
  {
    var col := i % 4;
    if i < 16 then if col == 0 then 7 else if col == 1 then 12 else if col == 2 then 17 else 22
    else if i < 32 then if col == 0 then 5 else if col == 1 then 9 else if col == 2 then 14 else 20
    else if i < 48 then if col == 0 then 4 else if col == 1 then 11 else if col == 2 then 16 else 23
    else if col == 0 then 6 else if col == 1 then 10 else if col == 2 then 15 else 21
  }

  /** The table of shift amounts, a row for each round. */
  lemma ShiftAmounts(i: nat)
    requires i < 64
    ensures i < 16 ==> Shift(i) == [7, 12, 17, 22][i % 4] == [S11, S12, S13, S14][i % 4]
    ensures 16 <= i < 32 ==> Shift(i) == [5, 9, 14, 20][i % 4] == [S21, S22, S23, S24][i % 4]
    ensures 32 <= i < 48 ==> Shift(i) == [4, 11, 16, 23][i % 4] == [S31, S32, S33, S34][i % 4]
    ensures 48 <= i ==> Shift(i) == [6, 10, 15, 21][i % 4] == [S41, S42, S43, S44][i % 4]
  {
  }

  /** The round function and addition of step i: a = b + ((a + f(b,c,d) + X[k] + T[i]) <<< s). */
  function Mix(i: nat, r: Regs, x: Word): Word
    requires i < 64
  {
    if i < 16 then FF(r.a, r.b, r.c, r.d, x, Shift(i), T(i))
    else if i < 32 then GG(r.a, r.b, r.c, r.d, x, Shift(i), T(i))
    else if i < 48 then HH(r.a, r.b, r.c, r.d, x, Shift(i), T(i))
    else II(r.a, r.b, r.c, r.d, x, Shift(i), T(i))
  }

  /** One step, after which the registers change roles: ABCD, DABC, CDAB, BCDA, ABCD, ... */
  function Step(r: Regs, x: seq<Word>, i: nat): Regs
    requires |x| == 16 && i < 64
  {
    Regs(r.d, Mix(i, r, x[K(i)]), r.b, r.c)
  }

  /** Steps i, ..., j - 1. */
  function Steps(r: Regs, x: seq<Word>, i: nat, j: nat): Regs
    requires |x| == 16 && i <= j <= 64
    decreases j
  {
    if i == j then r else Step(Steps(r, x, i, j - 1), x, j - 1)
  }

  /** Four steps bring every register back to its own role. */
  lemma FourSteps(r: Regs, x: seq<Word>, i: nat, j: nat)
    requires |x| == 16 && i <= j <= 60
    ensures var Regs(a, b, c, d) := Steps(r, x, i, j);
            var a1 := Mix(j, Regs(a, b, c, d), x[K(j)]);
            var d1 := Mix(j + 1, Regs(d, a1, b, c), x[K(j + 1)]);
            var c1 := Mix(j + 2, Regs(c, d1, a1, b), x[K(j + 2)]);
            var b1 := Mix(j + 3, Regs(b, c1, d1, a1), x[K(j + 3)]);
            Steps(r, x, i, j + 4) == Regs(a1, b1, c1, d1)
  {
    hide Mix, K;
    var r1 := Steps(r, x, i, j + 1);
    var r2 := Steps(r, x, i, j + 2);
    var r3 := Steps(r, x, i, j + 3);
    assert r1 == Step(Steps(r, x, i, j), x, j);
    assert r2 == Step(r1, x, j + 1);
    assert r3 == Step(r2, x, j + 2);
    assert Steps(r, x, i, j + 4) == Step(r3, x, j + 3);
  }

  // The words and constants each round uses.

  lemma ScheduleOfRoundOne()
    ensures K(0) == 0 && K(1) == 1 && K(2) == 2 && K(3) == 3
    ensures K(4) == 4 && K(5) == 5 && K(6) == 6 && K(7) == 7
    ensures K(8) == 8 && K(9) == 9 && K(10) == 10 && K(11) == 11
    ensures K(12) == 12 && K(13) == 13 && K(14) == 14 && K(15) == 15
    ensures T(0) == 0xd76aa478 && T(1) == 0xe8c7b756 && T(2) == 0x242070db && T(3) == 0xc1bdceee
    ensures T(4) == 0xf57c0faf && T(5) == 0x4787c62a && T(6) == 0xa8304613 && T(7) == 0xfd469501
    ensures T(8) == 0x698098d8 && T(9) == 0x8b44f7af && T(10) == 0xffff5bb1 && T(11) == 0x895cd7be
    ensures T(12) == 0x6b901122 && T(13) == 0xfd987193 && T(14) == 0xa679438e && T(15) == 0x49b40821
  {
  }

  lemma ScheduleOfRoundTwo()
    ensures K(16) == 1 && K(17) == 6 && K(18) == 11 && K(19) == 0
    ensures K(20) == 5 && K(21) == 10 && K(22) == 15 && K(23) == 4
    ensures K(24) == 9 && K(25) == 14 && K(26) == 3 && K(27) == 8
    ensures K(28) == 13 && K(29) == 2 && K(30) == 7 && K(31) == 12
    ensures T(16) == 0xf61e2562 && T(17) == 0xc040b340 && T(18) == 0x265e5a51 && T(19) == 0xe9b6c7aa
    ensures T(20) == 0xd62f105d && T(21) == 0x2441453 && T(22) == 0xd8a1e681 && T(23) == 0xe7d3fbc8
    ensures T(24) == 0x21e1cde6 && T(25) == 0xc33707d6 && T(26) == 0xf4d50d87 && T(27) == 0x455a14ed
    ensures T(28) == 0xa9e3e905 && T(29) == 0xfcefa3f8 && T(30) == 0x676f02d9 && T(31) == 0x8d2a4c8a
  {
  }

  lemma ScheduleOfRoundThree()
    ensures K(32) == 5 && K(33) == 8 && K(34) == 11 && K(35) == 14
    ensures K(36) == 1 && K(37) == 4 && K(38) == 7 && K(39) == 10
    ensures K(40) == 13 && K(41) == 0 && K(42) == 3 && K(43) == 6
    ensures K(44) == 9 && K(45) == 12 && K(46) == 15 && K(47) == 2
    ensures T(32) == 0xfffa3942 && T(33) == 0x8771f681 && T(34) == 0x6d9d6122 && T(35) == 0xfde5380c
    ensures T(36) == 0xa4beea44 && T(37) == 0x4bdecfa9 && T(38) == 0xf6bb4b60 && T(39) == 0xbebfbc70
    ensures T(40) == 0x289b7ec6 && T(41) == 0xeaa127fa && T(42) == 0xd4ef3085 && T(43) == 0x4881d05
    ensures T(44) == 0xd9d4d039 && T(45) == 0xe6db99e5 && T(46) == 0x1fa27cf8 && T(47) == 0xc4ac5665
  {
  }

  lemma ScheduleOfRoundFour()
    ensures K(48) == 0 && K(49) == 7 && K(50) == 14 && K(51) == 5
    ensures K(52) == 12 && K(53) == 3 && K(54) == 10 && K(55) == 1
    ensures K(56) == 8 && K(57) == 15 && K(58) == 6 && K(59) == 13
    ensures K(60) == 4 && K(61) == 11 && K(62) == 2 && K(63) == 9
    ensures T(48) == 0xf4292244 && T(49) == 0x432aff97 && T(50) == 0xab9423a7 && T(51) == 0xfc93a039
    ensures T(52) == 0x655b59c3 && T(53) == 0x8f0ccc92 && T(54) == 0xffeff47d && T(55) == 0x85845dd1
    ensures T(56) == 0x6fa87e4f && T(57) == 0xfe2ce6e0 && T(58) == 0xa3014314 && T(59) == 0x4e0811a1
    ensures T(60) == 0xf7537e82 && T(61) == 0xbd3af235 && T(62) == 0x2ad7d2bb && T(63) == 0xeb86d391
  {
  }

  lemma FourOfRoundOne(r: Regs, x: seq<Word>, j: nat)
    requires |x| == 16 && 0 <= j <= 12 && j % 4 == 0
    ensures var Regs(a, b, c, d) := Steps(r, x, 0, j);
            var a1 := FF(a, b, c, d, x[K(j)], S11, T(j));
            var d1 := FF(d, a1, b, c, x[K(j + 1)], S12, T(j + 1));
            var c1 := FF(c, d1, a1, b, x[K(j + 2)], S13, T(j + 2));
            var b1 := FF(b, c1, d1, a1, x[K(j + 3)], S14, T(j + 3));
            Steps(r, x, 0, j + 4) == Regs(a1, b1, c1, d1)
  {
    hide FF, GG, HH, II, K, T, Steps;
    FourSteps(r, x, 0, j);
  }

  lemma FourOfRoundTwo(r: Regs, x: seq<Word>, j: nat)
    requires |x| == 16 && 16 <= j <= 28 && j % 4 == 0
    ensures var Regs(a, b, c, d) := Steps(r, x, 16, j);
            var a1 := GG(a, b, c, d, x[K(j)], S21, T(j));
            var d1 := GG(d, a1, b, c, x[K(j + 1)], S22, T(j + 1));
            var c1 := GG(c, d1, a1, b, x[K(j + 2)], S23, T(j + 2));
            var b1 := GG(b, c1, d1, a1, x[K(j + 3)], S24, T(j + 3));
            Steps(r, x, 16, j + 4) == Regs(a1, b1, c1, d1)
  {
    hide FF, GG, HH, II, K, T, Steps;
    FourSteps(r, x, 16, j);
  }

  lemma FourOfRoundThree(r: Regs, x: seq<Word>, j: nat)
    requires |x| == 16 && 32 <= j <= 44 && j % 4 == 0
    ensures var Regs(a, b, c, d) := Steps(r, x, 32, j);
            var a1 := HH(a, b, c, d, x[K(j)], S31, T(j));
            var d1 := HH(d, a1, b, c, x[K(j + 1)], S32, T(j + 1));
            var c1 := HH(c, d1, a1, b, x[K(j + 2)], S33, T(j + 2));
            var b1 := HH(b, c1, d1, a1, x[K(j + 3)], S34, T(j + 3));
            Steps(r, x, 32, j + 4) == Regs(a1, b1, c1, d1)
  {
    hide FF, GG, HH, II, K, T, Steps;
    FourSteps(r, x, 32, j);
  }

  lemma FourOfRoundFour(r: Regs, x: seq<Word>, j: nat)
    requires |x| == 16 && 48 <= j <= 60 && j % 4 == 0
    ensures var Regs(a, b, c, d) := Steps(r, x, 48, j);
            var a1 := II(a, b, c, d, x[K(j)], S41, T(j));
            var d1 := II(d, a1, b, c, x[K(j + 1)], S42, T(j + 1));
            var c1 := II(c, d1, a1, b, x[K(j + 2)], S43, T(j + 2));
            var b1 := II(b, c1, d1, a1, x[K(j + 3)], S44, T(j + 3));
            Steps(r, x, 48, j + 4) == Regs(a1, b1, c1, d1)
  {
    hide FF, GG, HH, II, K, T, Steps;
    FourSteps(r, x, 48, j);
  }

  /** Round 1, as the code spells it out. */
  method RoundOne(s: Regs, x: seq<Word>) returns (r: Regs)
    requires |x| == 16
    ensures r == Steps(s, x, 0, 16)
  {
    ScheduleOfRoundOne();
    assert Steps(s, x, 0, 0) == s;
    hide *;
    var a, b, c, d := s.a, s.b, s.c, s.d;
    a := FF(a, b, c, d, x[0], S11, 0xd76aa478);
    d := FF(d, a, b, c, x[1], S12, 0xe8c7b756);
    c := FF(c, d, a, b, x[2], S13, 0x242070db);
    b := FF(b, c, d, a, x[3], S14, 0xc1bdceee);
    FourOfRoundOne(s, x, 0);
    a := FF(a, b, c, d, x[4], S11, 0xf57c0faf);
    d := FF(d, a, b, c, x[5], S12, 0x4787c62a);
    c := FF(c, d, a, b, x[6], S13, 0xa8304613);
    b := FF(b, c, d, a, x[7], S14, 0xfd469501);
    FourOfRoundOne(s, x, 4);
    a := FF(a, b, c, d, x[8], S11, 0x698098d8);
    d := FF(d, a, b, c, x[9], S12, 0x8b44f7af);
    c := FF(c, d, a, b, x[10], S13, 0xffff5bb1);
    b := FF(b, c, d, a, x[11], S14, 0x895cd7be);
    FourOfRoundOne(s, x, 8);
    a := FF(a, b, c, d, x[12], S11, 0x6b901122);
    d := FF(d, a, b, c, x[13], S12, 0xfd987193);
    c := FF(c, d, a, b, x[14], S13, 0xa679438e);
    b := FF(b, c, d, a, x[15], S14, 0x49b40821);
    FourOfRoundOne(s, x, 12);
    r := Regs(a, b, c, d);
  }

  /** Round 2, as the code spells it out. */
  method RoundTwo(s: Regs, x: seq<Word>) returns (r: Regs)
    requires |x| == 16
    ensures r == Steps(s, x, 16, 32)
  {
    ScheduleOfRoundTwo();
    assert Steps(s, x, 16, 16) == s;
    hide *;
    var a, b, c, d := s.a, s.b, s.c, s.d;
    a := GG(a, b, c, d, x[1], S21, 0xf61e2562);
    d := GG(d, a, b, c, x[6], S22, 0xc040b340);
    c := GG(c, d, a, b, x[11], S23, 0x265e5a51);
    b := GG(b, c, d, a, x[0], S24, 0xe9b6c7aa);
    FourOfRoundTwo(s, x, 16);
    a := GG(a, b, c, d, x[5], S21, 0xd62f105d);
    d := GG(d, a, b, c, x[10], S22, 0x2441453);
    c := GG(c, d, a, b, x[15], S23, 0xd8a1e681);
    b := GG(b, c, d, a, x[4], S24, 0xe7d3fbc8);
    FourOfRoundTwo(s, x, 20);
    a := GG(a, b, c, d, x[9], S21, 0x21e1cde6);
    d := GG(d, a, b, c, x[14], S22, 0xc33707d6);
    c := GG(c, d, a, b, x[3], S23, 0xf4d50d87);
    b := GG(b, c, d, a, x[8], S24, 0x455a14ed);
    FourOfRoundTwo(s, x, 24);
    a := GG(a, b, c, d, x[13], S21, 0xa9e3e905);
    d := GG(d, a, b, c, x[2], S22, 0xfcefa3f8);
    c := GG(c, d, a, b, x[7], S23, 0x676f02d9);
    b := GG(b, c, d, a, x[12], S24, 0x8d2a4c8a);
    FourOfRoundTwo(s, x, 28);
    r := Regs(a, b, c, d);
  }

  /** Round 3, as the code spells it out. */
  method RoundThree(s: Regs, x: seq<Word>) returns (r: Regs)
    requires |x| == 16
    ensures r == Steps(s, x, 32, 48)
  {
    ScheduleOfRoundThree();
    assert Steps(s, x, 32, 32) == s;
    hide *;
    var a, b, c, d := s.a, s.b, s.c, s.d;
    a := HH(a, b, c, d, x[5], S31, 0xfffa3942);
    d := HH(d, a, b, c, x[8], S32, 0x8771f681);
    c := HH(c, d, a, b, x[11], S33, 0x6d9d6122);
    b := HH(b, c, d, a, x[14], S34, 0xfde5380c);
    FourOfRoundThree(s, x, 32);
    a := HH(a, b, c, d, x[1], S31, 0xa4beea44);
    d := HH(d, a, b, c, x[4], S32, 0x4bdecfa9);
    c := HH(c, d, a, b, x[7], S33, 0xf6bb4b60);
    b := HH(b, c, d, a, x[10], S34, 0xbebfbc70);
    FourOfRoundThree(s, x, 36);
    a := HH(a, b, c, d, x[13], S31, 0x289b7ec6);
    d := HH(d, a, b, c, x[0], S32, 0xeaa127fa);
    c := HH(c, d, a, b, x[3], S33, 0xd4ef3085);
    b := HH(b, c, d, a, x[6], S34, 0x4881d05);
    FourOfRoundThree(s, x, 40);
    a := HH(a, b, c, d, x[9], S31, 0xd9d4d039);
    d := HH(d, a, b, c, x[12], S32, 0xe6db99e5);
    c := HH(c, d, a, b, x[15], S33, 0x1fa27cf8);
    b := HH(b, c, d, a, x[2], S34, 0xc4ac5665);
    FourOfRoundThree(s, x, 44);
    r := Regs(a, b, c, d);
  }

  /** Round 4, as the code spells it out. */
  method RoundFour(s: Regs, x: seq<Word>) returns (r: Regs)
    requires |x| == 16
    ensures r == Steps(s, x, 48, 64)
  {
    ScheduleOfRoundFour();
    assert Steps(s, x, 48, 48) == s;
    hide *;
    var a, b, c, d := s.a, s.b, s.c, s.d;
    a := II(a, b, c, d, x[0], S41, 0xf4292244);
    d := II(d, a, b, c, x[7], S42, 0x432aff97);
    c := II(c, d, a, b, x[14], S43, 0xab9423a7);
    b := II(b, c, d, a, x[5], S44, 0xfc93a039);
    FourOfRoundFour(s, x, 48);
    a := II(a, b, c, d, x[12], S41, 0x655b59c3);
    d := II(d, a, b, c, x[3], S42, 0x8f0ccc92);
    c := II(c, d, a, b, x[10], S43, 0xffeff47d);
    b := II(b, c, d, a, x[1], S44, 0x85845dd1);
    FourOfRoundFour(s, x, 52);
    a := II(a, b, c, d, x[8], S41, 0x6fa87e4f);
    d := II(d, a, b, c, x[15], S42, 0xfe2ce6e0);
    c := II(c, d, a, b, x[6], S43, 0xa3014314);
    b := II(b, c, d, a, x[13], S44, 0x4e0811a1);
    FourOfRoundFour(s, x, 56);
    a := II(a, b, c, d, x[4], S41, 0xf7537e82);
    d := II(d, a, b, c, x[11], S42, 0xbd3af235);
    c := II(c, d, a, b, x[2], S43, 0x2ad7d2bb);
    b := II(b, c, d, a, x[9], S44, 0xeb86d391);
    FourOfRoundFour(s, x, 60);
    r := Regs(a, b, c, d);
  }

  // ---- Words and bytes -------------------------------------------------------------------------------------

  /** The low n bytes of v, least significant first. */
  function LittleEndian(v: nat, n: nat): (r: seq<Byte>)
    ensures |r| == n
  {
    if n == 0 then [] else [v % 0x100] + LittleEndian(v / 0x100, n - 1)
  }

  function FromBytes(s: seq<Byte>): (v: nat) {
    if s == [] then 0 else s[0] + 0x100 * FromBytes(s[1..])
  }

  lemma {:induction false} FromLittleEndian(v: nat, n: nat)
    requires v < Pow256(n)
    ensures FromBytes(LittleEndian(v, n)) == v
  {
    if n > 0 {
      assert v / 0x100 < Pow256(n - 1);
      FromLittleEndian(v / 0x100, n - 1);
      assert LittleEndian(v, n)[1..] == LittleEndian(v / 0x100, n - 1);
    }
  }

  function Pow256(n: nat): nat {
    if n == 0 then 1 else 0x100 * Pow256(n - 1)
  }

  function Join(b0: Byte, b1: Byte, b2: Byte, b3: Byte): Word {
    (b0 as int) + (b1 as int) * 0x100 + (b2 as int) * 0x1_0000 + (b3 as int) * 0x100_0000
  }

  /** Word i of a byte string, least significant byte first. */
  function WordAt(s: seq<Byte>, i: nat): Word
    requires 4 * i + 4 <= |s|
  {
    Join(s[4 * i], s[4 * i + 1], s[4 * i + 2], s[4 * i + 3])
  }

  function WordsToBytes(w: seq<Word>): (r: seq<Byte>)
    ensures |r| == 4 * |w|
  {
    if w == [] then [] else WordsToBytes(w[..|w| - 1]) + LittleEndian(w[|w| - 1], 4)
  }

  function BytesToWords(s: seq<Byte>): (r: seq<Word>)
    requires |s| % 4 == 0
    ensures |r| == |s| / 4
  {
    seq(|s| / 4, i requires 0 <= i < |s| / 4 => WordAt(s, i))
  }

  /** The bytes of a word, by repeated division and by division with the powers of 256. */
  lemma BytesOfWord(v: Word, q1: nat, q2: nat, q3: nat)
    requires q1 == v / 0x100 && q2 == q1 / 0x100 && q3 == q2 / 0x100
    ensures v / 0x1_0000 == q2 && v / 0x100_0000 == q3 && q3 < 0x100 && q3 % 0x100 == q3
    ensures v == v % 0x100 + 0x100 * (q1 % 0x100) + 0x1_0000 * (q2 % 0x100) + 0x100_0000 * q3
  {
    var r0, r1, r2 := v % 0x100, q1 % 0x100, q2 % 0x100;
    assert v == 0x100 * q1 + r0 && q1 == 0x100 * q2 + r1 && q2 == 0x100 * q3 + r2;
    DivModUnique(v, 0x1_0000, q2, 0x100 * r1 + r0);
    DivModUnique(v, 0x100_0000, q3, 0x1_0000 * r2 + 0x100 * r1 + r0);
    DivModUnique(q3, 0x100, 0, q3);
  }

  lemma LittleEndianFourBytes(v: nat, q1: nat, q2: nat, q3: nat)
    requires q1 == v / 0x100 && q2 == q1 / 0x100 && q3 == q2 / 0x100
    ensures LittleEndian(v, 4) == [v % 0x100, q1 % 0x100, q2 % 0x100, q3 % 0x100]
  {
    assert LittleEndian(q3, 1) == [q3 % 0x100];
    assert LittleEndian(q2, 2) == [q2 % 0x100] + LittleEndian(q3, 1);
    assert LittleEndian(q1, 3) == [q1 % 0x100] + LittleEndian(q2, 2);
  }

  lemma LittleEndianWord(v: Word)
    ensures LittleEndian(v, 4) == [v % 0x100, v / 0x100 % 0x100, v / 0x1_0000 % 0x100, v / 0x100_0000 % 0x100]
  {
    hide LittleEndian;
    var q1 := v / 0x100;
    var q2 := q1 / 0x100;
    LittleEndianFourBytes(v, q1, q2, q2 / 0x100);
    BytesOfWord(v, q1, q2, q2 / 0x100);
  }

  lemma BytesOfFour(a: Word, b: Word, c: Word, d: Word)
    ensures WordsToBytes([a, b, c, d])
         == LittleEndian(a, 4) + LittleEndian(b, 4) + LittleEndian(c, 4) + LittleEndian(d, 4)
  {
    hide LittleEndian;
    assert [a, b, c, d][..3] == [a, b, c] && [a, b, c][..2] == [a, b] && [a, b][..1] == [a] && [a][..0] == [];
    assert WordsToBytes([a]) == LittleEndian(a, 4);
    assert WordsToBytes([a, b]) == WordsToBytes([a]) + LittleEndian(b, 4);
    assert WordsToBytes([a, b, c]) == WordsToBytes([a, b]) + LittleEndian(c, 4);
  }

  /** Decode undoes Encode. */
  lemma {:induction false} DecodeEncode(w: seq<Word>)
    ensures BytesToWords(WordsToBytes(w)) == w
  {
    forall i | 0 <= i < |w| ensures WordAt(WordsToBytes(w), i) == w[i] {
      DecodeEncodeAt(w, i);
    }
  }

  lemma {:induction false} DecodeEncodeAt(w: seq<Word>, i: nat)
    requires i < |w|
    ensures WordAt(WordsToBytes(w), i) == w[i]
  {
    hide LittleEndian, Join;
    var n := |w| - 1;
    var s0, last := WordsToBytes(w[..n]), LittleEndian(w[n], 4);
    assert WordsToBytes(w) == s0 + last;
    if i < n {
      DecodeEncodeAt(w[..n], i);
    } else {
      LittleEndianWord(w[n]);
      assert forall k :: 0 <= k < 4 ==> WordsToBytes(w)[4 * n + k] == last[k];
      JoinSplit(w[n]);
    }
  }

  lemma JoinSplit(v: Word)
    ensures Join(v % 0x100, v / 0x100 % 0x100, v / 0x1_0000 % 0x100, v / 0x100_0000 % 0x100) == v
  {
    var q1 := v / 0x100;
    var q2 := q1 / 0x100;
    BytesOfWord(v, q1, q2, q2 / 0x100);
  }

  method Encode(output: array<Byte>, input: seq<Word>, len: nat)
    requires len == 4 * |input| && len <= output.Length
    modifies output
    ensures output[..len] == WordsToBytes(input) && output[len..] == old(output[len..])
  {
    var i, j := 0, 0;
    while j < len
      invariant j == 4 * i <= len
      invariant output[..j] == WordsToBytes(input[..i]) && output[len..] == old(output[len..])
    {
      output[j] := input[i] % 0x100;
      output[j + 1] := input[i] / 0x100 % 0x100;
      output[j + 2] := input[i] / 0x1_0000 % 0x100;
      output[j + 3] := input[i] / 0x100_0000 % 0x100;
      LittleEndianWord(input[i]);
      assert input[..i + 1][..i] == input[..i];
      i, j := i + 1, j + 4;
    }
    assert input[..i] == input;
  }

  method Decode(input: seq<Byte>) returns (output: seq<Word>)
    requires |input| % 4 == 0
    ensures output == BytesToWords(input)
  {
    hide Join;
    output := [];
    var j := 0;
    while j < |input|
      invariant j == 4 * |output| <= |input|
      invariant forall i :: 0 <= i < |output| ==> output[i] == WordAt(input, i)
    {
      output := output + [Join(input[j], input[j + 1], input[j + 2], input[j + 3])];
      j := j + 4;
    }
  }

  // ---- The compression function ---------------------------------------------------------------------------------

  type Chain = s: seq<Word> | |s| == 4 witness [0, 0, 0, 0]
  type Block = s: seq<Byte> | |s| == 64 witness LittleEndian(0, 64)

  /** One block of section 3.4: 64 steps, then the old registers are added back. */
  function Compress(st: Chain, block: Block): Chain {
    hide Steps;
    var x := BytesToWords(block);
    var r := Steps(Regs(st[0], st[1], st[2], st[3]), x, 0, 4 * |x|);
    [Add(st[0], r.a), Add(st[1], r.b), Add(st[2], r.c), Add(st[3], r.d)]
  }

  lemma {:induction false} StepsCompose(r: Regs, x: seq<Word>, i: nat, j: nat, k: nat)
    requires |x| == 16 && i <= j <= k <= 64
    ensures Steps(Steps(r, x, i, j), x, j, k) == Steps(r, x, i, k)
    decreases k
  {
    hide Step;
    if j < k { StepsCompose(r, x, i, j, k - 1); }
  }

  method Transform(state: array<Word>, block: seq<Byte>)
    requires state.Length == 4 && |block| == 64
    modifies state
    ensures state[..] == Compress(old(state[..]), block)
  {
    hide Step;
    var x := Decode(block);
    var s := Regs(state[0], state[1], state[2], state[3]);
    var r := RoundOne(s, x);
    r := RoundTwo(r, x);
    StepsCompose(s, x, 0, 16, 32);
    r := RoundThree(r, x);
    StepsCompose(s, x, 0, 32, 48);
    r := RoundFour(r, x);
    StepsCompose(s, x, 0, 48, 64);
    state[0] := Add(state[0], r.a);
    state[1] := Add(state[1], r.b);
    state[2] := Add(state[2], r.c);
    state[3] := Add(state[3], r.d);
  }
}
