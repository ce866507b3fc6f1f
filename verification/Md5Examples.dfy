/** Digests that section A.5 of RFC 1321 prints, step by step. They tie down the definition itself: every
    constant, shift and table of it is used. */
module Md5Examples {
  import opened CBytes
  import opened Md5Rfc
  import opened Md5Compression

  // ---- steps on literal words ----

  function R(a: bv32, b: bv32, c: bv32, d: bv32): Regs {
    Regs(Word(a), Word(b), Word(c), Word(d))
  }

  function Mixed(i: nat, x: bv32, y: bv32, z: bv32): bv32 {
    if i < 16 then F(x, y, z) else if i < 32 then G(x, y, z) else if i < 48 then H(x, y, z) else I(x, y, z)
  }

  lemma BitsOfWord(b: bv32)
    ensures Bits(Word(b)) == b
  {
  }

  function Turned(i: nat, u: bv32): bv32 {
    var column := i % 4;
    if i < 16 then
      if column == 0 then u.RotateLeft(7) else if column == 1 then u.RotateLeft(12)
      else if column == 2 then u.RotateLeft(17) else u.RotateLeft(22)
    else if i < 32 then
      if column == 0 then u.RotateLeft(5) else if column == 1 then u.RotateLeft(9)
      else if column == 2 then u.RotateLeft(14) else u.RotateLeft(20)
    else if i < 48 then
      if column == 0 then u.RotateLeft(4) else if column == 1 then u.RotateLeft(11)
      else if column == 2 then u.RotateLeft(16) else u.RotateLeft(23)
    else
      if column == 0 then u.RotateLeft(6) else if column == 1 then u.RotateLeft(10)
      else if column == 2 then u.RotateLeft(15) else u.RotateLeft(21)
  }

  lemma TurnedIs(i: nat, u: bv32)
    requires i < 64
    ensures Turned(i, u) == Rotated(u, Shift(i))
  {
    hide Rotated;
    RotatedIsRotation(u);
  }

  lemma MixIs(i: nat, b: bv32, c: bv32, d: bv32)
    ensures Mix(i, Word(b), Word(c), Word(d)) == Word(Mixed(i, b, c, d))
  {
    hide Word, Bits, F, G, H, I;
    BitsOfWord(b);
    BitsOfWord(c);
    BitsOfWord(d);
  }

  lemma RotateIs(i: nat, u: bv32)
    requires i < 64
    ensures RotateLeft(Word(u), Shift(i)) == Word(Turned(i, u))
  {
    hide Word, Bits, Rotated, Turned, Shift;
    BitsOfWord(u);
    TurnedIs(i, u);
    ShiftIsSmall(i);
  }

  lemma ShiftIsSmall(i: nat)
    ensures Shift(i) < 32
  {
  }

  lemma StepTo(i: nat, r: Regs, x: seq<u32>, a: bv32, b: bv32, c: bv32, d: bv32, sum: bv32, e: bv32)
    requires i < 64 && |x| == 16 && Steps(r, x, i) == R(a, b, c, d)
    requires Word(sum) == (Word(a) + Word(Mixed(i, b, c, d)) + x[WordIndex(i)] + Sine(i)) % WORD
    requires Word(e) == (Word(b) + Word(Turned(i, sum))) % WORD
    ensures Steps(r, x, i + 1) == R(d, e, b, c)
  {
    hide Word, Bits, Mix, Mixed, RotateLeft, Turned, Sine, Shift;
    MixIs(i, b, c, d);
    RotateIs(i, sum);
  }

  function Sum(r: Regs, s: Regs): Regs {
    Regs(Plus(r.a, s.a), Plus(r.b, s.b), Plus(r.c, s.c), Plus(r.d, s.d))
  }

  lemma CompressIsSum(r: Regs, x: seq<u32>)
    requires |x| == 16
    ensures Compress(r, x) == Sum(r, Steps(r, x, 64))
  {
    hide Steps, Plus;
    CompressIs(r, x);
  }

  function Octets(values: seq<int>): bytes
    requires forall i :: 0 <= i < |values| ==> 0 <= values[i] < 256
  {
    seq(|values|, i requires 0 <= i < |values| => values[i] as char)
  }

  // ---- the tables, row by row ----

  lemma Tables0()
    ensures Sine(0) == 0xd76aa478 && Sine(1) == 0xe8c7b756 && Sine(2) == 0x242070db && Sine(3) == 0xc1bdceee
    ensures Sine(4) == 0xf57c0faf && Sine(5) == 0x4787c62a && Sine(6) == 0xa8304613 && Sine(7) == 0xfd469501
    ensures WordIndex(0) == 0 && WordIndex(1) == 1 && WordIndex(2) == 2 && WordIndex(3) == 3
    ensures WordIndex(4) == 4 && WordIndex(5) == 5 && WordIndex(6) == 6 && WordIndex(7) == 7
  {
  }

  lemma Tables8()
    ensures Sine(8) == 0x698098d8 && Sine(9) == 0x8b44f7af && Sine(10) == 0xffff5bb1 && Sine(11) == 0x895cd7be
    ensures Sine(12) == 0x6b901122 && Sine(13) == 0xfd987193 && Sine(14) == 0xa679438e && Sine(15) == 0x49b40821
    ensures WordIndex(8) == 8 && WordIndex(9) == 9 && WordIndex(10) == 10 && WordIndex(11) == 11
    ensures WordIndex(12) == 12 && WordIndex(13) == 13 && WordIndex(14) == 14 && WordIndex(15) == 15
  {
  }

  lemma Tables16()
    ensures Sine(16) == 0xf61e2562 && Sine(17) == 0xc040b340 && Sine(18) == 0x265e5a51 && Sine(19) == 0xe9b6c7aa
    ensures Sine(20) == 0xd62f105d && Sine(21) == 0x02441453 && Sine(22) == 0xd8a1e681 && Sine(23) == 0xe7d3fbc8
    ensures WordIndex(16) == 1 && WordIndex(17) == 6 && WordIndex(18) == 11 && WordIndex(19) == 0
    ensures WordIndex(20) == 5 && WordIndex(21) == 10 && WordIndex(22) == 15 && WordIndex(23) == 4
  {
  }

  lemma Tables24()
    ensures Sine(24) == 0x21e1cde6 && Sine(25) == 0xc33707d6 && Sine(26) == 0xf4d50d87 && Sine(27) == 0x455a14ed
    ensures Sine(28) == 0xa9e3e905 && Sine(29) == 0xfcefa3f8 && Sine(30) == 0x676f02d9 && Sine(31) == 0x8d2a4c8a
    ensures WordIndex(24) == 9 && WordIndex(25) == 14 && WordIndex(26) == 3 && WordIndex(27) == 8
    ensures WordIndex(28) == 13 && WordIndex(29) == 2 && WordIndex(30) == 7 && WordIndex(31) == 12
  {
  }

  lemma Tables32()
    ensures Sine(32) == 0xfffa3942 && Sine(33) == 0x8771f681 && Sine(34) == 0x6d9d6122 && Sine(35) == 0xfde5380c
    ensures Sine(36) == 0xa4beea44 && Sine(37) == 0x4bdecfa9 && Sine(38) == 0xf6bb4b60 && Sine(39) == 0xbebfbc70
    ensures WordIndex(32) == 5 && WordIndex(33) == 8 && WordIndex(34) == 11 && WordIndex(35) == 14
    ensures WordIndex(36) == 1 && WordIndex(37) == 4 && WordIndex(38) == 7 && WordIndex(39) == 10
  {
  }

  lemma Tables40()
    ensures Sine(40) == 0x289b7ec6 && Sine(41) == 0xeaa127fa && Sine(42) == 0xd4ef3085 && Sine(43) == 0x04881d05
    ensures Sine(44) == 0xd9d4d039 && Sine(45) == 0xe6db99e5 && Sine(46) == 0x1fa27cf8 && Sine(47) == 0xc4ac5665
    ensures WordIndex(40) == 13 && WordIndex(41) == 0 && WordIndex(42) == 3 && WordIndex(43) == 6
    ensures WordIndex(44) == 9 && WordIndex(45) == 12 && WordIndex(46) == 15 && WordIndex(47) == 2
  {
  }

  lemma Tables48()
    ensures Sine(48) == 0xf4292244 && Sine(49) == 0x432aff97 && Sine(50) == 0xab9423a7 && Sine(51) == 0xfc93a039
    ensures Sine(52) == 0x655b59c3 && Sine(53) == 0x8f0ccc92 && Sine(54) == 0xffeff47d && Sine(55) == 0x85845dd1
    ensures WordIndex(48) == 0 && WordIndex(49) == 7 && WordIndex(50) == 14 && WordIndex(51) == 5
    ensures WordIndex(52) == 12 && WordIndex(53) == 3 && WordIndex(54) == 10 && WordIndex(55) == 1
  {
  }

  lemma Tables56()
    ensures Sine(56) == 0x6fa87e4f && Sine(57) == 0xfe2ce6e0 && Sine(58) == 0xa3014314 && Sine(59) == 0x4e0811a1
    ensures Sine(60) == 0xf7537e82 && Sine(61) == 0xbd3af235 && Sine(62) == 0x2ad7d2bb && Sine(63) == 0xeb86d391
    ensures WordIndex(56) == 8 && WordIndex(57) == 15 && WordIndex(58) == 6 && WordIndex(59) == 13
    ensures WordIndex(60) == 4 && WordIndex(61) == 11 && WordIndex(62) == 2 && WordIndex(63) == 9
  {
  }

  // ---- the empty message ----

  /** The padding alone. */
  predicate IsEmptyBlock(x: seq<u32>) {
    && |x| == 16
    && x[0] == 0x00000080 && x[1] == 0x00000000 && x[2] == 0x00000000 && x[3] == 0x00000000
    && x[4] == 0x00000000 && x[5] == 0x00000000 && x[6] == 0x00000000 && x[7] == 0x00000000
    && x[8] == 0x00000000 && x[9] == 0x00000000 && x[10] == 0x00000000 && x[11] == 0x00000000
    && x[12] == 0x00000000 && x[13] == 0x00000000 && x[14] == 0x00000000 && x[15] == 0x00000000
  }

  lemma EmptySteps0(x: seq<u32>)
    requires IsEmptyBlock(x) && Steps(START, x, 0) == R(0x67452301, 0xefcdab89, 0x98badcfe, 0x10325476)
    ensures Steps(START, x, 16) == R(0xf56c7cf1, 0xd6819c6a, 0x5aa53f75, 0x374943a7)
  {
    hide Steps, R, Sine, WordIndex;
    Tables0();
    Tables8();
    StepTo(0, START, x, 0x67452301, 0xefcdab89, 0x98badcfe, 0x10325476, 0xd76aa4f7, 0xa5202774);
    StepTo(1, START, x, 0x10325476, 0xa5202774, 0xefcdab89, 0x98badcfe, 0xb6950756, 0xf59592dd);
    StepTo(2, START, x, 0x98badcfe, 0xf59592dd, 0xa5202774, 0xefcdab89, 0x6c23792d, 0xe7f06b23);
    StepTo(3, START, x, 0xefcdab89, 0xe7f06b23, 0xf59592dd, 0xa5202774, 0x971b80cc, 0x1b163203);
    StepTo(4, START, x, 0xa5202774, 0x1b163203, 0xe7f06b23, 0xf59592dd, 0x822dda02, 0x32033344);
    StepTo(5, START, x, 0xf59592dd, 0x32033344, 0x1b163203, 0xe7f06b23, 0x150fd32a, 0x2f35d494);
    StepTo(6, START, x, 0xe7f06b23, 0x2f35d494, 0x32033344, 0x1b163203, 0xc223e33d, 0xf5b158db);
    StepTo(7, START, x, 0x1b163203, 0xf5b158db, 0x2f35d494, 0x32033344, 0x3f903a98, 0x9bc13ce9);
    StepTo(8, START, x, 0x32033344, 0x9bc13ce9, 0xf5b158db, 0x2f35d494, 0x5139a4f9, 0x3893b991);
    StepTo(9, START, x, 0x2f35d494, 0x3893b991, 0x9bc13ce9, 0xf5b158db, 0x981c450e, 0xfce4a312);
    StepTo(10, START, x, 0xf5b158db, 0xfce4a312, 0x3893b991, 0x9bc13ce9, 0x31327285, 0xe1ef0576);
    StepTo(11, START, x, 0x9bc13ce9, 0xe1ef0576, 0xfce4a312, 0x3893b991, 0x1e12ce3a, 0x70768a29);
    StepTo(12, START, x, 0x3893b991, 0x70768a29, 0xe1ef0576, 0xfce4a312, 0x9109ebe5, 0xf56c7cf1);
    StepTo(13, START, x, 0xfce4a312, 0xf56c7cf1, 0x70768a29, 0xe1ef0576, 0x6b641dcc, 0x374943a7);
    StepTo(14, START, x, 0xe1ef0576, 0x374943a7, 0xf56c7cf1, 0x70768a29, 0xfde711ad, 0x5aa53f75);
    StepTo(15, START, x, 0x70768a29, 0x5aa53f75, 0x374943a7, 0xf56c7cf1, 0x7173d5ef, 0xd6819c6a);
  }

  lemma EmptySteps16(x: seq<u32>)
    requires IsEmptyBlock(x) && Steps(START, x, 16) == R(0xf56c7cf1, 0xd6819c6a, 0x5aa53f75, 0x374943a7)
    ensures Steps(START, x, 32) == R(0x13707036, 0xa2205f1f, 0x1c31c384, 0xae7813db)
  {
    hide Steps, R, Sine, WordIndex;
    Tables16();
    Tables24();
    StepTo(16, START, x, 0xf56c7cf1, 0xd6819c6a, 0x5aa53f75, 0x374943a7, 0x4a2fdec5, 0x1c7d7513);
    StepTo(17, START, x, 0x374943a7, 0x1c7d7513, 0xd6819c6a, 0x5aa53f75, 0x93afac02, 0x7bd57a3a);
    StepTo(18, START, x, 0x5aa53f75, 0x7bd57a3a, 0x1c7d7513, 0xd6819c6a, 0xdc011301, 0xc095f13a);
    StepTo(19, START, x, 0xd6819c6a, 0xc095f13a, 0x7bd57a3a, 0x1c7d7513, 0x23cddfce, 0xbd782e17);
    StepTo(20, START, x, 0x1c7d7513, 0xbd782e17, 0xc095f13a, 0x7bd57a3a, 0xabfd3082, 0x3d1e3e6c);
    StepTo(21, START, x, 0x7bd57a3a, 0x3d1e3e6c, 0xbd782e17, 0xc095f13a, 0xbb95ccba, 0x68b7b3e3);
    StepTo(22, START, x, 0xc095f13a, 0x68b7b3e3, 0x3d1e3e6c, 0xbd782e17, 0xc16e0a26, 0xeb41643e);
    StepTo(23, START, x, 0xbd782e17, 0xeb41643e, 0x68b7b3e3, 0x3d1e3e6c, 0x0eedcf8e, 0xe422531a);
    StepTo(24, START, x, 0x3d1e3e6c, 0xe422531a, 0xeb41643e, 0x68b7b3e3, 0x42626370, 0x306ec122);
    StepTo(25, START, x, 0x68b7b3e3, 0x306ec122, 0xe422531a, 0xeb41643e, 0x50510edb, 0xd28c77c2);
    StepTo(26, START, x, 0xeb41643e, 0xd28c77c2, 0x306ec122, 0xe422531a, 0xb06344e7, 0xa3c663da);
    StepTo(27, START, x, 0xe422531a, 0xa3c663da, 0xd28c77c2, 0x306ec122, 0x0c42dfc9, 0xa0572807);
    StepTo(28, START, x, 0x306ec122, 0xa0572807, 0xa3c663da, 0xd28c77c2, 0x7b98ca41, 0x13707036);
    StepTo(29, START, x, 0xd28c77c2, 0x13707036, 0xa0572807, 0xa3c663da, 0xd2cd83d1, 0xae7813db);
    StepTo(30, START, x, 0xa3c663da, 0xae7813db, 0x13707036, 0xa0572807, 0xbea5b6e6, 0x1c31c384);
    StepTo(31, START, x, 0xa0572807, 0x1c31c384, 0xae7813db, 0x13707036, 0xe9b9b85e, 0xa2205f1f);
  }

  lemma EmptySteps32(x: seq<u32>)
    requires IsEmptyBlock(x) && Steps(START, x, 32) == R(0x13707036, 0xa2205f1f, 0x1c31c384, 0xae7813db)
    ensures Steps(START, x, 48) == R(0x3f55edfd, 0xca7d2dbd, 0x68d84ea2, 0x22a31f54)
  {
    hide Steps, R, Sine, WordIndex;
    Tables32();
    Tables40();
    StepTo(32, START, x, 0x13707036, 0xa2205f1f, 0x1c31c384, 0xae7813db, 0x23d438b8, 0xdf63eaa1);
    StepTo(33, START, x, 0xae7813db, 0xdf63eaa1, 0xa2205f1f, 0x1c31c384, 0x975c8096, 0xc3689f5b);
    StepTo(34, START, x, 0x1c31c384, 0xc3689f5b, 0xdf63eaa1, 0xa2205f1f, 0x47fa4f8b, 0x12f3e755);
    StepTo(35, START, x, 0xa2205f1f, 0x12f3e755, 0xc3689f5b, 0xdf63eaa1, 0xaefe29da, 0x004b6669);
    StepTo(36, START, x, 0xdf63eaa1, 0x004b6669, 0x12f3e755, 0xc3689f5b, 0x55f2f34c, 0x5f7a9b2e);
    StepTo(37, START, x, 0xc3689f5b, 0x5f7a9b2e, 0x004b6669, 0x12f3e755, 0x5d098916, 0xabc34e16);
    StepTo(38, START, x, 0x12f3e755, 0xabc34e16, 0x5f7a9b2e, 0x004b6669, 0xfea1e606, 0x91ca4cb7);
    StepTo(39, START, x, 0x004b6669, 0x91ca4cb7, 0xabc34e16, 0x5f7a9b2e, 0x247ebc68, 0xc5dc8c15);
    StepTo(40, START, x, 0x5f7a9b2e, 0xc5dc8c15, 0x91ca4cb7, 0xabc34e16, 0x87eba8a8, 0x4497169d);
    StepTo(41, START, x, 0xabc34e16, 0x4497169d, 0xc5dc8c15, 0x91ca4cb7, 0xa6e64ccf, 0x76fd93d4);
    StepTo(42, START, x, 0x91ca4cb7, 0x76fd93d4, 0x4497169d, 0xc5dc8c15, 0x5e6f8698, 0xfd95f243);
    StepTo(43, START, x, 0xc5dc8c15, 0xfd95f243, 0x76fd93d4, 0x4497169d, 0x9a642024, 0x0fe32453);
    StepTo(44, START, x, 0x4497169d, 0x0fe32453, 0xfd95f243, 0x76fd93d4, 0xa2f72c9a, 0x3f55edfd);
    StepTo(45, START, x, 0x76fd93d4, 0x3f55edfd, 0x0fe32453, 0xfd95f243, 0x2afc69a6, 0x22a31f54);
    StepTo(46, START, x, 0xfd95f243, 0x22a31f54, 0x3f55edfd, 0x0fe32453, 0x2f4e4635, 0x68d84ea2);
    StepTo(47, START, x, 0x0fe32453, 0x68d84ea2, 0x22a31f54, 0x3f55edfd, 0x49be36c3, 0xca7d2dbd);
  }

  lemma EmptySteps48(x: seq<u32>)
    requires IsEmptyBlock(x) && Steps(START, x, 48) == R(0x3f55edfd, 0xca7d2dbd, 0x68d84ea2, 0x22a31f54)
    ensures Steps(START, x, 64) == R(0x7246fad3, 0x14e45506, 0xff4ea3eb, 0x6e10a476)
  {
    hide Steps, R, Sine, WordIndex;
    Tables48();
    Tables56();
    StepTo(48, START, x, 0x3f55edfd, 0xca7d2dbd, 0x68d84ea2, 0x22a31f54, 0xeb24b3de, 0x93aa2577);
    StepTo(49, START, x, 0x22a31f54, 0x93aa2577, 0xca7d2dbd, 0x68d84ea2, 0xc3a0b7ad, 0x1688dc85);
    StepTo(50, START, x, 0x68d84ea2, 0x1688dc85, 0x93aa2577, 0xca7d2dbd, 0xb88d6df9, 0xcd85b8cb);
    StepTo(51, START, x, 0xca7d2dbd, 0xcd85b8cb, 0x1688dc85, 0x93aa2577, 0xc26df444, 0x561e0689);
    StepTo(52, START, x, 0x93aa2577, 0x561e0689, 0xcd85b8cb, 0x1688dc85, 0x2c001e6a, 0x5625a114);
    StepTo(53, START, x, 0x1688dc85, 0x5625a114, 0x561e0689, 0xcd85b8cb, 0xc5f78ad4, 0x3450f42b);
    StepTo(54, START, x, 0xcd85b8cb, 0x3450f42b, 0x5625a114, 0x561e0689, 0xb94a09b3, 0x392ad0d0);
    StepTo(55, START, x, 0x561e0689, 0x392ad0d0, 0x3450f42b, 0x5625a114, 0x694c8f2a, 0x1e77fa61);
    StepTo(56, START, x, 0x5625a114, 0x1e77fa61, 0x392ad0d0, 0x3450f42b, 0xaca34a88, 0x474a9c8c);
    StepTo(57, START, x, 0x3450f42b, 0x474a9c8c, 0x1e77fa61, 0x392ad0d0, 0x0c2620d9, 0xdfce00bc);
    StepTo(58, START, x, 0x392ad0d0, 0xdfce00bc, 0x474a9c8c, 0x1e77fa61, 0x94b0ad16, 0x36594b14);
    StepTo(59, START, x, 0x1e77fa61, 0x36594b14, 0xdfce00bc, 0x474a9c8c, 0xcdb377cd, 0x30130182);
    StepTo(60, START, x, 0x474a9c8c, 0x30130182, 0x36594b14, 0xdfce00bc, 0x4508cfe5, 0x7246fad3);
    StepTo(61, START, x, 0xdfce00bc, 0x7246fad3, 0x30130182, 0x36594b14, 0x68fef26a, 0x6e10a476);
    StepTo(62, START, x, 0x36594b14, 0x6e10a476, 0x7246fad3, 0x30130182, 0xfeeb227b, 0xff4ea3eb);
    StepTo(63, START, x, 0x30130182, 0xff4ea3eb, 0x6e10a476, 0x7246fad3, 0xad88d8ac, 0x14e45506);
  }

  lemma EmptySum()
    ensures START == R(0x67452301, 0xefcdab89, 0x98badcfe, 0x10325476)
    ensures Sum(START, R(0x7246fad3, 0x14e45506, 0xff4ea3eb, 0x6e10a476))
         == R(0xd98c1dd4, 0x04b2008f, 0x980980e9, 0x7e42f8ec)
  {
  }

  lemma EmptyCompressed(x: seq<u32>)
    requires IsEmptyBlock(x)
    ensures Compress(START, x) == R(0xd98c1dd4, 0x04b2008f, 0x980980e9, 0x7e42f8ec)
  {
    hide Steps, Compress, R, Sum, START;
    EmptySum();
    StepsStart(START, x);
    EmptySteps0(x);
    EmptySteps16(x);
    EmptySteps32(x);
    EmptySteps48(x);
    CompressIsSum(START, x);
  }

  // ---- "abc" ----

  /** "abc", padded. */
  predicate IsAbcBlock(x: seq<u32>) {
    && |x| == 16
    && x[0] == 0x80636261 && x[1] == 0x00000000 && x[2] == 0x00000000 && x[3] == 0x00000000
    && x[4] == 0x00000000 && x[5] == 0x00000000 && x[6] == 0x00000000 && x[7] == 0x00000000
    && x[8] == 0x00000000 && x[9] == 0x00000000 && x[10] == 0x00000000 && x[11] == 0x00000000
    && x[12] == 0x00000000 && x[13] == 0x00000000 && x[14] == 0x00000018 && x[15] == 0x00000000
  }

  lemma AbcSteps0(x: seq<u32>)
    requires IsAbcBlock(x) && Steps(START, x, 0) == R(0x67452301, 0xefcdab89, 0x98badcfe, 0x10325476)
    ensures Steps(START, x, 16) == R(0xdda9b9a6, 0x72aff2e0, 0xe396856b, 0xa1051895)
  {
    hide Steps, R, Sine, WordIndex;
    Tables0();
    Tables8();
    StepTo(0, START, x, 0x67452301, 0xefcdab89, 0x98badcfe, 0x10325476, 0x57ce06d8, 0xd6d117b4);
    StepTo(1, START, x, 0x10325476, 0xd6d117b4, 0xefcdab89, 0x98badcfe, 0xc7e5d796, 0x344a8432);
    StepTo(2, START, x, 0x98badcfe, 0x344a8432, 0xd6d117b4, 0xefcdab89, 0x9ca07d92, 0x2f6fbd72);
    StepTo(3, START, x, 0xefcdab89, 0x2f6fbd72, 0x344a8432, 0xd6d117b4, 0xa666012d, 0x7ad956f2);
    StepTo(4, START, x, 0xd6d117b4, 0x7ad956f2, 0x2f6fbd72, 0x344a8432, 0xfa98bbd5, 0xc73741ef);
    StepTo(5, START, x, 0x344a8432, 0xc73741ef, 0x7ad956f2, 0x2f6fbd72, 0xe62c474e, 0x8bac3051);
    StepTo(6, START, x, 0x2f6fbd72, 0x8bac3051, 0xc73741ef, 0x7ad956f2, 0xcb154a68, 0x207dc67b);
    StepTo(7, START, x, 0x7ad956f2, 0x207dc67b, 0x8bac3051, 0xc73741ef, 0x3f4dedc8, 0x928d99f6);
    StepTo(8, START, x, 0xc73741ef, 0x928d99f6, 0x207dc67b, 0x8bac3051, 0x39e57b3a, 0x854b3712);
    StepTo(9, START, x, 0x8bac3051, 0x854b3712, 0x928d99f6, 0x207dc67b, 0xb72ef97b, 0x74e2f284);
    StepTo(10, START, x, 0x207dc67b, 0x74e2f284, 0x854b3712, 0x928d99f6, 0xa6cc5d9e, 0x3020401c);
    StepTo(11, START, x, 0x928d99f6, 0x3020401c, 0x74e2f284, 0x854b3712, 0xd155e8ba, 0x5ed49596);
    StepTo(12, START, x, 0x854b3712, 0x5ed49596, 0x3020401c, 0x74e2f284, 0x20fdaa48, 0xdda9b9a6);
    StepTo(13, START, x, 0x74e2f284, 0xdda9b9a6, 0x5ed49596, 0x3020401c, 0xeefc35b5, 0xa1051895);
    StepTo(14, START, x, 0x3020401c, 0xa1051895, 0xdda9b9a6, 0x5ed49596, 0xb66b2148, 0xe396856b);
    StepTo(15, START, x, 0x5ed49596, 0xe396856b, 0xa1051895, 0xdda9b9a6, 0x65b5d63c, 0x72aff2e0);
  }

  lemma AbcSteps16(x: seq<u32>)
    requires IsAbcBlock(x) && Steps(START, x, 16) == R(0xdda9b9a6, 0x72aff2e0, 0xe396856b, 0xa1051895)
    ensures Steps(START, x, 32) == R(0x790a77fb, 0x726342d3, 0xa62884aa, 0x9f47e4f8)
  {
    hide Steps, R, Sine, WordIndex;
    Tables16();
    Tables24();
    StepTo(16, START, x, 0xdda9b9a6, 0x72aff2e0, 0xe396856b, 0xa1051895, 0x365f74f2, 0x3e9e9126);
    StepTo(17, START, x, 0xa1051895, 0x3e9e9126, 0x72aff2e0, 0xe396856b, 0x9405bf77, 0x4a1d804e);
    StepTo(18, START, x, 0xe396856b, 0x4a1d804e, 0x3e9e9126, 0x72aff2e0, 0x58126102, 0xe25e1652);
    StepTo(19, START, x, 0x72aff2e0, 0xe25e1652, 0x4a1d804e, 0x3e9e9126, 0x3ee92d35, 0xb5b204e4);
    StepTo(20, START, x, 0x3e9e9126, 0xb5b204e4, 0xe25e1652, 0x4a1d804e, 0xb51fb7d7, 0x59a8ffda);
    StepTo(21, START, x, 0x4a1d804e, 0x59a8ffda, 0xb5b204e4, 0xe25e1652, 0xa209ab97, 0x6d002f1e);
    StepTo(22, START, x, 0xe25e1652, 0x6d002f1e, 0x59a8ffda, 0xb5b204e4, 0x2808fbf1, 0xabfc7920);
    StepTo(23, START, x, 0xb5b204e4, 0xabfc7920, 0x6d002f1e, 0x59a8ffda, 0xcb2e79b0, 0x47092c07);
    StepTo(24, START, x, 0x59a8ffda, 0x47092c07, 0xabfc7920, 0x6d002f1e, 0x438749e6, 0xb7f268cf);
    StepTo(25, START, x, 0x6d002f1e, 0xb7f268cf, 0x47092c07, 0xabfc7920, 0x1828a313, 0x09388eff);
    StepTo(26, START, x, 0xabfc7920, 0x09388eff, 0xb7f268cf, 0x47092c07, 0x52cbd376, 0xfe1623b1);
    StepTo(27, START, x, 0x47092c07, 0xfe1623b1, 0x09388eff, 0xb7f268cf, 0x4a7de7a5, 0x786acb8f);
    StepTo(28, START, x, 0xb7f268cf, 0x786acb8f, 0xfe1623b1, 0x09388eff, 0x6004fd63, 0x790a77fb);
    StepTo(29, START, x, 0x09388eff, 0x790a77fb, 0x786acb8f, 0xfe1623b1, 0x7e931eb6, 0x9f47e4f8);
    StepTo(30, START, x, 0xfe1623b1, 0x9f47e4f8, 0x790a77fb, 0x786acb8f, 0x7ec81b82, 0xa62884aa);
    StepTo(31, START, x, 0x786acb8f, 0xa62884aa, 0x9f47e4f8, 0x790a77fb, 0xabe29cc3, 0x726342d3);
  }

  lemma AbcSteps32(x: seq<u32>)
    requires IsAbcBlock(x) && Steps(START, x, 32) == R(0x790a77fb, 0x726342d3, 0xa62884aa, 0x9f47e4f8)
    ensures Steps(START, x, 48) == R(0x7f2e507b, 0x7beb9700, 0x8fae6399, 0x99d9679d)
  {
    hide Steps, R, Sine, WordIndex;
    Tables32();
    Tables40();
    StepTo(32, START, x, 0x790a77fb, 0x726342d3, 0xa62884aa, 0x9f47e4f8, 0xc410d3be, 0xb3707ebf);
    StepTo(33, START, x, 0x9f47e4f8, 0xb3707ebf, 0x726342d3, 0xa62884aa, 0x8df5943f, 0x60127b2e);
    StepTo(34, START, x, 0xa62884aa, 0x60127b2e, 0xb3707ebf, 0x726342d3, 0xb4c72d0e, 0x8d212ff5);
    StepTo(35, START, x, 0x726342d3, 0x8d212ff5, 0x60127b2e, 0xb3707ebf, 0xce8ba55b, 0x3b0875c7);
    StepTo(36, START, x, 0xb3707ebf, 0x3b0875c7, 0x8d212ff5, 0x60127b2e, 0x2e6a8a1f, 0x21b117b9);
    StepTo(37, START, x, 0x60127b2e, 0x21b117b9, 0x3b0875c7, 0x8d212ff5, 0x43899862, 0x6e7429d5);
    StepTo(38, START, x, 0x8d212ff5, 0x6e7429d5, 0x21b117b9, 0x3b0875c7, 0xf8a9c700, 0x3575227e);
    StepTo(39, START, x, 0x3b0875c7, 0x3575227e, 0x6e7429d5, 0x21b117b9, 0x74784e49, 0x5a2f5ea5);
    StepTo(40, START, x, 0x21b117b9, 0x5a2f5ea5, 0x3575227e, 0x6e7429d5, 0x4b7aeb8d, 0x11de1779);
    StepTo(41, START, x, 0x6e7429d5, 0x11de1779, 0x5a2f5ea5, 0x3575227e, 0x57fd1fd2, 0xfadcaa38);
    StepTo(42, START, x, 0x3575227e, 0xfadcaa38, 0x11de1779, 0x5a2f5ea5, 0xbb9236e7, 0x31c465ca);
    StepTo(43, START, x, 0x5a2f5ea5, 0x31c465ca, 0xfadcaa38, 0x11de1779, 0x397e5435, 0x4c6124f4);
    StepTo(44, START, x, 0x11de1779, 0x4c6124f4, 0x31c465ca, 0xfadcaa38, 0x732cd2b8, 0x7f2e507b);
    StepTo(45, START, x, 0xfadcaa38, 0x7f2e507b, 0x4c6124f4, 0x31c465ca, 0xe4435562, 0x99d9679d);
    StepTo(46, START, x, 0x31c465ca, 0x99d9679d, 0x7f2e507b, 0x4c6124f4, 0xfbfcf5d4, 0x8fae6399);
    StepTo(47, START, x, 0x4c6124f4, 0x8fae6399, 0x99d9679d, 0x7f2e507b, 0x7a66cfd8, 0x7beb9700);
  }

  lemma AbcSteps48(x: seq<u32>)
    requires IsAbcBlock(x) && Steps(START, x, 48) == R(0x7f2e507b, 0x7beb9700, 0x8fae6399, 0x99d9679d)
    ensures Steps(START, x, 64) == R(0x310ade8f, 0xc08226b3, 0xe484b9d8, 0x624d8cb2)
  {
    hide Steps, R, Sine, WordIndex;
    Tables48();
    Tables56();
    StepTo(48, START, x, 0x7f2e507b, 0x7beb9700, 0x8fae6399, 0x99d9679d, 0xe3fcd21b, 0x7b201df8);
    StepTo(49, START, x, 0x99d9679d, 0x7b201df8, 0x7beb9700, 0x8fae6399, 0xdd9e7232, 0xf4e8e96e);
    StepTo(50, START, x, 0x8fae6399, 0xf4e8e96e, 0x7b201df8, 0x7beb9700, 0xcb1f7b5f, 0xb298cefd);
    StepTo(51, START, x, 0x7beb9700, 0xb298cefd, 0xf4e8e96e, 0x7b201df8, 0xbab63eca, 0x8bf025c4);
    StepTo(52, START, x, 0x7b201df8, 0x8bf025c4, 0xb298cefd, 0xf4e8e96e, 0x19eb70e3, 0x06cc5e8a);
    StepTo(53, START, x, 0xf4e8e96e, 0x06cc5e8a, 0x8bf025c4, 0xb298cefd, 0x4815104e, 0x5b0d97aa);
    StepTo(54, START, x, 0xb298cefd, 0x5b0d97aa, 0x06cc5e8a, 0x8bf025c4, 0x2c4c44ab, 0x7d632dd0);
    StepTo(55, START, x, 0x8bf025c4, 0x7d632dd0, 0x5b0d97aa, 0x06cc5e8a, 0xb7f2bdf4, 0x3bfa2c27);
    StepTo(56, START, x, 0x06cc5e8a, 0x3bfa2c27, 0x7d632dd0, 0x5b0d97aa, 0x390e1e80, 0x7f81cc35);
    StepTo(57, START, x, 0x5b0d97aa, 0x7f81cc35, 0x3bfa2c27, 0x7d632dd0, 0x1da270a2, 0x094454ab);
    StepTo(58, START, x, 0x7d632dd0, 0x094454ab, 0x7f81cc35, 0x3bfa2c27, 0xd3288cb2, 0x4f9dbe3f);
    StepTo(59, START, x, 0x3bfa2c27, 0x4f9dbe3f, 0x094454ab, 0x7f81cc35, 0x50be291c, 0x7327d604);
    StepTo(60, START, x, 0x7f81cc35, 0x7327d604, 0x4f9dbe3f, 0x094454ab, 0x2ef78c22, 0x310ade8f);
    StepTo(61, START, x, 0x094454ab, 0x310ade8f, 0x7327d604, 0x4f9dbe3f, 0x88cc50ab, 0x624d8cb2);
    StepTo(62, START, x, 0x4f9dbe3f, 0x624d8cb2, 0x310ade8f, 0x7327d604, 0x5a4d046e, 0xe484b9d8);
    StepTo(63, START, x, 0x7327d604, 0xe484b9d8, 0x624d8cb2, 0x310ade8f, 0xeb66dedf, 0xc08226b3);
  }

  lemma AbcSum()
    ensures START == R(0x67452301, 0xefcdab89, 0x98badcfe, 0x10325476)
    ensures Sum(START, R(0x310ade8f, 0xc08226b3, 0xe484b9d8, 0x624d8cb2))
         == R(0x98500190, 0xb04fd23c, 0x7d3f96d6, 0x727fe128)
  {
  }

  lemma AbcCompressed(x: seq<u32>)
    requires IsAbcBlock(x)
    ensures Compress(START, x) == R(0x98500190, 0xb04fd23c, 0x7d3f96d6, 0x727fe128)
  {
    hide Steps, Compress, R, Sum, START;
    AbcSum();
    StepsStart(START, x);
    AbcSteps0(x);
    AbcSteps16(x);
    AbcSteps32(x);
    AbcSteps48(x);
    CompressIsSum(START, x);
  }

  // ---- eighty digits, in two blocks ----

  /** The registers between the two blocks. */
  const MIDDLE := R(0xc88d8bec, 0xa4a0dc8b, 0xe9edef99, 0xb0d18d1d)

  /** The first 64 digits. */
  predicate IsFirstBlock(x: seq<u32>) {
    && |x| == 16
    && x[0] == 0x34333231 && x[1] == 0x38373635 && x[2] == 0x32313039 && x[3] == 0x36353433
    && x[4] == 0x30393837 && x[5] == 0x34333231 && x[6] == 0x38373635 && x[7] == 0x32313039
    && x[8] == 0x36353433 && x[9] == 0x30393837 && x[10] == 0x34333231 && x[11] == 0x38373635
    && x[12] == 0x32313039 && x[13] == 0x36353433 && x[14] == 0x30393837 && x[15] == 0x34333231
  }

  lemma FirstSteps0(x: seq<u32>)
    requires IsFirstBlock(x) && Steps(START, x, 0) == R(0x67452301, 0xefcdab89, 0x98badcfe, 0x10325476)
    ensures Steps(START, x, 16) == R(0x5157e49e, 0xaf506a03, 0x27e983a0, 0xffac907e)
  {
    hide Steps, R, Sine, WordIndex;
    Tables0();
    Tables8();
    StepTo(0, START, x, 0x67452301, 0xefcdab89, 0x98badcfe, 0x10325476, 0x0b9dd6a8, 0xbeb8ff8e);
    StepTo(1, START, x, 0x10325476, 0xbeb8ff8e, 0xefcdab89, 0x98badcfe, 0xdfbbedf9, 0x7d989d89);
    StepTo(2, START, x, 0x98badcfe, 0x7d989d89, 0xbeb8ff8e, 0xefcdab89, 0xadea3d9a, 0xf8cdf95d);
    StepTo(3, START, x, 0xefcdab89, 0xf8cdf95d, 0x7d989d89, 0xbeb8ff8e, 0x66794e35, 0x862797b0);
    StepTo(4, START, x, 0xbeb8ff8e, 0x862797b0, 0xf8cdf95d, 0x7d989d89, 0xde0be08d, 0x8c17de9f);
    StepTo(5, START, x, 0x7d989d89, 0x8c17de9f, 0x862797b0, 0xf8cdf95d, 0xee234db4, 0xc0f32d81);
    StepTo(6, START, x, 0xf8cdf95d, 0xc0f32d81, 0x8c17de9f, 0x862797b0, 0x5f4d1456, 0xe99fec1b);
    StepTo(7, START, x, 0x862797b0, 0xe99fec1b, 0xc0f32d81, 0x8c17de9f, 0x7a329b6f, 0xc57e78c1);
    StepTo(8, START, x, 0x8c17de9f, 0xc57e78c1, 0xe99fec1b, 0xc0f32d81, 0xed6d18ab, 0x7c0aceb7);
    StepTo(9, START, x, 0xc0f32d81, 0x7c0aceb7, 0xc57e78c1, 0xe99fec1b, 0x4210c5f0, 0x8869d2d8);
    StepTo(10, START, x, 0xe99fec1b, 0x8869d2d8, 0x7c0aceb7, 0xc57e78c1, 0x6af1648e, 0x5186a8ba);
    StepTo(11, START, x, 0xc57e78c1, 0x5186a8ba, 0x8869d2d8, 0x7c0aceb7, 0xb31b4d51, 0xa5f36f8d);
    StepTo(12, START, x, 0x7c0aceb7, 0xa5f36f8d, 0x5186a8ba, 0x8869d2d8, 0x2356c8ea, 0x5157e49e);
    StepTo(13, START, x, 0x8869d2d8, 0x5157e49e, 0xa5f36f8d, 0x5186a8ba, 0xbe0ae54a, 0xffac907e);
    StepTo(14, START, x, 0x5186a8ba, 0xffac907e, 0x5157e49e, 0xa5f36f8d, 0x7991141e, 0x27e983a0);
    StepTo(15, START, x, 0xa5f36f8d, 0x27e983a0, 0xffac907e, 0x5157e49e, 0x9b998e1d, 0xaf506a03);
  }

  lemma FirstSteps16(x: seq<u32>)
    requires IsFirstBlock(x) && Steps(START, x, 16) == R(0x5157e49e, 0xaf506a03, 0x27e983a0, 0xffac907e)
    ensures Steps(START, x, 32) == R(0xf8bcfbb0, 0x1bf25662, 0x99a0f1b8, 0xd760ed39)
  {
    hide Steps, R, Sine, WordIndex;
    Tables16();
    Tables24();
    StepTo(16, START, x, 0x5157e49e, 0xaf506a03, 0x27e983a0, 0xffac907e, 0x2eee43b7, 0x8d18e0e8);
    StepTo(17, START, x, 0xffac907e, 0x8d18e0e8, 0xaf506a03, 0x27e983a0, 0x853d6296, 0x07de0df2);
    StepTo(18, START, x, 0x27e983a0, 0x07de0df2, 0x8d18e0e8, 0xaf506a03, 0x8dd79d10, 0xef223167);
    StepTo(19, START, x, 0xaf506a03, 0xef223167, 0x07de0df2, 0x8d18e0e8, 0x5d009150, 0x04280170);
    StepTo(20, START, x, 0x8d18e0e8, 0x04280170, 0xef223167, 0x07de0df2, 0x83a354eb, 0x78929ee0);
    StepTo(21, START, x, 0x07de0df2, 0x78929ee0, 0x04280170, 0xef223167, 0xa65f64e6, 0x375c6c2c);
    StepTo(22, START, x, 0xef223167, 0x375c6c2c, 0x78929ee0, 0x04280170, 0x7891e8b9, 0xb18aca50);
    StepTo(23, START, x, 0x04280170, 0xb18aca50, 0x375c6c2c, 0x78929ee0, 0x54041fbb, 0xad400a91);
    StepTo(24, START, x, 0x78929ee0, 0xad400a91, 0xb18aca50, 0x375c6c2c, 0x70702f4d, 0xbb45f43f);
    StepTo(25, START, x, 0x375c6c2c, 0xbb45f43f, 0xad400a91, 0xb18aca50, 0xe80d6cca, 0xd61f8a0f);
    StepTo(26, START, x, 0xb18aca50, 0xd61f8a0f, 0xbb45f43f, 0xad400a91, 0x729b0a39, 0x98ade6b5);
    StepTo(27, START, x, 0xad400a91, 0x98ade6b5, 0xd61f8a0f, 0xbb45f43f, 0x04ef41e6, 0xb70e35a9);
    StepTo(28, START, x, 0xbb45f43f, 0xb70e35a9, 0x98ade6b5, 0xd61f8a0f, 0x3a0d7630, 0xf8bcfbb0);
    StepTo(29, START, x, 0xd61f8a0f, 0xf8bcfbb0, 0xb70e35a9, 0x98ade6b5, 0xc4ef51f8, 0xd760ed39);
    StepTo(30, START, x, 0x98ade6b5, 0xd760ed39, 0xf8bcfbb0, 0xb70e35a9, 0x11ff0900, 0x99a0f1b8);
    StepTo(31, START, x, 0xb70e35a9, 0x99a0f1b8, 0xd760ed39, 0xf8bcfbb0, 0x164aa825, 0x1bf25662);
  }

  lemma FirstSteps32(x: seq<u32>)
    requires IsFirstBlock(x) && Steps(START, x, 32) == R(0xf8bcfbb0, 0x1bf25662, 0x99a0f1b8, 0xd760ed39)
    ensures Steps(START, x, 48) == R(0x697032ec, 0xdb4197da, 0xefc2c171, 0xfa597bfc)
  {
    hide Steps, R, Sine, WordIndex;
    Tables32();
    Tables40();
    StepTo(32, START, x, 0xf8bcfbb0, 0x1bf25662, 0x99a0f1b8, 0xd760ed39, 0x821cb206, 0x3dbd76ca);
    StepTo(33, START, x, 0xd760ed39, 0x3dbd76ca, 0x1bf25662, 0x99a0f1b8, 0x54f7e8fd, 0xfd056171);
    StepTo(34, START, x, 0x99a0f1b8, 0xfd056171, 0x3dbd76ca, 0x1bf25662, 0x1abfcae8, 0xc7ed7c30);
    StepTo(35, START, x, 0x1bf25662, 0xc7ed7c30, 0xfd056171, 0x3dbd76ca, 0x51663230, 0xe0162f49);
    StepTo(36, START, x, 0x3dbd76ca, 0xe0162f49, 0xc7ed7c30, 0xfd056171, 0xf5b1c94b, 0x3b32c408);
    StepTo(37, START, x, 0xfd056171, 0x3b32c408, 0xe0162f49, 0xc7ed7c30, 0x95e700c2, 0x7338d8b7);
    StepTo(38, START, x, 0xc7ed7c30, 0x7338d8b7, 0x3b32c408, 0xe0162f49, 0x98f62bbf, 0x9ef871ad);
    StepTo(39, START, x, 0xe0162f49, 0x9ef871ad, 0x7338d8b7, 0x3b32c408, 0xa9fb8afc, 0x1d4d6f72);
    StepTo(40, START, x, 0x3b32c408, 0x1d4d6f72, 0x9ef871ad, 0x7338d8b7, 0x8a913d69, 0xc661460a);
    StepTo(41, START, x, 0x7338d8b7, 0xc661460a, 0x1d4d6f72, 0x9ef871ad, 0xd7e18bb7, 0xd2bf04c9);
    StepTo(42, START, x, 0x9ef871ad, 0xd2bf04c9, 0xc661460a, 0x1d4d6f72, 0xb3b00416, 0xd6d5b879);
    StepTo(43, START, x, 0x1d4d6f72, 0xd6d5b879, 0xd2bf04c9, 0xc661460a, 0x1c18bd66, 0x89e3c4d7);
    StepTo(44, START, x, 0xc661460a, 0x89e3c4d7, 0xd6d5b879, 0xd2bf04c9, 0x5df8c6e1, 0x697032ec);
    StepTo(45, START, x, 0xd2bf04c9, 0x697032ec, 0x89e3c4d7, 0xd6d5b879, 0x22121d29, 0xfa597bfc);
    StepTo(46, START, x, 0xd6d5b879, 0xfa597bfc, 0x697032ec, 0x89e3c4d7, 0x4575f569, 0xefc2c171);
    StepTo(47, START, x, 0x89e3c4d7, 0xefc2c171, 0xfa597bfc, 0x697032ec, 0xfdacd3d6, 0xdb4197da);
  }

  lemma FirstSteps48(x: seq<u32>)
    requires IsFirstBlock(x) && Steps(START, x, 48) == R(0x697032ec, 0xdb4197da, 0xefc2c171, 0xfa597bfc)
    ensures Steps(START, x, 64) == R(0x614868eb, 0xb4d33102, 0x5133129b, 0xa09f38a7)
  {
    hide Steps, R, Sine, WordIndex;
    Tables48();
    Tables56();
    StepTo(48, START, x, 0x697032ec, 0xdb4197da, 0xefc2c171, 0xfa597bfc, 0xc1f1de0b, 0x57b91aca);
    StepTo(49, START, x, 0xfa597bfc, 0x57b91aca, 0xdb4197da, 0xefc2c171, 0xfcb254e0, 0x210c9ebc);
    StepTo(50, START, x, 0xefc2c171, 0x210c9ebc, 0x57b91aca, 0xdb4197da, 0x3d9801c6, 0x21efbd88);
    StepTo(51, START, x, 0xdb4197da, 0x21efbd88, 0x210c9ebc, 0x57b91aca, 0x94ebcd45, 0xcaa25b01);
    StepTo(52, START, x, 0x57b91aca, 0xcaa25b01, 0x21efbd88, 0x210c9ebc, 0xee626b91, 0x633d3f7c);
    StepTo(53, START, x, 0x210c9ebc, 0x633d3f7c, 0xcaa25b01, 0x21efbd88, 0x1bedc3ff, 0x1a4d3beb);
    StepTo(54, START, x, 0x21efbd88, 0x1a4d3beb, 0x633d3f7c, 0xcaa25b01, 0xb27364b9, 0xccaa1524);
    StepTo(55, START, x, 0xcaa25b01, 0xccaa1524, 0x1a4d3beb, 0x633d3f7c, 0x4f05dd53, 0x7713f5df);
    StepTo(56, START, x, 0x633d3f7c, 0x7713f5df, 0xccaa1524, 0x1a4d3beb, 0x4434d2f9, 0x8448b430);
    StepTo(57, START, x, 0x1a4d3beb, 0x8448b430, 0x7713f5df, 0xccaa1524, 0x0cfb6020, 0x71c93463);
    StepTo(58, START, x, 0xccaa1524, 0x71c93463, 0x8448b430, 0x7713f5df, 0x258818c0, 0x7e294727);
    StepTo(59, START, x, 0x7713f5df, 0x7e294727, 0x71c93463, 0x8448b430, 0x09c7b73f, 0x660a801d);
    StepTo(60, START, x, 0x8448b430, 0x660a801d, 0x7e294727, 0x71c93463, 0x3becf7a3, 0x614868eb);
    StepTo(61, START, x, 0x71c93463, 0x614868eb, 0x660a801d, 0x7e294727, 0xef0fd5b3, 0xa09f38a7);
    StepTo(62, START, x, 0x7e294727, 0xa09f38a7, 0x614868eb, 0x660a801d, 0xb3e96127, 0x5133129b);
    StepTo(63, START, x, 0x660a801d, 0x5133129b, 0xa09f38a7, 0x614868eb, 0x00f33b1d, 0xb4d33102);
  }

  lemma FirstSum()
    ensures START == R(0x67452301, 0xefcdab89, 0x98badcfe, 0x10325476)
    ensures Sum(START, R(0x614868eb, 0xb4d33102, 0x5133129b, 0xa09f38a7))
         == R(0xc88d8bec, 0xa4a0dc8b, 0xe9edef99, 0xb0d18d1d)
  {
  }

  lemma FirstCompressed(x: seq<u32>)
    requires IsFirstBlock(x)
    ensures Compress(START, x) == R(0xc88d8bec, 0xa4a0dc8b, 0xe9edef99, 0xb0d18d1d)
  {
    hide Steps, Compress, R, Sum, START;
    FirstSum();
    StepsStart(START, x);
    FirstSteps0(x);
    FirstSteps16(x);
    FirstSteps32(x);
    FirstSteps48(x);
    CompressIsSum(START, x);
  }

  /** The other 16, padded. */
  predicate IsSecondBlock(x: seq<u32>) {
    && |x| == 16
    && x[0] == 0x38373635 && x[1] == 0x32313039 && x[2] == 0x36353433 && x[3] == 0x30393837
    && x[4] == 0x00000080 && x[5] == 0x00000000 && x[6] == 0x00000000 && x[7] == 0x00000000
    && x[8] == 0x00000000 && x[9] == 0x00000000 && x[10] == 0x00000000 && x[11] == 0x00000000
    && x[12] == 0x00000000 && x[13] == 0x00000000 && x[14] == 0x00000280 && x[15] == 0x00000000
  }

  lemma SecondSteps0(x: seq<u32>)
    requires IsSecondBlock(x) && Steps(MIDDLE, x, 0) == R(0xc88d8bec, 0xa4a0dc8b, 0xe9edef99, 0xb0d18d1d)
    ensures Steps(MIDDLE, x, 16) == R(0xdb4ff71c, 0x58b12eab, 0x04396a39, 0x9b6b4960)
  {
    hide Steps, R, Sine, WordIndex;
    Tables0();
    Tables8();
    StepTo(0, MIDDLE, x, 0xc88d8bec, 0xa4a0dc8b, 0xe9edef99, 0xb0d18d1d, 0x89213436, 0x353af7cf);
    StepTo(1, MIDDLE, x, 0xb0d18d1d, 0x353af7cf, 0xa4a0dc8b, 0xe9edef99, 0xb8b05147, 0x3a4f735a);
    StepTo(2, MIDDLE, x, 0xe9edef99, 0x3a4f735a, 0x353af7cf, 0xa4a0dc8b, 0xf8ee9472, 0x63356537);
    StepTo(3, MIDDLE, x, 0xa4a0dc8b, 0x63356537, 0x3a4f735a, 0x353af7cf, 0xcca7d78a, 0x45e88f2c);
    StepTo(4, MIDDLE, x, 0x353af7cf, 0x45e88f2c, 0x63356537, 0x3a4f735a, 0xa5de7d74, 0x3527497e);
    StepTo(5, MIDDLE, x, 0x3a4f735a, 0x3527497e, 0x45e88f2c, 0x63356537, 0xc90766b1, 0xab92660e);
    StepTo(6, MIDDLE, x, 0x63356537, 0xab92660e, 0x3527497e, 0x45e88f2c, 0x70d07478, 0x948347ae);
    StepTo(7, MIDDLE, x, 0x45e88f2c, 0x948347ae, 0xab92660e, 0x3527497e, 0xe4d5728b, 0x377c7d0a);
    StepTo(8, MIDDLE, x, 0x3527497e, 0x377c7d0a, 0x948347ae, 0xab92660e, 0x3b2a2964, 0xcc912f27);
    StepTo(9, MIDDLE, x, 0xab92660e, 0xcc912f27, 0x377c7d0a, 0x948347ae, 0x4ae9cb47, 0x6945a3d5);
    StepTo(10, MIDDLE, x, 0x948347ae, 0x6945a3d5, 0xcc912f27, 0x377c7d0a, 0xf2bc226e, 0xae23894d);
    StepTo(11, MIDDLE, x, 0x377c7d0a, 0xae23894d, 0x6945a3d5, 0xcc912f27, 0x296afc2f, 0xb9ede40c);
    StepTo(12, MIDDLE, x, 0xcc912f27, 0xb9ede40c, 0xae23894d, 0x6945a3d5, 0x2042c426, 0xdb4ff71c);
    StepTo(13, MIDDLE, x, 0x6945a3d5, 0xdb4ff71c, 0xb9ede40c, 0xae23894d, 0x244c01b5, 0x9b6b4960);
    StepTo(14, MIDDLE, x, 0xae23894d, 0x9b6b4960, 0xdb4ff71c, 0xb9ede40c, 0x106cb467, 0x04396a39);
    StepTo(15, MIDDLE, x, 0xb9ede40c, 0x04396a39, 0x9b6b4960, 0xdb4ff71c, 0xdf11c951, 0x58b12eab);
  }

  lemma SecondSteps16(x: seq<u32>)
    requires IsSecondBlock(x) && Steps(MIDDLE, x, 16) == R(0xdb4ff71c, 0x58b12eab, 0x04396a39, 0x9b6b4960)
    ensures Steps(MIDDLE, x, 32) == R(0x8761f38e, 0x67092c33, 0x061bc867, 0x7a516116)
  {
    hide Steps, R, Sine, WordIndex;
    Tables16();
    Tables24();
    StepTo(16, MIDDLE, x, 0xdb4ff71c, 0x58b12eab, 0x04396a39, 0x9b6b4960, 0x1fd076f0, 0x52c00cae);
    StepTo(17, MIDDLE, x, 0x9b6b4960, 0x52c00cae, 0x58b12eab, 0x04396a39, 0xb42c094a, 0xaad2a216);
    StepTo(18, MIDDLE, x, 0x04396a39, 0xaad2a216, 0x52c00cae, 0x58b12eab, 0x3567e690, 0xa476af6f);
    StepTo(19, MIDDLE, x, 0x58b12eab, 0xa476af6f, 0xaad2a216, 0x52c00cae, 0x22f1dac8, 0x50f8de8c);
    StepTo(20, MIDDLE, x, 0x52c00cae, 0x50f8de8c, 0xa476af6f, 0xaad2a216, 0x2de3ac78, 0x0d6e6d91);
    StepTo(21, MIDDLE, x, 0xaad2a216, 0x0d6e6d91, 0x50f8de8c, 0xa476af6f, 0x020533ea, 0x17d64195);
    StepTo(22, MIDDLE, x, 0xa476af6f, 0x17d64195, 0x0d6e6d91, 0x50f8de8c, 0x9aeef785, 0xd5b7a850);
    StepTo(23, MIDDLE, x, 0x50f8de8c, 0xd5b7a850, 0x17d64195, 0x0d6e6d91, 0x508302e8, 0x043cb080);
    StepTo(24, MIDDLE, x, 0x0d6e6d91, 0x043cb080, 0xd5b7a850, 0x17d64195, 0xf385e437, 0x74f9377e);
    StepTo(25, MIDDLE, x, 0x17d64195, 0x74f9377e, 0x043cb080, 0xd5b7a850, 0x2fc67cbb, 0x01f2addd);
    StepTo(26, MIDDLE, x, 0xd5b7a850, 0x01f2addd, 0x74f9377e, 0x043cb080, 0x6bb7960c, 0xe775c8ca);
    StepTo(27, MIDDLE, x, 0x043cb080, 0xe775c8ca, 0x01f2addd, 0x74f9377e, 0xaf0a4e38, 0xcb00b96e);
    StepTo(28, MIDDLE, x, 0x74f9377e, 0xcb00b96e, 0xe775c8ca, 0x01f2addd, 0x05e309d1, 0x8761f38e);
    StepTo(29, MIDDLE, x, 0x01f2addd, 0x8761f38e, 0xcb00b96e, 0xe775c8ca, 0xc47977b6, 0x7a516116);
    StepTo(30, MIDDLE, x, 0xe775c8ca, 0x7a516116, 0x8761f38e, 0xcb00b96e, 0x9d462f29, 0x061bc867);
    StepTo(31, MIDDLE, x, 0xcb00b96e, 0x061bc867, 0x7a516116, 0x8761f38e, 0xd63cc60e, 0x67092c33);
  }

  lemma SecondSteps32(x: seq<u32>)
    requires IsSecondBlock(x) && Steps(MIDDLE, x, 32) == R(0x8761f38e, 0x67092c33, 0x061bc867, 0x7a516116)
    ensures Steps(MIDDLE, x, 48) == R(0x71123afa, 0x1df7010a, 0xe6a8a386, 0xdc9c8ddb)
  {
    hide Steps, R, Sine, WordIndex;
    Tables32();
    Tables40();
    StepTo(32, MIDDLE, x, 0x8761f38e, 0x67092c33, 0x061bc867, 0x7a516116, 0xa29fb212, 0x91044d5d);
    StepTo(33, MIDDLE, x, 0x7a516116, 0x91044d5d, 0x67092c33, 0x061bc867, 0xf1da00a0, 0x610954eb);
    StepTo(34, MIDDLE, x, 0x061bc867, 0x610954eb, 0x91044d5d, 0x67092c33, 0x0abd5f0e, 0xc0175fa8);
    StepTo(35, MIDDLE, x, 0x67092c33, 0xc0175fa8, 0x610954eb, 0x91044d5d, 0x9508acdd, 0x2ee1e3fe);
    StepTo(36, MIDDLE, x, 0x91044d5d, 0x2ee1e3fe, 0xc0175fa8, 0x610954eb, 0xf7f45097, 0xae26ed7d);
    StepTo(37, MIDDLE, x, 0x610954eb, 0xae26ed7d, 0x2ee1e3fe, 0xc0175fa8, 0xedb8763f, 0x71d8ecea);
    StepTo(38, MIDDLE, x, 0xc0175fa8, 0x71d8ecea, 0xae26ed7d, 0x2ee1e3fe, 0xa7f28d71, 0xff4a94dc);
    StepTo(39, MIDDLE, x, 0x2ee1e3fe, 0xff4a94dc, 0x71d8ecea, 0xae26ed7d, 0x0e5635b9, 0xdbd1bff6);
    StepTo(40, MIDDLE, x, 0xae26ed7d, 0xdbd1bff6, 0xff4a94dc, 0x71d8ecea, 0x2c063403, 0x9c350028);
    StepTo(41, MIDDLE, x, 0x71d8ecea, 0x9c350028, 0xdbd1bff6, 0xff4a94dc, 0x4d5f761b, 0x97e5da92);
    StepTo(42, MIDDLE, x, 0xff4a94dc, 0x97e5da92, 0x9c350028, 0xdbd1bff6, 0xd47462e4, 0xfacaaf06);
    StepTo(43, MIDDLE, x, 0xdbd1bff6, 0xfacaaf06, 0x97e5da92, 0x9c350028, 0xd17452b7, 0x56b3692f);
    StepTo(44, MIDDLE, x, 0x9c350028, 0x56b3692f, 0xfacaaf06, 0x97e5da92, 0xb1a5ed1c, 0x71123afa);
    StepTo(45, MIDDLE, x, 0x97e5da92, 0x71123afa, 0x56b3692f, 0xfacaaf06, 0x5c2d714a, 0xdc9c8ddb);
    StepTo(46, MIDDLE, x, 0xfacaaf06, 0xdc9c8ddb, 0x71123afa, 0x56b3692f, 0x15ab0a0c, 0xe6a8a386);
    StepTo(47, MIDDLE, x, 0x56b3692f, 0xe6a8a386, 0xdc9c8ddb, 0x71123afa, 0x9cbb086e, 0x1df7010a);
  }

  lemma SecondSteps48(x: seq<u32>)
    requires IsSecondBlock(x) && Steps(MIDDLE, x, 48) == R(0x71123afa, 0x1df7010a, 0xe6a8a386, 0xdc9c8ddb)
    ensures Steps(MIDDLE, x, 64) == R(0xda67616b, 0xb12906a0, 0x44ec5a13, 0xc9e47a04)
  {
    hide Steps, R, Sine, WordIndex;
    Tables48();
    Tables56();
    StepTo(48, MIDDLE, x, 0x71123afa, 0x1df7010a, 0xe6a8a386, 0xdc9c8ddb, 0x76d2641b, 0xd29007e7);
    StepTo(49, MIDDLE, x, 0xdc9c8ddb, 0xd29007e7, 0x1df7010a, 0xe6a8a386, 0xe5e7ec67, 0x7241a77e);
    StepTo(50, MIDDLE, x, 0xe6a8a386, 0x7241a77e, 0xd29007e7, 0x1df7010a, 0xb316c1c5, 0xd3248109);
    StepTo(51, MIDDLE, x, 0x1df7010a, 0xd3248109, 0x7241a77e, 0xd29007e7, 0xa7b8ffaa, 0xc8797828);
    StepTo(52, MIDDLE, x, 0xd29007e7, 0xc8797828, 0xd3248109, 0x7241a77e, 0x56c75b4a, 0x7a504abd);
    StepTo(53, MIDDLE, x, 0x7241a77e, 0x7a504abd, 0xc8797828, 0xd3248109, 0xe829b31e, 0x211cc65d);
    StepTo(54, MIDDLE, x, 0xd3248109, 0x211cc65d, 0x7a504abd, 0xc8797828, 0x20e302e8, 0xa290d6ce);
    StepTo(55, MIDDLE, x, 0xc8797828, 0xa290d6ce, 0x211cc65d, 0x7a504abd, 0x06d237c5, 0x9b31b114);
    StepTo(56, MIDDLE, x, 0x7a504abd, 0x9b31b114, 0xa290d6ce, 0x211cc65d, 0x675c3884, 0x723fd22d);
    StepTo(57, MIDDLE, x, 0x211cc65d, 0x723fd22d, 0x9b31b114, 0xa290d6ce, 0x0397f766, 0xd21d6a3b);
    StepTo(58, MIDDLE, x, 0xa290d6ce, 0xd21d6a3b, 0x723fd22d, 0x9b31b114, 0xca72d6b8, 0x3d79cf74);
    StepTo(59, MIDDLE, x, 0x9b31b114, 0x3d79cf74, 0xd21d6a3b, 0x723fd22d, 0x591e4882, 0x4dc4f33d);
    StepTo(60, MIDDLE, x, 0x723fd22d, 0x4dc4f33d, 0x3d79cf74, 0xd21d6a3b, 0xba3289b8, 0xda67616b);
    StepTo(61, MIDDLE, x, 0xd21d6a3b, 0xda67616b, 0x4dc4f33d, 0x3d79cf74, 0x267bdf46, 0xc9e47a04);
    StepTo(62, MIDDLE, x, 0x3d79cf74, 0xc9e47a04, 0xda67616b, 0x4dc4f33d, 0xc01ef60f, 0x44ec5a13);
    StepTo(63, MIDDLE, x, 0x4dc4f33d, 0x44ec5a13, 0xc9e47a04, 0xda67616b, 0xe5646b61, 0xb12906a0);
  }

  lemma SecondSum()
    ensures MIDDLE == R(0xc88d8bec, 0xa4a0dc8b, 0xe9edef99, 0xb0d18d1d)
    ensures Sum(MIDDLE, R(0xda67616b, 0xb12906a0, 0x44ec5a13, 0xc9e47a04))
         == R(0xa2f4ed57, 0x55c9e32b, 0x2eda49ac, 0x7ab60721)
  {
  }

  lemma SecondCompressed(x: seq<u32>)
    requires IsSecondBlock(x)
    ensures Compress(MIDDLE, x) == R(0xa2f4ed57, 0x55c9e32b, 0x2eda49ac, 0x7ab60721)
  {
    hide Steps, Compress, R, Sum, START, MIDDLE;
    SecondSum();
    StepsStart(MIDDLE, x);
    SecondSteps0(x);
    SecondSteps16(x);
    SecondSteps32(x);
    SecondSteps48(x);
    CompressIsSum(MIDDLE, x);
  }

  // ---- the digests ----

  /** The empty message and "abc" are one block each. */
  lemma OneBlock(m: bytes)
    requires |m| < 4
    ensures |Pad(m)| == 64
    ensures Digest(m) == Output(Compress(START, BlockWords(Pad(m))))
    ensures Pad(m)[..|m|] == m && Pad(m)[|m|] as int == 0x80 && Pad(m)[56] as int == 8 * |m|
    ensures forall i :: |m| < i < 64 && i != 56 ==> Pad(m)[i] == NUL
  {
    hide Compress, BlockWords, StateAfter, Pad;
    PadInOneBlock(m, 0, |m|);
    assert m[64 * 0..] == m && Pad(m)[64 * 0..] == Pad(m);
    SmallLength(|m|);
    OneBlockState(Pad(m));
  }

  lemma SmallLength(n: nat)
    requires n < 32
    ensures LengthBytes(n) == [(8 * n) as char, NUL, NUL, NUL, NUL, NUL, NUL, NUL]
  {
  }

  lemma OneBlockState(p: bytes)
    requires |p| == 64
    ensures StateAfter(p, 1) == Compress(START, BlockWords(p))
  {
    hide Compress, BlockWords;
    assert p[64 * 0..64 * 1] == p;
    assert StateAfter(p, 0) == START;
  }

  /** Word i of a block, from its four bytes. */
  lemma WordIs(p: bytes, i: nat, b0: int, b1: int, b2: int, b3: int)
    requires |p| == 64 && i < 16
    requires p[4 * i] as int == b0 && p[4 * i + 1] as int == b1
    requires p[4 * i + 2] as int == b2 && p[4 * i + 3] as int == b3
    ensures BlockWords(p)[i] == b0 + 0x100 * b1 + 0x1_0000 * b2 + 0x100_0000 * b3
  {
  }

  lemma ZeroWords(p: bytes, from0: nat, to: nat)
    requires |p| == 64 && from0 <= to <= 16 && forall k :: 4 * from0 <= k < 4 * to ==> p[k] == NUL
    ensures forall i :: from0 <= i < to ==> BlockWords(p)[i] == 0
  {
    hide BlockWords;
    forall i | from0 <= i < to ensures BlockWords(p)[i] == 0 {
      WordIs(p, i, 0, 0, 0, 0);
    }
  }

  /** Four bytes of a digest. */
  lemma OctetsOf(w: u32, b0: int, b1: int, b2: int, b3: int)
    requires 0 <= b0 < 256 && 0 <= b1 < 256 && 0 <= b2 < 256 && 0 <= b3 < 256
    requires w == b0 + 0x100 * b1 + 0x1_0000 * b2 + 0x100_0000 * b3
    ensures Le32(w) == [b0 as char, b1 as char, b2 as char, b3 as char]
  {
    FromLe32RoundTrip(b0 as char, b1 as char, b2 as char, b3 as char);
  }


  lemma EmptyBlock(p: bytes)
    requires |p| == 64 && p[0] as int == 0x80 && forall i :: 0 < i < 64 ==> p[i] == NUL
    ensures IsEmptyBlock(BlockWords(p))
  {
    hide BlockWords;
    WordIs(p, 0, 0x80, 0, 0, 0);
    ZeroWords(p, 1, 16);
  }

  lemma AbcBlock(p: bytes)
    requires |p| == 64 && p[..3] == "abc" && p[3] as int == 0x80 && p[56] as int == 24
    requires forall i :: 3 < i < 64 && i != 56 ==> p[i] == NUL
    ensures IsAbcBlock(BlockWords(p))
  {
    hide BlockWords;
    assert p[0] == p[..3][0] == 'a' && p[1] == p[..3][1] == 'b' && p[2] == p[..3][2] == 'c';
    WordIs(p, 0, 'a' as int, 'b' as int, 'c' as int, 0x80);
    ZeroWords(p, 1, 14);
    WordIs(p, 14, 24, 0, 0, 0);
    ZeroWords(p, 15, 16);
  }

  /** d41d8cd98f00b204e9800998ecf8427e */
  lemma DigestOfNothing()
    ensures Digest([])
         == Octets([0xd4, 0x1d, 0x8c, 0xd9, 0x8f, 0x00, 0xb2, 0x04, 0xe9, 0x80, 0x09, 0x98, 0xec, 0xf8, 0x42, 0x7e])
  {
    hide Compress, BlockWords, Pad, Digest, IsEmptyBlock, Le32;
    OneBlock([]);
    EmptyBlock(Pad([]));
    EmptyCompressed(BlockWords(Pad([])));
    OctetsOf(0xd98c1dd4, 0xd4, 0x1d, 0x8c, 0xd9);
    OctetsOf(0x04b2008f, 0x8f, 0x00, 0xb2, 0x04);
    OctetsOf(0x980980e9, 0xe9, 0x80, 0x09, 0x98);
    OctetsOf(0x7e42f8ec, 0xec, 0xf8, 0x42, 0x7e);
  }

  /** 900150983cd24fb0d6963f7d28e17f72 */
  lemma DigestOfAbc()
    ensures Digest("abc")
         == Octets([0x90, 0x01, 0x50, 0x98, 0x3c, 0xd2, 0x4f, 0xb0, 0xd6, 0x96, 0x3f, 0x7d, 0x28, 0xe1, 0x7f, 0x72])
  {
    hide Compress, BlockWords, Pad, Digest, IsAbcBlock, Le32;
    OneBlock("abc");
    AbcBlock(Pad("abc"));
    AbcCompressed(BlockWords(Pad("abc")));
    OctetsOf(0x98500190, 0x90, 0x01, 0x50, 0x98);
    OctetsOf(0xb04fd23c, 0x3c, 0xd2, 0x4f, 0xb0);
    OctetsOf(0x7d3f96d6, 0xd6, 0x96, 0x3f, 0x7d);
    OctetsOf(0x727fe128, 0x28, 0xe1, 0x7f, 0x72);
  }

  // ---- two blocks ----

  /** "1234567890", eight times. */
  const EIGHTY: bytes := seq(80, i => ((i + 1) % 10 + '0' as int) as char)

  lemma PadOfEighty()
    ensures |Pad(EIGHTY)| == 128 && Pad(EIGHTY)[..64] == EIGHTY[..64]
    ensures Pad(EIGHTY)[64..80] == EIGHTY[64..]
    ensures Pad(EIGHTY)[80] as int == 0x80 && Pad(EIGHTY)[120] as int == 0x80 && Pad(EIGHTY)[121] as int == 2
    ensures forall i :: 80 < i < 128 && i != 120 && i != 121 ==> Pad(EIGHTY)[i] == NUL
  {
    PadInOneBlock(EIGHTY, 1, 16);
    LengthOfEighty();
    var p := Pad(EIGHTY);
    assert EIGHTY <= p;
    hide Pad, EIGHTY;
    assert forall i :: 64 <= i < 128 ==> p[i] == p[64..][i - 64];
  }

  lemma LengthOfEighty()
    ensures LengthBytes(80) == [0x80 as char, 2 as char, NUL, NUL, NUL, NUL, NUL, NUL]
  {
  }

  predicate IsDigits(p: bytes, n: nat, offset: nat) {
    n <= |p| && forall k :: 0 <= k < n ==> p[k] as int == (k + 1 + offset) % 10 + '0' as int
  }

  lemma FirstIsFirst(p: bytes)
    requires |p| == 64 && IsDigits(p, 64, 0)
    ensures IsFirstBlock(BlockWords(p))
  {
    hide BlockWords;
    WordIs(p, 0, 0x31, 0x32, 0x33, 0x34);
    WordIs(p, 1, 0x35, 0x36, 0x37, 0x38);
    WordIs(p, 2, 0x39, 0x30, 0x31, 0x32);
    WordIs(p, 3, 0x33, 0x34, 0x35, 0x36);
    WordIs(p, 4, 0x37, 0x38, 0x39, 0x30);
    WordIs(p, 5, 0x31, 0x32, 0x33, 0x34);
    WordIs(p, 6, 0x35, 0x36, 0x37, 0x38);
    WordIs(p, 7, 0x39, 0x30, 0x31, 0x32);
    WordIs(p, 8, 0x33, 0x34, 0x35, 0x36);
    WordIs(p, 9, 0x37, 0x38, 0x39, 0x30);
    WordIs(p, 10, 0x31, 0x32, 0x33, 0x34);
    WordIs(p, 11, 0x35, 0x36, 0x37, 0x38);
    WordIs(p, 12, 0x39, 0x30, 0x31, 0x32);
    WordIs(p, 13, 0x33, 0x34, 0x35, 0x36);
    WordIs(p, 14, 0x37, 0x38, 0x39, 0x30);
    WordIs(p, 15, 0x31, 0x32, 0x33, 0x34);
  }

  lemma SecondIsSecond(p: bytes)
    requires |p| == 64 && IsDigits(p, 16, 4) && p[16] as int == 0x80 && p[56] as int == 0x80 && p[57] as int == 2
    requires forall i :: 16 < i < 64 && i != 56 && i != 57 ==> p[i] == NUL
    ensures IsSecondBlock(BlockWords(p))
  {
    hide BlockWords;
    WordIs(p, 0, 0x35, 0x36, 0x37, 0x38);
    WordIs(p, 1, 0x39, 0x30, 0x31, 0x32);
    WordIs(p, 2, 0x33, 0x34, 0x35, 0x36);
    WordIs(p, 3, 0x37, 0x38, 0x39, 0x30);
    WordIs(p, 4, 0x80, 0, 0, 0);
    ZeroWords(p, 5, 14);
    WordIs(p, 14, 0x80, 2, 0, 0);
    ZeroWords(p, 15, 16);
  }

  lemma BlocksOfEighty()
    ensures |Pad(EIGHTY)| == 128
    ensures IsFirstBlock(BlockWords(Pad(EIGHTY)[..64])) && IsSecondBlock(BlockWords(Pad(EIGHTY)[64..]))
  {
    PadOfEighty();
    hide Pad, BlockWords, IsFirstBlock, IsSecondBlock;
    var first, second := Pad(EIGHTY)[..64], Pad(EIGHTY)[64..];
    assert IsDigits(first, 64, 0);
    FirstIsFirst(first);
    assert second[..16] == EIGHTY[64..];
    assert forall k :: 0 <= k < 16 ==> second[k] == second[..16][k];
    SecondIsSecond(second);
  }

  lemma TwoBlocks(p: bytes)
    requires |p| == 128
    ensures StateAfter(p, 2) == Compress(Compress(START, BlockWords(p[..64])), BlockWords(p[64..]))
  {
    hide Compress, BlockWords;
    assert p[64 * 0..64 * 1] == p[..64] && p[64 * 1..64 * 2] == p[64..];
    assert StateAfter(p, 0) == START;
  }

  lemma DigestOfTwo(m: bytes)
    requires |Pad(m)| == 128
    ensures Digest(m)
         == Output(Compress(Compress(START, BlockWords(Pad(m)[..64])), BlockWords(Pad(m)[64..])))
  {
    hide Compress, BlockWords, Pad, StateAfter;
    TwoBlocks(Pad(m));
  }

  /** 57edf4a22be3c955ac49da2e2107b67a */
  lemma DigestOfEighty()
    ensures Digest(EIGHTY)
         == Octets([0x57, 0xed, 0xf4, 0xa2, 0x2b, 0xe3, 0xc9, 0x55, 0xac, 0x49, 0xda, 0x2e, 0x21, 0x07, 0xb6, 0x7a])
  {
    hide Compress, BlockWords, Pad, Digest, IsFirstBlock, IsSecondBlock, StateAfter, Le32, EIGHTY;
    BlocksOfEighty();
    DigestOfTwo(EIGHTY);
    FirstCompressed(BlockWords(Pad(EIGHTY)[..64]));
    SecondCompressed(BlockWords(Pad(EIGHTY)[64..]));
    OctetsOf(0xa2f4ed57, 0x57, 0xed, 0xf4, 0xa2);
    OctetsOf(0x55c9e32b, 0x2b, 0xe3, 0xc9, 0x55);
    OctetsOf(0x2eda49ac, 0xac, 0x49, 0xda, 0x2e);
    OctetsOf(0x7ab60721, 0x21, 0x07, 0xb6, 0x7a);
  }
}
