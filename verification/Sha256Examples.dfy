/** The worked example of FIPS 180-4 for the three bytes "abc", word by word and round by round. */
module Sha256Examples {
  import opened Bytes
  import opened Sha256

  const MESSAGE: seq<byte> := [0x61, 0x62, 0x63]

  const DIGEST: seq<byte> := [
    0xba, 0x78, 0x16, 0xbf, 0x8f, 0x01, 0xcf, 0xea, 0x41, 0x41, 0x40, 0xde, 0x5d, 0xae, 0x22, 0x23,
    0xb0, 0x03, 0x61, 0xa3, 0x96, 0x17, 0x7a, 0x9c, 0xb4, 0x10, 0xff, 0x61, 0xf2, 0x00, 0x15, 0xad]

  /** The state of which the digest is made. */
  const LAST := State(0xba7816bf, 0x8f01cfea, 0x414140de, 0x5dae2223, 0xb00361a3, 0x96177a9c, 0xb410ff61, 0xf20015ad)

  /** The padded message: one block. */
  const BLOCK: seq<byte> := MESSAGE + [0x80] + Zeros(59) + [24]

  /** The message schedule. */
  function W(t: nat): bv32
  {
    if t < 8 then
      Pick(t, 0x61626380, 0x00000000, 0x00000000, 0x00000000, 0x00000000, 0x00000000, 0x00000000, 0x00000000)
    else if t < 16 then
      Pick(t - 8, 0x00000000, 0x00000000, 0x00000000, 0x00000000, 0x00000000, 0x00000000, 0x00000000, 0x00000018)
    else if t < 24 then
      Pick(t - 16, 0x61626380, 0x000f0000, 0x7da86405, 0x600003c6, 0x3e9d7b78, 0x0183fc00, 0x12dcbfdb, 0xe2e2c38e)
    else if t < 32 then
      Pick(t - 24, 0xc8215c1a, 0xb73679a2, 0xe5bc3909, 0x32663c5b, 0x9d209d67, 0xec8726cb, 0x702138a4, 0xd3b7973b)
    else if t < 40 then
      Pick(t - 32, 0x93f5997f, 0x3b68ba73, 0xaff4ffc1, 0xf10a5c62, 0x0a8b3996, 0x72af830a, 0x9409e33e, 0x24641522)
    else if t < 48 then
      Pick(t - 40, 0x9f47bf94, 0xf0a64f5a, 0x3e246a79, 0x27333ba3, 0x0c4763f2, 0x840abf27, 0x7a290d5d, 0x065c43da)
    else if t < 56 then
      Pick(t - 48, 0xfb3e89cb, 0xcc7617db, 0xb9e66c34, 0xa9993667, 0x84badedd, 0xc21462bc, 0x1487472c, 0xb20f7a99)
    else
      Pick(t - 56, 0xef57b9cd, 0xebe6b238, 0x9fe3095e, 0x78bc8d4b, 0xa43fcf15, 0x668b2ff8, 0xeeaba2cc, 0x12b1edeb)
  }

  /** The values of a, after those of the initial d, c, b, a. */
  function A(t: nat): bv32
  {
    if t < 8 then
      Pick(t, 0xa54ff53a, 0x3c6ef372, 0xbb67ae85, 0x6a09e667, 0x5d6aebcd, 0x5a6ad9ad, 0xc8c347a7, 0xd550f666)
    else if t < 16 then
      Pick(t - 8, 0x04409a6a, 0x2b4209f5, 0xe5030380, 0x85a07b5f, 0x8e04ecb9, 0x8c87346b, 0x4798a3f4, 0xf71fc5a9)
    else if t < 24 then
      Pick(t - 16, 0x87912990, 0xd932eb16, 0xc0645fde, 0xb0fa238e, 0x21da9a9b, 0xc2fbd9d1, 0xfe777bbf, 0xe1f20c33)
    else if t < 32 then
      Pick(t - 24, 0x9dc68b63, 0xc2606d6d, 0xa7a3623f, 0xc5d53d8d, 0x1c2c2838, 0xcde8037d, 0xb62ec4bc, 0x77d37528)
    else if t < 40 then
      Pick(t - 32, 0x363482c9, 0xa0060b30, 0xea992a22, 0x73b33bf5, 0x98e12507, 0xfe604df5, 0xa9a7738c, 0x65a0cfe4)
    else if t < 48 then
      Pick(t - 40, 0x41a65cb1, 0x34df1604, 0x6dc57a8a, 0x79ea687a, 0xd6670766, 0xdf46652f, 0x17aa0dfe, 0x9d4baf93)
    else if t < 56 then
      Pick(t - 48, 0x26628815, 0x72ab4b91, 0xa14c14b0, 0x4172328d, 0x05757ceb, 0xf11bfaa8, 0x7a0508a1, 0x886e7a22)
    else if t < 64 then
      Pick(t - 56, 0x101fd28f, 0xf5702fdb, 0x3ec45cdb, 0x38cc9913, 0xfcd1887b, 0xc062d46f, 0xffb70472, 0xb6ae8fff)
    else
      Pick(t - 64, 0xb85e2ce9, 0x04d24d6c, 0xd39a2165, 0x506e3058, 0x00000000, 0x00000000, 0x00000000, 0x00000000)
  }

  /** The values of e, after those of the initial h, g, f, e. */
  function E(t: nat): bv32
  {
    if t < 8 then
      Pick(t, 0x5be0cd19, 0x1f83d9ab, 0x9b05688c, 0x510e527f, 0xfa2a4622, 0x78ce7989, 0xf92939eb, 0x24e00850)
    else if t < 16 then
      Pick(t - 8, 0x43ada245, 0x714260ad, 0x9b27a401, 0x0c657a79, 0x32ca2d8c, 0x1cc92596, 0x436b23e8, 0x816fd6e9)
    else if t < 24 then
      Pick(t - 16, 0x1e578218, 0x745a48de, 0x0b92f20c, 0x07590dcd, 0x8034229c, 0x846ee454, 0xcc899961, 0xb0638179)
    else if t < 32 then
      Pick(t - 24, 0x8ada8930, 0xe1257970, 0x49f5114a, 0xaa47c347, 0x2823ef91, 0x14383d8e, 0xc74c6516, 0xedffbff8)
    else if t < 40 then
      Pick(t - 32, 0x6112a3b7, 0xade79437, 0x0109ab3a, 0xba591112, 0x9cd9f5f6, 0x59249dd3, 0x085f3833, 0xf4b002d6)
    else if t < 48 then
      Pick(t - 40, 0x0772a26b, 0xa507a53d, 0xf0781bc8, 0x1efbc0a0, 0x26352d63, 0x838b2711, 0xdecd4715, 0xfda24c2e)
    else if t < 56 then
      Pick(t - 48, 0xa80f11f0, 0xb7755da1, 0xd57b94a9, 0xfecf0bc6, 0xbd714038, 0x6e5c390c, 0x52f1ccf7, 0x49231c1e)
    else if t < 64 then
      Pick(t - 56, 0x529e7d00, 0x9f4787c3, 0xe50e1b4f, 0x54cb266b, 0x9b5e906c, 0x7e44008e, 0x6d83bfc6, 0xb21bad3d)
    else
      Pick(t - 64, 0x961f4894, 0x948d25b6, 0xfb121210, 0x5ef50f24, 0x00000000, 0x00000000, 0x00000000, 0x00000000)
  }

  function StateAt(t: nat): State
  {
    State(A(t + 3), A(t + 2), A(t + 1), A(t), E(t + 3), E(t + 2), E(t + 1), E(t))
  }

  ghost predicate ConstantDigits(t: nat, a: nat)
  {
    t < 64 && CubeDigits(RoundConstant(t), a, NthPrime(t))
  }

  function PickNat(k: int, x0: nat, x1: nat, x2: nat, x3: nat, x4: nat, x5: nat, x6: nat, x7: nat): nat
  {
    if k == 0 then x0 else if k == 1 then x1 else if k == 2 then x2 else if k == 3 then x3
    else if k == 4 then x4 else if k == 5 then x5 else if k == 6 then x6 else x7
  }

  /** The first sixty-four primes. */
  function NthPrime(t: nat): nat
  {
    if t < 8 then PickNat(t, 2, 3, 5, 7, 11, 13, 17, 19)
    else if t < 16 then PickNat(t - 8, 23, 29, 31, 37, 41, 43, 47, 53)
    else if t < 24 then PickNat(t - 16, 59, 61, 67, 71, 73, 79, 83, 89)
    else if t < 32 then PickNat(t - 24, 97, 101, 103, 107, 109, 113, 127, 131)
    else if t < 40 then PickNat(t - 32, 137, 139, 149, 151, 157, 163, 167, 173)
    else if t < 48 then PickNat(t - 40, 179, 181, 191, 193, 197, 199, 211, 223)
    else if t < 56 then PickNat(t - 48, 227, 229, 233, 239, 241, 251, 257, 263)
    else PickNat(t - 56, 269, 271, 277, 281, 283, 293, 307, 311)
  }

  /** The first 32 bits behind the point of the square root of p, which is a / 2^32 rounded down. */
  ghost predicate SquareDigits(h: bv32, a: nat, p: nat)
  {
    a % 0x1_0000_0000 == h as int && a * a <= p * 0x1_0000_0000_0000_0000 < (a + 1) * (a + 1)
  }

  /** The same of the cube root. */
  ghost predicate CubeDigits(k: bv32, a: nat, p: nat)
  {
    a % 0x1_0000_0000 == k as int
    && a * a * a <= p * 0x1_0000_0000_0000_0000_0000_0000 < (a + 1) * (a + 1) * (a + 1)
  }

  ghost predicate WordOk(t: nat)
  {
    16 <= t && FipsWord(W(t - 2), W(t - 7), W(t - 15), W(t - 16)) == W(t)
  }

  ghost predicate RoundOk(t: nat)
  {
    t < 64 && Round(StateAt(t), RoundConstant(t), W(t)) == StateAt(t + 1)
  }

  lemma Words16()
    ensures WordOk(16) && WordOk(17) && WordOk(18) && WordOk(19) && WordOk(20) && WordOk(21) && WordOk(22) && WordOk(23)
  {
  }

  lemma Words24()
    ensures WordOk(24) && WordOk(25) && WordOk(26) && WordOk(27) && WordOk(28) && WordOk(29) && WordOk(30) && WordOk(31)
  {
  }

  lemma Words32()
    ensures WordOk(32) && WordOk(33) && WordOk(34) && WordOk(35) && WordOk(36) && WordOk(37) && WordOk(38) && WordOk(39)
  {
  }

  lemma Words40()
    ensures WordOk(40) && WordOk(41) && WordOk(42) && WordOk(43) && WordOk(44) && WordOk(45) && WordOk(46) && WordOk(47)
  {
  }

  lemma Words48()
    ensures WordOk(48) && WordOk(49) && WordOk(50) && WordOk(51) && WordOk(52) && WordOk(53) && WordOk(54) && WordOk(55)
  {
  }

  lemma Words56()
    ensures WordOk(56) && WordOk(57) && WordOk(58) && WordOk(59) && WordOk(60) && WordOk(61) && WordOk(62) && WordOk(63)
  {
  }

  lemma Rounds0()
    ensures RoundOk(0) && RoundOk(1) && RoundOk(2) && RoundOk(3)
  {
  }

  lemma Rounds4()
    ensures RoundOk(4) && RoundOk(5) && RoundOk(6) && RoundOk(7)
  {
  }

  lemma Rounds8()
    ensures RoundOk(8) && RoundOk(9) && RoundOk(10) && RoundOk(11)
  {
  }

  lemma Rounds12()
    ensures RoundOk(12) && RoundOk(13) && RoundOk(14) && RoundOk(15)
  {
  }

  lemma Rounds16()
    ensures RoundOk(16) && RoundOk(17) && RoundOk(18) && RoundOk(19)
  {
  }

  lemma Rounds20()
    ensures RoundOk(20) && RoundOk(21) && RoundOk(22) && RoundOk(23)
  {
  }

  lemma Rounds24()
    ensures RoundOk(24) && RoundOk(25) && RoundOk(26) && RoundOk(27)
  {
  }

  lemma Rounds28()
    ensures RoundOk(28) && RoundOk(29) && RoundOk(30) && RoundOk(31)
  {
  }

  lemma Rounds32()
    ensures RoundOk(32) && RoundOk(33) && RoundOk(34) && RoundOk(35)
  {
  }

  lemma Rounds36()
    ensures RoundOk(36) && RoundOk(37) && RoundOk(38) && RoundOk(39)
  {
  }

  lemma Rounds40()
    ensures RoundOk(40) && RoundOk(41) && RoundOk(42) && RoundOk(43)
  {
  }

  lemma Rounds44()
    ensures RoundOk(44) && RoundOk(45) && RoundOk(46) && RoundOk(47)
  {
  }

  lemma Rounds48()
    ensures RoundOk(48) && RoundOk(49) && RoundOk(50) && RoundOk(51)
  {
  }

  lemma Rounds52()
    ensures RoundOk(52) && RoundOk(53) && RoundOk(54) && RoundOk(55)
  {
  }

  lemma Rounds56()
    ensures RoundOk(56) && RoundOk(57) && RoundOk(58) && RoundOk(59)
  {
  }

  lemma Rounds60()
    ensures RoundOk(60) && RoundOk(61) && RoundOk(62) && RoundOk(63)
  {
  }

  /** Section 5.3.3: the initial state is made of the square roots of the first eight primes. */
  lemma InitialDigits()
    ensures SquareDigits(INITIAL.a, 0x16a09e667, 2)
    ensures SquareDigits(INITIAL.b, 0x1bb67ae85, 3)
    ensures SquareDigits(INITIAL.c, 0x23c6ef372, 5)
    ensures SquareDigits(INITIAL.d, 0x2a54ff53a, 7)
    ensures SquareDigits(INITIAL.e, 0x3510e527f, 11)
    ensures SquareDigits(INITIAL.f, 0x39b05688c, 13)
    ensures SquareDigits(INITIAL.g, 0x41f83d9ab, 17)
    ensures SquareDigits(INITIAL.h, 0x45be0cd19, 19)
  {
  }

  lemma Digits0()
    ensures ConstantDigits(0, 0x1428a2f98) && ConstantDigits(1, 0x171374491)
  {
  }

  lemma Digits2()
    ensures ConstantDigits(2, 0x1b5c0fbcf) && ConstantDigits(3, 0x1e9b5dba5)
  {
  }

  lemma Digits4()
    ensures ConstantDigits(4, 0x23956c25b) && ConstantDigits(5, 0x259f111f1)
    ensures ConstantDigits(6, 0x2923f82a4) && ConstantDigits(7, 0x2ab1c5ed5)
  {
  }

  lemma Digits8()
    ensures ConstantDigits(8, 0x2d807aa98) && ConstantDigits(9, 0x312835b01)
    ensures ConstantDigits(10, 0x3243185be) && ConstantDigits(11, 0x3550c7dc3)
    ensures ConstantDigits(12, 0x372be5d74) && ConstantDigits(13, 0x380deb1fe)
    ensures ConstantDigits(14, 0x39bdc06a7) && ConstantDigits(15, 0x3c19bf174)
  {
  }

  lemma Digits16()
    ensures ConstantDigits(16, 0x3e49b69c1) && ConstantDigits(17, 0x3efbe4786)
    ensures ConstantDigits(18, 0x40fc19dc6) && ConstantDigits(19, 0x4240ca1cc)
    ensures ConstantDigits(20, 0x42de92c6f) && ConstantDigits(21, 0x44a7484aa)
    ensures ConstantDigits(22, 0x45cb0a9dc) && ConstantDigits(23, 0x476f988da)
  {
  }

  lemma Digits24()
    ensures ConstantDigits(24, 0x4983e5152) && ConstantDigits(25, 0x4a831c66d)
    ensures ConstantDigits(26, 0x4b00327c8) && ConstantDigits(27, 0x4bf597fc7)
    ensures ConstantDigits(28, 0x4c6e00bf3) && ConstantDigits(29, 0x4d5a79147)
    ensures ConstantDigits(30, 0x506ca6351) && ConstantDigits(31, 0x514292967)
  {
  }

  lemma Digits32()
    ensures ConstantDigits(32, 0x527b70a85) && ConstantDigits(33, 0x52e1b2138)
    ensures ConstantDigits(34, 0x54d2c6dfc) && ConstantDigits(35, 0x553380d13)
    ensures ConstantDigits(36, 0x5650a7354) && ConstantDigits(37, 0x5766a0abb)
    ensures ConstantDigits(38, 0x581c2c92e) && ConstantDigits(39, 0x592722c85)
  {
  }

  lemma Digits40()
    ensures ConstantDigits(40, 0x5a2bfe8a1) && ConstantDigits(41, 0x5a81a664b)
    ensures ConstantDigits(42, 0x5c24b8b70) && ConstantDigits(43, 0x5c76c51a3)
    ensures ConstantDigits(44, 0x5d192e819) && ConstantDigits(45, 0x5d6990624)
    ensures ConstantDigits(46, 0x5f40e3585) && ConstantDigits(47, 0x6106aa070)
  {
  }

  lemma Digits48()
    ensures ConstantDigits(48, 0x619a4c116) && ConstantDigits(49, 0x61e376c08)
    ensures ConstantDigits(50, 0x62748774c) && ConstantDigits(51, 0x634b0bcb5)
    ensures ConstantDigits(52, 0x6391c0cb3) && ConstantDigits(53, 0x64ed8aa4a)
    ensures ConstantDigits(54, 0x65b9cca4f) && ConstantDigits(55, 0x6682e6ff3)
  {
  }

  lemma Digits56()
    ensures ConstantDigits(56, 0x6748f82ee) && ConstantDigits(57, 0x678a5636f)
    ensures ConstantDigits(58, 0x684c87814) && ConstantDigits(59, 0x68cc70208)
    ensures ConstantDigits(60, 0x690befffa) && ConstantDigits(61, 0x6a4506ceb)
    ensures ConstantDigits(62, 0x6bef9a3f7) && ConstantDigits(63, 0x6c67178f2)
  {
  }

  /** Section 4.2.2: the round constants are made of the cube roots of the first sixty-four primes. */
  lemma ConstantRoots(t: nat)
    requires t < 64
    ensures exists a: nat :: ConstantDigits(t, a)
  {
    hide *;
    if t < 2 {
      Digits0();
    } else if t < 4 {
      Digits2();
    } else if t < 8 {
      Digits4();
    } else if t < 16 {
      Digits8();
    } else if t < 24 {
      Digits16();
    } else if t < 32 {
      Digits24();
    } else if t < 40 {
      Digits32();
    } else if t < 48 {
      Digits40();
    } else if t < 56 {
      Digits48();
    } else {
      Digits56();
    }
  }

  lemma AllWords(t: nat)
    requires 16 <= t < 64
    ensures WordOk(t)
  {
    hide *;
    if t < 24 {
      Words16();
    } else if t < 32 {
      Words24();
    } else if t < 40 {
      Words32();
    } else if t < 48 {
      Words40();
    } else if t < 56 {
      Words48();
    } else {
      Words56();
    }
  }

  lemma AllRounds(t: nat)
    requires t < 64
    ensures RoundOk(t)
  {
    hide *;
    if t < 4 {
      Rounds0();
    } else if t < 8 {
      Rounds4();
    } else if t < 12 {
      Rounds8();
    } else if t < 16 {
      Rounds12();
    } else if t < 20 {
      Rounds16();
    } else if t < 24 {
      Rounds20();
    } else if t < 28 {
      Rounds24();
    } else if t < 32 {
      Rounds28();
    } else if t < 36 {
      Rounds32();
    } else if t < 40 {
      Rounds36();
    } else if t < 44 {
      Rounds40();
    } else if t < 48 {
      Rounds44();
    } else if t < 52 {
      Rounds48();
    } else if t < 56 {
      Rounds52();
    } else if t < 60 {
      Rounds56();
    } else {
      Rounds60();
    }
  }

  lemma FirstWord(t: nat)
    requires t < 16
    ensures BlockWord(BLOCK, t) == W(t)
  {
    hide Word;
    if t == 0 {
      WordIs(0x61, 0x62, 0x63, 0x80, 0x61626380);
    } else if t == 15 {
      WordIs(0, 0, 0, 24, 24);
    } else {
      WordIs(0, 0, 0, 0, 0);
    }
  }

  lemma {:induction false} ScheduleIs(t: nat)
    requires t < 64
    ensures Schedule(BLOCK, t) == W(t)
  {
    hide FipsWord, BlockWord, W;
    if t < 16 {
      FirstWord(t);
    } else {
      ScheduleIs(t - 2);
      ScheduleIs(t - 7);
      ScheduleIs(t - 15);
      ScheduleIs(t - 16);
      AllWords(t);
      ScheduleNext(BLOCK, t);
    }
  }

  lemma {:induction false} RoundsAre(t: nat)
    requires t <= 64
    ensures Rounds(INITIAL, BLOCK, t) == StateAt(t)
  {
    hide Round, Rounds, Schedule, StateAt, W, RoundConstant;
    if t == 0 {
      RoundsStart(INITIAL, BLOCK);
      Start();
    } else {
      RoundsAre(t - 1);
      ScheduleIs(t - 1);
      AllRounds(t - 1);
      RoundsUnfold(INITIAL, BLOCK, t - 1);
    }
  }

  lemma Start()
    ensures StateAt(0) == INITIAL
  {
  }

  lemma OneBlock()
    ensures Pad(MESSAGE) == BLOCK
  {
    assert BigEndian64(24) == Zeros(7) + [24];
    assert Gap(3) == 52;
  }

  lemma Final()
    ensures Sum(INITIAL, StateAt(64)) == LAST
  {
  }

  lemma FinalBytes()
    ensures BigEndian32(0xba7816bf) == [0xba, 0x78, 0x16, 0xbf]
    ensures BigEndian32(0x8f01cfea) == [0x8f, 0x01, 0xcf, 0xea]
    ensures BigEndian32(0x414140de) == [0x41, 0x41, 0x40, 0xde]
    ensures BigEndian32(0x5dae2223) == [0x5d, 0xae, 0x22, 0x23]
    ensures BigEndian32(0xb00361a3) == [0xb0, 0x03, 0x61, 0xa3]
    ensures BigEndian32(0x96177a9c) == [0x96, 0x17, 0x7a, 0x9c]
    ensures BigEndian32(0xb410ff61) == [0xb4, 0x10, 0xff, 0x61]
    ensures BigEndian32(0xf20015ad) == [0xf2, 0x00, 0x15, 0xad]
  {
  }

  lemma Known()
    ensures Digest(LAST) == DIGEST
  {
    hide BigEndian32;
    FinalBytes();
  }

  /** The digest of the example. */
  lemma KnownDigest()
    ensures Hash(MESSAGE) == DIGEST
  {
    hide Rounds, Digest, Sum, StateAt, Pad, INITIAL;
    OneBlock();
    RoundsAre(64);
    assert BLOCK[|BLOCK| - 64..] == BLOCK && BLOCK[..|BLOCK| - 64] == [];
    Final();
    Known();
  }
}
