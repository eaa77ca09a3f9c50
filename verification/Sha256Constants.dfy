/** What the numbers of src/base/hash_libtomcrypt.cpp are: sections 4.1.2, 4.2.2 and 5.3.3 of FIPS 180-4. */
module Sha256Constants {
  import opened Numbers
  import opened Primes
  import opened Sha256

  // ---------------------------------------------------------------------------------------------
  // The first 64 primes
  // ---------------------------------------------------------------------------------------------

  const P0: seq<nat> := [2, 3, 5, 7, 11, 13, 17, 19]
  const P1: seq<nat> := [23, 29, 31, 37, 41, 43, 47, 53]
  const P2: seq<nat> := [59, 61, 67, 71, 73, 79, 83, 89]
  const P3: seq<nat> := [97, 101, 103, 107, 109, 113, 127, 131]
  const P4: seq<nat> := [137, 139, 149, 151, 157, 163, 167, 173]
  const P5: seq<nat> := [179, 181, 191, 193, 197, 199, 211, 223]
  const P6: seq<nat> := [227, 229, 233, 239, 241, 251, 257, 263]
  const P7: seq<nat> := [269, 271, 277, 281, 283, 293, 307, 311]

  const PRIMES: seq<nat> := P0 + P1 + P2 + P3 + P4 + P5 + P6 + P7

  ghost predicate RowInOrder(row: seq<nat>, next: nat) {
    |row| == 8 && Consecutive(row[7], next) && forall i :: 0 <= i < 7 ==> Consecutive(row[i], row[i + 1])
  }

  lemma PrimeRow0()
    ensures RowInOrder(P0, P1[0])
  {
    hide Consecutive;
    Follows(2, 3);
    Follows(3, 5);
    Follows(5, 7);
    Follows(7, 11);
    Follows(11, 13);
    Follows(13, 17);
    Follows(17, 19);
    Follows(19, 23);
  }

  lemma PrimeRow1()
    ensures RowInOrder(P1, P2[0])
  {
    hide Consecutive;
    Follows(23, 29);
    Follows(29, 31);
    Follows(31, 37);
    Follows(37, 41);
    Follows(41, 43);
    Follows(43, 47);
    Follows(47, 53);
    Follows(53, 59);
  }

  lemma PrimeRow2()
    ensures RowInOrder(P2, P3[0])
  {
    hide Consecutive;
    Follows(59, 61);
    Follows(61, 67);
    Follows(67, 71);
    Follows(71, 73);
    Follows(73, 79);
    Follows(79, 83);
    Follows(83, 89);
    Follows(89, 97);
  }

  lemma PrimeRow3()
    ensures RowInOrder(P3, P4[0])
  {
    hide Consecutive;
    Follows(97, 101);
    Follows(101, 103);
    Follows(103, 107);
    Follows(107, 109);
    Follows(109, 113);
    Follows(113, 127);
    Follows(127, 131);
    Follows(131, 137);
  }

  lemma PrimeRow4()
    ensures RowInOrder(P4, P5[0])
  {
    hide Consecutive;
    Follows(137, 139);
    Follows(139, 149);
    Follows(149, 151);
    Follows(151, 157);
    Follows(157, 163);
    Follows(163, 167);
    Follows(167, 173);
    Follows(173, 179);
  }

  lemma PrimeRow5()
    ensures RowInOrder(P5, P6[0])
  {
    hide Consecutive;
    Follows(179, 181);
    Follows(181, 191);
    Follows(191, 193);
    Follows(193, 197);
    Follows(197, 199);
    Follows(199, 211);
    Follows(211, 223);
    Follows(223, 227);
  }

  lemma PrimeRow6()
    ensures RowInOrder(P6, P7[0])
  {
    hide Consecutive;
    Follows(227, 229);
    Follows(229, 233);
    Follows(233, 239);
    Follows(239, 241);
    Follows(241, 251);
    Follows(251, 257);
    Follows(257, 263);
    Follows(263, 269);
  }

  lemma PrimeRow7()
    ensures RowInOrder(P7, 313)
  {
    hide Consecutive;
    Follows(269, 271);
    Follows(271, 277);
    Follows(277, 281);
    Follows(281, 283);
    Follows(283, 293);
    Follows(293, 307);
    Follows(307, 311);
    Follows(311, 313);
  }

  // ---------------------------------------------------------------------------------------------
  // Their roots
  // ---------------------------------------------------------------------------------------------

  const TWO32: nat := 0x1_0000_0000

  /** `n` is the cube root of `p`, cut behind 32 binary places. */
  predicate IsCubeRoot(p: nat, n: nat) {
    n * n * n <= p * 0x1_0000_0000_0000_0000_0000_0000 < (n + 1) * (n + 1) * (n + 1)
  }

  predicate IsSquareRoot(p: nat, n: nat) {
    n * n <= p * 0x1_0000_0000_0000_0000 < (n + 1) * (n + 1)
  }

  /** `w` is the first 32 bits of the fractional part of the cube root of `p`. */
  ghost predicate CubeRootBits(p: nat, w: word) {
    exists n: nat :: IsCubeRoot(p, n) && n % TWO32 == w as nat
  }

  ghost predicate SquareRootBits(p: nat, w: word) {
    exists n: nat :: IsSquareRoot(p, n) && n % TWO32 == w as nat
  }

  lemma CubeRoot(p: nat, n: nat, w: word)
    requires IsCubeRoot(p, n) && n % TWO32 == w as nat
    ensures CubeRootBits(p, w)
  {
  }

  lemma SquareRoot(p: nat, n: nat, w: word)
    requires IsSquareRoot(p, n) && n % TWO32 == w as nat
    ensures SquareRootBits(p, w)
  {
  }

  lemma CubeRow0()
    ensures forall i :: 0 <= i < 8 ==> CubeRootBits(P0[i], K0[i])
  {
    hide CubeRootBits;
    CubeRoot(2, 0x1_428a2f98, K0[0]);
    CubeRoot(3, 0x1_71374491, K0[1]);
    CubeRoot(5, 0x1_b5c0fbcf, K0[2]);
    CubeRoot(7, 0x1_e9b5dba5, K0[3]);
    CubeRoot(11, 0x2_3956c25b, K0[4]);
    CubeRoot(13, 0x2_59f111f1, K0[5]);
    CubeRoot(17, 0x2_923f82a4, K0[6]);
    CubeRoot(19, 0x2_ab1c5ed5, K0[7]);
  }

  lemma CubeRow1()
    ensures forall i :: 0 <= i < 8 ==> CubeRootBits(P1[i], K1[i])
  {
    hide CubeRootBits;
    CubeRoot(23, 0x2_d807aa98, K1[0]);
    CubeRoot(29, 0x3_12835b01, K1[1]);
    CubeRoot(31, 0x3_243185be, K1[2]);
    CubeRoot(37, 0x3_550c7dc3, K1[3]);
    CubeRoot(41, 0x3_72be5d74, K1[4]);
    CubeRoot(43, 0x3_80deb1fe, K1[5]);
    CubeRoot(47, 0x3_9bdc06a7, K1[6]);
    CubeRoot(53, 0x3_c19bf174, K1[7]);
  }

  lemma CubeRow2()
    ensures forall i :: 0 <= i < 8 ==> CubeRootBits(P2[i], K2[i])
  {
    hide CubeRootBits;
    CubeRoot(59, 0x3_e49b69c1, K2[0]);
    CubeRoot(61, 0x3_efbe4786, K2[1]);
    CubeRoot(67, 0x4_0fc19dc6, K2[2]);
    CubeRoot(71, 0x4_240ca1cc, K2[3]);
    CubeRoot(73, 0x4_2de92c6f, K2[4]);
    CubeRoot(79, 0x4_4a7484aa, K2[5]);
    CubeRoot(83, 0x4_5cb0a9dc, K2[6]);
    CubeRoot(89, 0x4_76f988da, K2[7]);
  }

  lemma CubeRow3()
    ensures forall i :: 0 <= i < 8 ==> CubeRootBits(P3[i], K3[i])
  {
    hide CubeRootBits;
    CubeRoot(97, 0x4_983e5152, K3[0]);
    CubeRoot(101, 0x4_a831c66d, K3[1]);
    CubeRoot(103, 0x4_b00327c8, K3[2]);
    CubeRoot(107, 0x4_bf597fc7, K3[3]);
    CubeRoot(109, 0x4_c6e00bf3, K3[4]);
    CubeRoot(113, 0x4_d5a79147, K3[5]);
    CubeRoot(127, 0x5_06ca6351, K3[6]);
    CubeRoot(131, 0x5_14292967, K3[7]);
  }

  lemma CubeRow4()
    ensures forall i :: 0 <= i < 8 ==> CubeRootBits(P4[i], K4[i])
  {
    hide CubeRootBits;
    CubeRoot(137, 0x5_27b70a85, K4[0]);
    CubeRoot(139, 0x5_2e1b2138, K4[1]);
    CubeRoot(149, 0x5_4d2c6dfc, K4[2]);
    CubeRoot(151, 0x5_53380d13, K4[3]);
    CubeRoot(157, 0x5_650a7354, K4[4]);
    CubeRoot(163, 0x5_766a0abb, K4[5]);
    CubeRoot(167, 0x5_81c2c92e, K4[6]);
    CubeRoot(173, 0x5_92722c85, K4[7]);
  }

  lemma CubeRow5()
    ensures forall i :: 0 <= i < 8 ==> CubeRootBits(P5[i], K5[i])
  {
    hide CubeRootBits;
    CubeRoot(179, 0x5_a2bfe8a1, K5[0]);
    CubeRoot(181, 0x5_a81a664b, K5[1]);
    CubeRoot(191, 0x5_c24b8b70, K5[2]);
    CubeRoot(193, 0x5_c76c51a3, K5[3]);
    CubeRoot(197, 0x5_d192e819, K5[4]);
    CubeRoot(199, 0x5_d6990624, K5[5]);
    CubeRoot(211, 0x5_f40e3585, K5[6]);
    CubeRoot(223, 0x6_106aa070, K5[7]);
  }

  lemma CubeRow6()
    ensures forall i :: 0 <= i < 8 ==> CubeRootBits(P6[i], K6[i])
  {
    hide CubeRootBits;
    CubeRoot(227, 0x6_19a4c116, K6[0]);
    CubeRoot(229, 0x6_1e376c08, K6[1]);
    CubeRoot(233, 0x6_2748774c, K6[2]);
    CubeRoot(239, 0x6_34b0bcb5, K6[3]);
    CubeRoot(241, 0x6_391c0cb3, K6[4]);
    CubeRoot(251, 0x6_4ed8aa4a, K6[5]);
    CubeRoot(257, 0x6_5b9cca4f, K6[6]);
    CubeRoot(263, 0x6_682e6ff3, K6[7]);
  }

  lemma CubeRow7()
    ensures forall i :: 0 <= i < 8 ==> CubeRootBits(P7[i], K7[i])
  {
    hide CubeRootBits;
    CubeRoot(269, 0x6_748f82ee, K7[0]);
    CubeRoot(271, 0x6_78a5636f, K7[1]);
    CubeRoot(277, 0x6_84c87814, K7[2]);
    CubeRoot(281, 0x6_8cc70208, K7[3]);
    CubeRoot(283, 0x6_90befffa, K7[4]);
    CubeRoot(293, 0x6_a4506ceb, K7[5]);
    CubeRoot(307, 0x6_bef9a3f7, K7[6]);
    CubeRoot(311, 0x6_c67178f2, K7[7]);
  }

  /** The initial hash value is the first 32 bits of the fractional parts of the square roots of the first 8 primes. */
  lemma InitialHashIsSquareRoots(i: nat)
    requires i < 8
    ensures PRIMES[i] == P0[i] && SquareRootBits(P0[i], H0[i])
  {
    hide SquareRootBits;
    SquareRoot(2, 0x1_6a09e667, H0[0]);
    SquareRoot(3, 0x1_bb67ae85, H0[1]);
    SquareRoot(5, 0x2_3c6ef372, H0[2]);
    SquareRoot(7, 0x2_a54ff53a, H0[3]);
    SquareRoot(11, 0x3_510e527f, H0[4]);
    SquareRoot(13, 0x3_9b05688c, H0[5]);
    SquareRoot(17, 0x4_1f83d9ab, H0[6]);
    SquareRoot(19, 0x4_5be0cd19, H0[7]);
  }

  function Rows<T>(r: seq<seq<T>>): seq<T>
    requires |r| == 8
  {
    r[0] + r[1] + r[2] + r[3] + r[4] + r[5] + r[6] + r[7]
  }

  lemma RowAt<T>(r: seq<seq<T>>, t: nat)
    requires t < 64 && |r| == 8 && forall i :: 0 <= i < 8 ==> |r[i]| == 8
    ensures |Rows(r)| == 64 && Rows(r)[t] == r[t / 8][t % 8]
  {
    var i, j := t / 8, t % 8;
    assert t == 8 * i + j;
  }

  /** The table of primes begins with 2 and leaves none out. */
  lemma PrimesInOrder(t: nat)
    requires t < 63
    ensures |PRIMES| == 64 && PRIMES[0] == 2 && Consecutive(PRIMES[t], PRIMES[t + 1])
    ensures !IsPrime(0) && !IsPrime(1)
  {
    hide Consecutive;
    var rows := [P0, P1, P2, P3, P4, P5, P6, P7];
    assert PRIMES == Rows(rows);
    RowAt(rows, t);
    RowAt(rows, t + 1);
    PrimeRow0();
    PrimeRow1();
    PrimeRow2();
    PrimeRow3();
    PrimeRow4();
    PrimeRow5();
    PrimeRow6();
    PrimeRow7();
    hide Rows, RowInOrder;
  }

  lemma ConstantAt(t: nat)
    requires t < 64
    ensures Constant(t) == [K0, K1, K2, K3, K4, K5, K6, K7][t / 8][t % 8]
  {
    var rows := [K0, K1, K2, K3, K4, K5, K6, K7];
    assert K == Rows(rows);
    RowAt(rows, t);
    hide Rows;
  }

  /** Constant `t` is the first 32 bits of the fractional part of the cube root of prime number `t`. */
  lemma ConstantsAreCubeRoots(t: nat)
    requires t < 64
    ensures |PRIMES| == 64 && CubeRootBits(PRIMES[t], Constant(t))
  {
    hide CubeRootBits;
    var primes, rows := [P0, P1, P2, P3, P4, P5, P6, P7], [K0, K1, K2, K3, K4, K5, K6, K7];
    assert PRIMES == Rows(primes) && K == Rows(rows);
    RowAt(primes, t);
    RowAt(rows, t);
    CubeRow0();
    CubeRow1();
    CubeRow2();
    CubeRow3();
    CubeRow4();
    CubeRow5();
    CubeRow6();
    CubeRow7();
    hide Rows;
  }

  // ---------------------------------------------------------------------------------------------
  // The word functions, bit by bit
  // ---------------------------------------------------------------------------------------------

  /** Bit `i` of a word, counted from the least significant. */
  predicate Bit(x: word, i: word)
    requires i < 32
  {
    (x >> i) & 1 == 1
  }

  /** Bit `i + n`, going on at the other end. */
  predicate BitBehind(x: word, i: word, n: word)
    requires i < 32 && n < 32
  {
    Bit(x, (i + n) & 31)
  }

  lemma Rotated2(x: word, i: word)
    requires i < 32
    ensures Bit(Rot(x, 2), i) == BitBehind(x, i, 2)
  {
  }

  lemma Rotated13(x: word, i: word)
    requires i < 32
    ensures Bit(Rot(x, 13), i) == BitBehind(x, i, 13)
  {
  }

  lemma Rotated22(x: word, i: word)
    requires i < 32
    ensures Bit(Rot(x, 22), i) == BitBehind(x, i, 22)
  {
  }

  lemma Rotated6(x: word, i: word)
    requires i < 32
    ensures Bit(Rot(x, 6), i) == BitBehind(x, i, 6)
  {
  }

  lemma Rotated11(x: word, i: word)
    requires i < 32
    ensures Bit(Rot(x, 11), i) == BitBehind(x, i, 11)
  {
  }

  lemma Rotated25(x: word, i: word)
    requires i < 32
    ensures Bit(Rot(x, 25), i) == BitBehind(x, i, 25)
  {
  }

  lemma Rotated7(x: word, i: word)
    requires i < 32
    ensures Bit(Rot(x, 7), i) == BitBehind(x, i, 7)
  {
  }

  lemma Rotated18(x: word, i: word)
    requires i < 32
    ensures Bit(Rot(x, 18), i) == BitBehind(x, i, 18)
  {
  }

  lemma Rotated17(x: word, i: word)
    requires i < 32
    ensures Bit(Rot(x, 17), i) == BitBehind(x, i, 17)
  {
  }

  lemma Rotated19(x: word, i: word)
    requires i < 32
    ensures Bit(Rot(x, 19), i) == BitBehind(x, i, 19)
  {
  }

  /** Shifted out bits are not replaced. */
  lemma Shifted3(x: word, i: word)
    requires i < 32
    ensures Bit(Sh(x, 3), i) <==> i < 29 && BitBehind(x, i, 3)
  {
  }

  lemma Shifted10(x: word, i: word)
    requires i < 32
    ensures Bit(Sh(x, 10), i) <==> i < 22 && BitBehind(x, i, 10)
  {
  }

  lemma WordXorBit(x: word, y: word, i: word)
    requires i < 32
    ensures Bit(x ^ y, i) == (Bit(x, i) != Bit(y, i))
  {
  }

  lemma XorBit(x: word, y: word, i: word)
    requires i < 32
    ensures Bit(Xor(x, y), i) == (Bit(x, i) != Bit(y, i))
  {
    hide Bit;
    WordXorBit(x, y, i);
  }

  lemma XorBits(x: word, y: word, z: word, i: word)
    requires i < 32
    ensures Bit(Xor(Xor(x, y), z), i) == ((Bit(x, i) != Bit(y, i)) != Bit(z, i))
  {
    hide Bit, Xor;
    XorBit(x, y, i);
    XorBit(Xor(x, y), z, i);
  }

  /** The function Sigma 0 of section 4.1.2, bit by bit. */
  lemma Sigma0Bits(x: word, i: word)
    requires i < 32
    ensures Bit(Sigma0(x), i) == ((BitBehind(x, i, 2) != BitBehind(x, i, 13)) != BitBehind(x, i, 22))
  {
    hide Xor, Rot, Sh, Bit, BitBehind;
    XorBits(Rot(x, 2), Rot(x, 13), Rot(x, 22), i);
    Rotated2(x, i);
    Rotated13(x, i);
    Rotated22(x, i);
  }

  /** The function Sigma 1 of section 4.1.2, bit by bit. */
  lemma Sigma1Bits(x: word, i: word)
    requires i < 32
    ensures Bit(Sigma1(x), i) == ((BitBehind(x, i, 6) != BitBehind(x, i, 11)) != BitBehind(x, i, 25))
  {
    hide Xor, Rot, Sh, Bit, BitBehind;
    XorBits(Rot(x, 6), Rot(x, 11), Rot(x, 25), i);
    Rotated6(x, i);
    Rotated11(x, i);
    Rotated25(x, i);
  }

  /** The function sigma 0 of section 4.1.2, bit by bit. */
  lemma Gamma0Bits(x: word, i: word)
    requires i < 32
    ensures Bit(Gamma0(x), i) == ((BitBehind(x, i, 7) != BitBehind(x, i, 18)) != (i < 29 && BitBehind(x, i, 3)))
  {
    hide Xor, Rot, Sh, Bit, BitBehind;
    XorBits(Rot(x, 7), Rot(x, 18), Sh(x, 3), i);
    Rotated7(x, i);
    Rotated18(x, i);
    Shifted3(x, i);
  }

  /** The function sigma 1 of section 4.1.2, bit by bit. */
  lemma Gamma1Bits(x: word, i: word)
    requires i < 32
    ensures Bit(Gamma1(x), i) == ((BitBehind(x, i, 17) != BitBehind(x, i, 19)) != (i < 22 && BitBehind(x, i, 10)))
  {
    hide Xor, Rot, Sh, Bit, BitBehind;
    XorBits(Rot(x, 17), Rot(x, 19), Sh(x, 10), i);
    Rotated17(x, i);
    Rotated19(x, i);
    Shifted10(x, i);
  }

  // ---------------------------------------------------------------------------------------------
  // Words and lengths as bytes, most significant byte first
  // ---------------------------------------------------------------------------------------------

  /** A word is stored as the bytes that are loaded as it. */
  lemma LoadOfStore(x: word)
    ensures Load32(Bytes32(x), 0) == x
  {
    Bytes(x);
    Joined(x);
    hide Byte32;
  }

  lemma Bytes(x: word)
    ensures Byte32(x, 0) as word == x >> 24 && Byte32(x, 1) as word == (x >> 16) & 255
    ensures Byte32(x, 2) as word == (x >> 8) & 255 && Byte32(x, 3) as word == x & 255
  {
  }

  lemma Joined(x: word)
    ensures ((x >> 24) << 24) | (((x >> 16) & 255) << 16) | (((x >> 8) & 255) << 8) | (x & 255) == x
  {
  }

  /** Byte `k` of a word in memory is bits 24 - 8 k to 31 - 8 k. */
  lemma LoadedBytes(b: seq<byte>, i: nat)
    requires i + 4 <= |b|
    ensures var x := Load32(b, i);
            && x >> 24 == b[i] as word && (x >> 16) & 0xFF == b[i + 1] as word
            && (x >> 8) & 0xFF == b[i + 2] as word && x & 0xFF == b[i + 3] as word
  {
    hide Byte32;
    Lanes(b[i], b[i + 1], b[i + 2], b[i + 3]);
  }

  lemma Lanes(a: byte, b: byte, c: byte, d: byte)
    ensures var x := ((a as word) << 24) | ((b as word) << 16) | ((c as word) << 8) | (d as word);
            && x >> 24 == a as word && (x >> 16) & 0xFF == b as word
            && (x >> 8) & 0xFF == c as word && x & 0xFF == d as word
  {
  }

  /** The number that bytes stand for, first byte first. */
  function BigEndian(b: seq<byte>): nat {
    if b == [] then 0 else 256 * BigEndian(b[..|b| - 1]) + b[|b| - 1] as nat
  }

  lemma {:induction false} NumberOfBytes(x: nat, k: nat)
    requires k <= 8 && x < UINT64_RANGE
    ensures BigEndian(Store64(x)[..k]) == x / Pow256(8 - k)
  {
    hide Pow256, Byte64;
    if k == 0 {
      NothingLeft(x);
    } else {
      var b := Store64(x)[..k];
      NumberOfBytes(x, k - 1);
      assert b[..k - 1] == Store64(x)[..k - 1];
      LastByte(x, k);
      DigitsOf(x, 8 - k);
    }
  }

  lemma NothingLeft(x: nat)
    requires x < UINT64_RANGE
    ensures x / Pow256(8) == 0 && BigEndian([]) == 0
  {
    assert Pow256(8) == UINT64_RANGE;
  }

  lemma LastByte(x: nat, k: nat)
    requires 0 < k <= 8
    ensures Store64(x)[k - 1] as nat == x / Pow256(8 - k) % 256
  {
    StoredByte(x, k - 1);
    ByteNumber(x, k - 1);
    hide Pow256, Byte64, Store64;
  }

  lemma StoredByte(x: nat, j: nat)
    requires j < 8
    ensures Store64(x)[j] == Byte64(x, j)
  {
    hide Byte64;
  }

  lemma ByteNumber(x: nat, j: nat)
    requires j < 8
    ensures Byte64(x, j) as nat == x / Pow256(7 - j) % 256
  {
    hide Pow256;
    ByteValue(x / Pow256(7 - j) % 256);
  }

  lemma DigitsOf(x: nat, j: nat)
    ensures x / Pow256(j) == 256 * (x / Pow256(j + 1)) + x / Pow256(j) % 256
  {
    DividedTwice(x, Pow256(j));
    hide Pow256;
  }

  lemma DividedTwice(x: nat, m: nat)
    requires m > 0
    ensures x / (256 * m) == x / m / 256
  {
    var q, r := x / m, x % m;
    var a, b := q / 256, q % 256;
    Regroup(a, b, m);
    AtMost(b, m);
    Quotient(x, 256 * m, a, b * m + r);
  }

  lemma Regroup(a: nat, b: nat, m: nat)
    ensures (256 * a + b) * m == a * (256 * m) + b * m
  {
  }

  lemma AtMost(b: nat, m: nat)
    requires b <= 255
    ensures b * m <= 255 * m
  {
    assert (255 - b) * m >= 0;
  }

  lemma Quotient(x: nat, d: nat, a: nat, r: nat)
    requires d > 0 && x == a * d + r && r < d
    ensures x / d == a
  {
    var q := x / d;
    AtLeastOnce(q, a, d);
    AtLeastOnce(a, q, d);
  }

  lemma SplitProduct(q: nat, k: nat, d: nat)
    ensures (q + 1 + k) * d == q * d + d + k * d && k * d >= 0
  {
  }

  lemma AtLeastOnce(q: nat, a: nat, d: nat)
    ensures q < a ==> q * d + d <= a * d
  {
    if q < a {
      SplitProduct(q, a - q - 1, d);
    }
  }

  /** The eight bytes of a length are that length, most significant byte first. */
  lemma LengthStored(x: nat)
    requires x < UINT64_RANGE
    ensures BigEndian(Store64(x)) == x
  {
    NumberOfBytes(x, 8);
    assert Store64(x)[..8] == Store64(x);
  }
}
