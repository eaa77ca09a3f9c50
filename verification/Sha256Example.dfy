/** The digest that src/test/hash.cpp expects, eight rounds at a time. */
module Sha256Example {
  import opened Sha256
  import opened Sha256Constants

  /** "The quick brown fox jumps over the lazy dog.", in rows of sixteen bytes. */
  const F0: seq<byte> := [
    0x54, 0x68, 0x65, 0x20, 0x71, 0x75, 0x69, 0x63, 0x6b, 0x20, 0x62, 0x72, 0x6f, 0x77, 0x6e, 0x20]
  const F1: seq<byte> := [
    0x66, 0x6f, 0x78, 0x20, 0x6a, 0x75, 0x6d, 0x70, 0x73, 0x20, 0x6f, 0x76, 0x65, 0x72, 0x20, 0x74]
  const F2: seq<byte> := [0x68, 0x65, 0x20, 0x6c, 0x61, 0x7a, 0x79, 0x20, 0x64, 0x6f, 0x67, 0x2e]
  const FOX: seq<byte> := F0 + F1 + F2

  /** It is padded to one block. */
  const P0: seq<byte> := [0x80, 0x00, 0x00, 0x00]
  const P1: seq<byte> := [0x00, 0x00, 0x00, 0x00, 0x00, 0x00, 0x00, 0x00]
  const P2: seq<byte> := [0x00, 0x00, 0x00, 0x00, 0x00, 0x00, 0x01, 0x60]
  const BLOCK: seq<byte> := FOX + (P0 + P1 + P2)

  const DIGEST: seq<byte> :=
    [0xef, 0x53, 0x7f, 0x25] + [0xc8, 0x95, 0xbf, 0xa7] + [0x82, 0x52, 0x65, 0x29] + [0xa9, 0xb6, 0x3d, 0x97] +
    [0xaa, 0x63, 0x15, 0x64] + [0xd5, 0xd7, 0x89, 0xc2] + [0xb7, 0x65, 0x44, 0x8c] + [0x86, 0x35, 0xfb, 0x6c]

  // ---------------------------------------------------------------------------------------------
  // The message schedule
  // ---------------------------------------------------------------------------------------------

  function NextWord(w2: word, w7: word, w15: word, w16: word): word {
    Add(Add(Add(Gamma1(w2), w7), Gamma0(w15)), w16)
  }

  /** The eight words behind the sixteen in `a` and `b`. */
  function NextRow(a: seq<word>, b: seq<word>): (r: seq<word>)
    requires |a| == |b| == 8
    ensures |r| == 8
  {
    var w0, w1 := NextWord(b[6], b[1], a[1], a[0]), NextWord(b[7], b[2], a[2], a[1]);
    var w2, w3 := NextWord(w0, b[3], a[3], a[2]), NextWord(w1, b[4], a[4], a[3]);
    var w4, w5 := NextWord(w2, b[5], a[5], a[4]), NextWord(w3, b[6], a[6], a[5]);
    var w6, w7 := NextWord(w4, b[7], a[7], a[6]), NextWord(w5, w0, b[0], a[7]);
    [w0, w1, w2, w3, w4, w5, w6, w7]
  }

  /** Eight words of the message schedule from word `n` on. */
  ghost function ScheduleRow(block: seq<byte>, n: nat): (w: seq<word>)
    requires |block| == 64
    ensures |w| == 8
  {
    [Schedule(block, n), Schedule(block, n + 1), Schedule(block, n + 2), Schedule(block, n + 3),
     Schedule(block, n + 4), Schedule(block, n + 5), Schedule(block, n + 6), Schedule(block, n + 7)]
  }

  lemma ScheduleStep(block: seq<byte>, t: nat)
    requires |block| == 64 && t >= 16
    ensures Schedule(block, t) == NextWord(Schedule(block, t - 2), Schedule(block, t - 7), Schedule(block, t - 15),
                                           Schedule(block, t - 16))
  {
    hide Add, Gamma0, Gamma1;
  }

  lemma RowFollows(block: seq<byte>, n: nat)
    requires |block| == 64 && n >= 16
    ensures ScheduleRow(block, n) == NextRow(ScheduleRow(block, n - 16), ScheduleRow(block, n - 8))
  {
    hide NextWord, Schedule;
    ScheduleStep(block, n);
    ScheduleStep(block, n + 1);
    ScheduleStep(block, n + 2);
    ScheduleStep(block, n + 3);
    ScheduleStep(block, n + 4);
    ScheduleStep(block, n + 5);
    ScheduleStep(block, n + 6);
    ScheduleStep(block, n + 7);
  }

  lemma RowWord(block: seq<byte>, n: nat, i: nat)
    requires |block| == 64 && i < 8
    ensures ScheduleRow(block, n)[i] == Schedule(block, n + i)
  {
    hide Schedule;
  }

  const W0: seq<word> := [0x54686520, 0x71756963, 0x6b206272, 0x6f776e20,
                             0x666f7820, 0x6a756d70, 0x73206f76, 0x65722074]
  const W1: seq<word> := [0x6865206c, 0x617a7920, 0x646f672e, 0x80000000,
                             0x00000000, 0x00000000, 0x00000000, 0x00000160]
  const W2: seq<word> := [0x487779e3, 0xc7afa6d3, 0xd5b84c22, 0x2903075a,
                             0x4cd63481, 0x472150c8, 0xbc5de464, 0xce1df1cb]
  const W3: seq<word> := [0x514c49a3, 0x07b08a23, 0x4c642025, 0x212a438d,
                             0xdb26677e, 0x261d6284, 0x8ddc7167, 0x804e2f6a]
  const W4: seq<word> := [0x5db29ecb, 0x32a0970f, 0x8433261c, 0xe3b77fc5,
                             0x3738eecb, 0xcd0a8af4, 0x998abd6b, 0x9ecc1410]
  const W5: seq<word> := [0xf19d6fc9, 0x5faebf56, 0xd8c1964c, 0x5fc678cd,
                             0xf63958a1, 0x760aeb2d, 0x02f5caa4, 0xd59a1839]
  const W6: seq<word> := [0x575a39de, 0x3a9a07d6, 0x87fbd09b, 0xc84bf6cf,
                             0x92499ef7, 0xc0e50a1e, 0xa386bbc7, 0xf0c5ba5b]
  const W7: seq<word> := [0xbf8a593b, 0x393fceda, 0x1816ebd6, 0x1bcb503a,
                             0x4e9c42a3, 0x16a0b5b8, 0x8be7f0dd, 0x19c579bb]

  lemma Words0()
    ensures |BLOCK| == 64
    ensures Load32(BLOCK, 0) == 0x54686520
    ensures Load32(BLOCK, 4) == 0x71756963
    ensures Load32(BLOCK, 8) == 0x6b206272
    ensures Load32(BLOCK, 12) == 0x6f776e20
  {
  }

  lemma Words1()
    ensures |BLOCK| == 64
    ensures Load32(BLOCK, 16) == 0x666f7820
    ensures Load32(BLOCK, 20) == 0x6a756d70
    ensures Load32(BLOCK, 24) == 0x73206f76
    ensures Load32(BLOCK, 28) == 0x65722074
  {
  }

  lemma Words2()
    ensures |BLOCK| == 64
    ensures Load32(BLOCK, 32) == 0x6865206c
    ensures Load32(BLOCK, 36) == 0x617a7920
    ensures Load32(BLOCK, 40) == 0x646f672e
    ensures Load32(BLOCK, 44) == 0x80000000
  {
  }

  lemma Words3()
    ensures |BLOCK| == 64
    ensures Load32(BLOCK, 48) == 0x00000000
    ensures Load32(BLOCK, 52) == 0x00000000
    ensures Load32(BLOCK, 56) == 0x00000000
    ensures Load32(BLOCK, 60) == 0x00000160
  {
  }

  lemma FirstRow(block: seq<byte>, n: nat, w: seq<word>)
    requires |block| == 64 && n <= 8 && |w| == 8
    requires forall i :: 0 <= i < 8 ==> w[i] == Load32(block, 4 * (n + i))
    ensures ScheduleRow(block, n) == w
  {
    hide Load32;
    assert w[0] == Schedule(block, n) && w[1] == Schedule(block, n + 1);
    assert w[2] == Schedule(block, n + 2) && w[3] == Schedule(block, n + 3);
    assert w[4] == Schedule(block, n + 4) && w[5] == Schedule(block, n + 5);
    assert w[6] == Schedule(block, n + 6) && w[7] == Schedule(block, n + 7);
  }

  lemma FirstRows()
    ensures |BLOCK| == 64 && ScheduleRow(BLOCK, 0) == W0 && ScheduleRow(BLOCK, 8) == W1
  {
    hide Load32, ScheduleRow;
    Words0();
    Words1();
    Words2();
    Words3();
    FirstRow(BLOCK, 0, W0);
    FirstRow(BLOCK, 8, W1);
  }

  lemma Row2()
    ensures NextRow(W0, W1) == W2
  {
  }

  lemma Row3()
    ensures NextRow(W1, W2) == W3
  {
  }

  lemma Row4()
    ensures NextRow(W2, W3) == W4
  {
  }

  lemma Row5()
    ensures NextRow(W3, W4) == W5
  {
  }

  lemma Row6()
    ensures NextRow(W4, W5) == W6
  {
  }

  lemma Row7()
    ensures NextRow(W5, W6) == W7
  {
  }

  lemma Rows()
    ensures |BLOCK| == 64 && ScheduleRow(BLOCK, 0) == W0 && ScheduleRow(BLOCK, 8) == W1 && ScheduleRow(BLOCK, 16) == W2
    ensures ScheduleRow(BLOCK, 24) == W3 && ScheduleRow(BLOCK, 32) == W4 && ScheduleRow(BLOCK, 40) == W5
    ensures ScheduleRow(BLOCK, 48) == W6 && ScheduleRow(BLOCK, 56) == W7
  {
    hide NextRow, ScheduleRow;
    FirstRows();
    Row2();
    RowFollows(BLOCK, 16);
    Row3();
    RowFollows(BLOCK, 24);
    Row4();
    RowFollows(BLOCK, 32);
    Row5();
    RowFollows(BLOCK, 40);
    Row6();
    RowFollows(BLOCK, 48);
    Row7();
    RowFollows(BLOCK, 56);
  }

  // ---------------------------------------------------------------------------------------------
  // The rounds
  // ---------------------------------------------------------------------------------------------

  /** Each of the nine states is the round function on the one before. */
  ghost predicate Steps(s: seq<Working>, k: seq<word>, w: seq<word>) {
    |s| == 9 && |k| == |w| == 8 && forall i :: 0 <= i < 8 ==> s[i + 1] == Round(s[i], k[i], w[i])
  }

  lemma {:induction false} RoundsAlong(v: Working, block: seq<byte>, n: nat, s: seq<Working>, k: seq<word>,
                                       j: nat)
    requires |block| == 64 && n <= 56 && j <= 8 && Steps(s, k, ScheduleRow(block, n))
    requires forall i :: 0 <= i < 8 ==> k[i] == Constant(n + i)
    requires Rounds(v, block, n) == s[0]
    ensures Rounds(v, block, n + j) == s[j]
  {
    hide Round, Schedule, ScheduleRow, Constant;
    if j > 0 {
      RoundsAlong(v, block, n, s, k, j - 1);
      var i := j - 1;
      assert s[i + 1] == Round(s[i], k[i], ScheduleRow(block, n)[i]);
      RowWord(block, n, i);
    }
  }

  const V0 := Working(0x6a09e667, 0xbb67ae85, 0x3c6ef372, 0xa54ff53a,
                      0x510e527f, 0x9b05688c, 0x1f83d9ab, 0x5be0cd19)
  const V1 := Working(0x82572a31, 0x8cb2daed, 0xad07e4c2, 0x4e266f61,
                      0x924268ca, 0x11a624bd, 0x25c81af6, 0x4023af50)
  const V2 := Working(0xccf7406e, 0x2fac1936, 0x21be9b12, 0x961528ae,
                      0x647280db, 0xfbd8fc1e, 0x0e5a836d, 0x9495d565)
  const V3 := Working(0x69def87c, 0x9636a9b2, 0x076ecc6f, 0x235d1fef,
                      0xbe4c1644, 0x5ffc8e91, 0x8337cafe, 0xe79de3f6)
  const V4 := Working(0xca9b9b41, 0xca499ad0, 0x8d85def3, 0xb26e23a6,
                      0xb7e3f763, 0x4b955af6, 0x253da538, 0xa344a7f1)
  const V5 := Working(0xce35d5c6, 0xabbd7baa, 0xfac7bd2d, 0x978df8e8,
                      0x44f34e60, 0x4ca093b4, 0xe9aa920b, 0xc5112013)
  const V6 := Working(0x62df4908, 0x86fb2430, 0x0e75af68, 0xce254171,
                      0x2d49a12d, 0x3804d337, 0xdd43def0, 0x4d78c2fa)
  const V7 := Working(0x16854a13, 0xd7e1916e, 0x8b2e04db, 0xee79a54b,
                      0x21983ef4, 0xcfa4f434, 0x0824a593, 0x721ed508)
  const V8 := Working(0x854998be, 0x0d2e1122, 0x45e371b7, 0x0466485d,
                      0x5954c2e5, 0x3ad22136, 0x97e16ae1, 0x2a552e53)

  const S0: seq<Working> := [
    V0,
    Working(0x5070ed6d, 0x6a09e667, 0xbb67ae85, 0x3c6ef372, 0xed3047c2, 0x510e527f, 0x9b05688c, 0x1f83d9ab),
    Working(0x38257450, 0x5070ed6d, 0x6a09e667, 0xbb67ae85, 0xfd6f6bc0, 0xed3047c2, 0x510e527f, 0x9b05688c),
    Working(0x26e2cc4c, 0x38257450, 0x5070ed6d, 0x6a09e667, 0x30ceb98d, 0xfd6f6bc0, 0xed3047c2, 0x510e527f),
    Working(0x1b3d9299, 0x26e2cc4c, 0x38257450, 0x5070ed6d, 0x73fdd816, 0x30ceb98d, 0xfd6f6bc0, 0xed3047c2),
    Working(0x4e266f61, 0x1b3d9299, 0x26e2cc4c, 0x38257450, 0x4023af50, 0x73fdd816, 0x30ceb98d, 0xfd6f6bc0),
    Working(0xad07e4c2, 0x4e266f61, 0x1b3d9299, 0x26e2cc4c, 0x25c81af6, 0x4023af50, 0x73fdd816, 0x30ceb98d),
    Working(0x8cb2daed, 0xad07e4c2, 0x4e266f61, 0x1b3d9299, 0x11a624bd, 0x25c81af6, 0x4023af50, 0x73fdd816),
    V1]

  const S1: seq<Working> := [
    V1,
    Working(0xc212dad4, 0x82572a31, 0x8cb2daed, 0xad07e4c2, 0x16704118, 0x924268ca, 0x11a624bd, 0x25c81af6),
    Working(0x5864a6eb, 0xc212dad4, 0x82572a31, 0x8cb2daed, 0xd60fbb8d, 0x16704118, 0x924268ca, 0x11a624bd),
    Working(0x27f57fd4, 0x5864a6eb, 0xc212dad4, 0x82572a31, 0x7e7967d2, 0xd60fbb8d, 0x16704118, 0x924268ca),
    Working(0xb175fd36, 0x27f57fd4, 0x5864a6eb, 0xc212dad4, 0xceb4f7d2, 0x7e7967d2, 0xd60fbb8d, 0x16704118),
    Working(0x961528ae, 0xb175fd36, 0x27f57fd4, 0x5864a6eb, 0x9495d565, 0xceb4f7d2, 0x7e7967d2, 0xd60fbb8d),
    Working(0x21be9b12, 0x961528ae, 0xb175fd36, 0x27f57fd4, 0x0e5a836d, 0x9495d565, 0xceb4f7d2, 0x7e7967d2),
    Working(0x2fac1936, 0x21be9b12, 0x961528ae, 0xb175fd36, 0xfbd8fc1e, 0x0e5a836d, 0x9495d565, 0xceb4f7d2),
    V2]

  const S2: seq<Working> := [
    V2,
    Working(0x16c68bf0, 0xccf7406e, 0x2fac1936, 0x21be9b12, 0x11d38ed6, 0x647280db, 0xfbd8fc1e, 0x0e5a836d),
    Working(0x6a6a5feb, 0x16c68bf0, 0xccf7406e, 0x2fac1936, 0x3d241cf4, 0x11d38ed6, 0x647280db, 0xfbd8fc1e),
    Working(0xeac776be, 0x6a6a5feb, 0x16c68bf0, 0xccf7406e, 0x3ecedb09, 0x3d241cf4, 0x11d38ed6, 0x647280db),
    Working(0x8eab7d38, 0xeac776be, 0x6a6a5feb, 0x16c68bf0, 0xde3fed6d, 0x3ecedb09, 0x3d241cf4, 0x11d38ed6),
    Working(0x235d1fef, 0x8eab7d38, 0xeac776be, 0x6a6a5feb, 0xe79de3f6, 0xde3fed6d, 0x3ecedb09, 0x3d241cf4),
    Working(0x076ecc6f, 0x235d1fef, 0x8eab7d38, 0xeac776be, 0x8337cafe, 0xe79de3f6, 0xde3fed6d, 0x3ecedb09),
    Working(0x9636a9b2, 0x076ecc6f, 0x235d1fef, 0x8eab7d38, 0x5ffc8e91, 0x8337cafe, 0xe79de3f6, 0xde3fed6d),
    V3]

  const S3: seq<Working> := [
    V3,
    Working(0x970212f6, 0x69def87c, 0x9636a9b2, 0x076ecc6f, 0x106b4918, 0xbe4c1644, 0x5ffc8e91, 0x8337cafe),
    Working(0xdb346e3b, 0x970212f6, 0x69def87c, 0x9636a9b2, 0x114c9ac3, 0x106b4918, 0xbe4c1644, 0x5ffc8e91),
    Working(0x3ed804b1, 0xdb346e3b, 0x970212f6, 0x69def87c, 0xa34d06a4, 0x114c9ac3, 0x106b4918, 0xbe4c1644),
    Working(0x3a156ee5, 0x3ed804b1, 0xdb346e3b, 0x970212f6, 0xfab72d97, 0xa34d06a4, 0x114c9ac3, 0x106b4918),
    Working(0xb26e23a6, 0x3a156ee5, 0x3ed804b1, 0xdb346e3b, 0xa344a7f1, 0xfab72d97, 0xa34d06a4, 0x114c9ac3),
    Working(0x8d85def3, 0xb26e23a6, 0x3a156ee5, 0x3ed804b1, 0x253da538, 0xa344a7f1, 0xfab72d97, 0xa34d06a4),
    Working(0xca499ad0, 0x8d85def3, 0xb26e23a6, 0x3a156ee5, 0x4b955af6, 0x253da538, 0xa344a7f1, 0xfab72d97),
    V4]

  const S4: seq<Working> := [
    V4,
    Working(0x50edb62a, 0xca9b9b41, 0xca499ad0, 0x8d85def3, 0x720c89d9, 0xb7e3f763, 0x4b955af6, 0x253da538),
    Working(0x78a8add9, 0x50edb62a, 0xca9b9b41, 0xca499ad0, 0xa7b3aee8, 0x720c89d9, 0xb7e3f763, 0x4b955af6),
    Working(0xe0936090, 0x78a8add9, 0x50edb62a, 0xca9b9b41, 0xbfdcb046, 0xa7b3aee8, 0x720c89d9, 0xb7e3f763),
    Working(0xb4a01bf1, 0xe0936090, 0x78a8add9, 0x50edb62a, 0x9d70735d, 0xbfdcb046, 0xa7b3aee8, 0x720c89d9),
    Working(0x978df8e8, 0xb4a01bf1, 0xe0936090, 0x78a8add9, 0xc5112013, 0x9d70735d, 0xbfdcb046, 0xa7b3aee8),
    Working(0xfac7bd2d, 0x978df8e8, 0xb4a01bf1, 0xe0936090, 0xe9aa920b, 0xc5112013, 0x9d70735d, 0xbfdcb046),
    Working(0xabbd7baa, 0xfac7bd2d, 0x978df8e8, 0xb4a01bf1, 0x4ca093b4, 0xe9aa920b, 0xc5112013, 0x9d70735d),
    V5]

  const S5: seq<Working> := [
    V5,
    Working(0x31758baf, 0xce35d5c6, 0xabbd7baa, 0xfac7bd2d, 0x13616702, 0x44f34e60, 0x4ca093b4, 0xe9aa920b),
    Working(0x89522849, 0x31758baf, 0xce35d5c6, 0xabbd7baa, 0x91d9b446, 0x13616702, 0x44f34e60, 0x4ca093b4),
    Working(0xad9012b6, 0x89522849, 0x31758baf, 0xce35d5c6, 0x671e1deb, 0x91d9b446, 0x13616702, 0x44f34e60),
    Working(0x4589ba63, 0xad9012b6, 0x89522849, 0x31758baf, 0xebd3d2df, 0x671e1deb, 0x91d9b446, 0x13616702),
    Working(0xce254171, 0x4589ba63, 0xad9012b6, 0x89522849, 0x4d78c2fa, 0xebd3d2df, 0x671e1deb, 0x91d9b446),
    Working(0x0e75af68, 0xce254171, 0x4589ba63, 0xad9012b6, 0xdd43def0, 0x4d78c2fa, 0xebd3d2df, 0x671e1deb),
    Working(0x86fb2430, 0x0e75af68, 0xce254171, 0x4589ba63, 0x3804d337, 0xdd43def0, 0x4d78c2fa, 0xebd3d2df),
    V6]

  const S6: seq<Working> := [
    V6,
    Working(0x210ac964, 0x62df4908, 0x86fb2430, 0x0e75af68, 0xba5ff87a, 0x2d49a12d, 0x3804d337, 0xdd43def0),
    Working(0xb3c272e9, 0x210ac964, 0x62df4908, 0x86fb2430, 0x3716aea6, 0xba5ff87a, 0x2d49a12d, 0x3804d337),
    Working(0xff379d8b, 0xb3c272e9, 0x210ac964, 0x62df4908, 0x6ff1d3ed, 0x3716aea6, 0xba5ff87a, 0x2d49a12d),
    Working(0x9347da34, 0xff379d8b, 0xb3c272e9, 0x210ac964, 0x75401831, 0x6ff1d3ed, 0x3716aea6, 0xba5ff87a),
    Working(0xee79a54b, 0x9347da34, 0xff379d8b, 0xb3c272e9, 0x721ed508, 0x75401831, 0x6ff1d3ed, 0x3716aea6),
    Working(0x8b2e04db, 0xee79a54b, 0x9347da34, 0xff379d8b, 0x0824a593, 0x721ed508, 0x75401831, 0x6ff1d3ed),
    Working(0xd7e1916e, 0x8b2e04db, 0xee79a54b, 0x9347da34, 0xcfa4f434, 0x0824a593, 0x721ed508, 0x75401831),
    V7]

  const S7: seq<Working> := [
    V7,
    Working(0x89b13ba3, 0x16854a13, 0xd7e1916e, 0x8b2e04db, 0x6074359f, 0x21983ef4, 0xcfa4f434, 0x0824a593),
    Working(0xf15186da, 0x89b13ba3, 0x16854a13, 0xd7e1916e, 0xe93fe34b, 0x6074359f, 0x21983ef4, 0xcfa4f434),
    Working(0x048a9ef4, 0xf15186da, 0x89b13ba3, 0x16854a13, 0x7e42a4d0, 0xe93fe34b, 0x6074359f, 0x21983ef4),
    Working(0x8b90e06a, 0x048a9ef4, 0xf15186da, 0x89b13ba3, 0x438b3790, 0x7e42a4d0, 0xe93fe34b, 0x6074359f),
    Working(0x0466485d, 0x8b90e06a, 0x048a9ef4, 0xf15186da, 0x2a552e53, 0x438b3790, 0x7e42a4d0, 0xe93fe34b),
    Working(0x45e371b7, 0x0466485d, 0x8b90e06a, 0x048a9ef4, 0x97e16ae1, 0x2a552e53, 0x438b3790, 0x7e42a4d0),
    Working(0x0d2e1122, 0x45e371b7, 0x0466485d, 0x8b90e06a, 0x3ad22136, 0x97e16ae1, 0x2a552e53, 0x438b3790),
    V8]

  lemma Steps0()
    ensures Steps(S0, K0, W0)
  {
    assert S0[1] == Round(S0[0], K0[0], W0[0]);
    assert S0[2] == Round(S0[1], K0[1], W0[1]);
    assert S0[3] == Round(S0[2], K0[2], W0[2]);
    assert S0[4] == Round(S0[3], K0[3], W0[3]);
    assert S0[5] == Round(S0[4], K0[4], W0[4]);
    assert S0[6] == Round(S0[5], K0[5], W0[5]);
    assert S0[7] == Round(S0[6], K0[6], W0[6]);
    assert S0[8] == Round(S0[7], K0[7], W0[7]);
  }

  lemma Steps1()
    ensures Steps(S1, K1, W1)
  {
    assert S1[1] == Round(S1[0], K1[0], W1[0]);
    assert S1[2] == Round(S1[1], K1[1], W1[1]);
    assert S1[3] == Round(S1[2], K1[2], W1[2]);
    assert S1[4] == Round(S1[3], K1[3], W1[3]);
    assert S1[5] == Round(S1[4], K1[4], W1[4]);
    assert S1[6] == Round(S1[5], K1[5], W1[5]);
    assert S1[7] == Round(S1[6], K1[6], W1[6]);
    assert S1[8] == Round(S1[7], K1[7], W1[7]);
  }

  lemma Steps2()
    ensures Steps(S2, K2, W2)
  {
    assert S2[1] == Round(S2[0], K2[0], W2[0]);
    assert S2[2] == Round(S2[1], K2[1], W2[1]);
    assert S2[3] == Round(S2[2], K2[2], W2[2]);
    assert S2[4] == Round(S2[3], K2[3], W2[3]);
    assert S2[5] == Round(S2[4], K2[4], W2[4]);
    assert S2[6] == Round(S2[5], K2[5], W2[5]);
    assert S2[7] == Round(S2[6], K2[6], W2[6]);
    assert S2[8] == Round(S2[7], K2[7], W2[7]);
  }

  lemma Steps3()
    ensures Steps(S3, K3, W3)
  {
    assert S3[1] == Round(S3[0], K3[0], W3[0]);
    assert S3[2] == Round(S3[1], K3[1], W3[1]);
    assert S3[3] == Round(S3[2], K3[2], W3[2]);
    assert S3[4] == Round(S3[3], K3[3], W3[3]);
    assert S3[5] == Round(S3[4], K3[4], W3[4]);
    assert S3[6] == Round(S3[5], K3[5], W3[5]);
    assert S3[7] == Round(S3[6], K3[6], W3[6]);
    assert S3[8] == Round(S3[7], K3[7], W3[7]);
  }

  lemma Steps4()
    ensures Steps(S4, K4, W4)
  {
    assert S4[1] == Round(S4[0], K4[0], W4[0]);
    assert S4[2] == Round(S4[1], K4[1], W4[1]);
    assert S4[3] == Round(S4[2], K4[2], W4[2]);
    assert S4[4] == Round(S4[3], K4[3], W4[3]);
    assert S4[5] == Round(S4[4], K4[4], W4[4]);
    assert S4[6] == Round(S4[5], K4[5], W4[5]);
    assert S4[7] == Round(S4[6], K4[6], W4[6]);
    assert S4[8] == Round(S4[7], K4[7], W4[7]);
  }

  lemma Steps5()
    ensures Steps(S5, K5, W5)
  {
    assert S5[1] == Round(S5[0], K5[0], W5[0]);
    assert S5[2] == Round(S5[1], K5[1], W5[1]);
    assert S5[3] == Round(S5[2], K5[2], W5[2]);
    assert S5[4] == Round(S5[3], K5[3], W5[3]);
    assert S5[5] == Round(S5[4], K5[4], W5[4]);
    assert S5[6] == Round(S5[5], K5[5], W5[5]);
    assert S5[7] == Round(S5[6], K5[6], W5[6]);
    assert S5[8] == Round(S5[7], K5[7], W5[7]);
  }

  lemma Steps6()
    ensures Steps(S6, K6, W6)
  {
    assert S6[1] == Round(S6[0], K6[0], W6[0]);
    assert S6[2] == Round(S6[1], K6[1], W6[1]);
    assert S6[3] == Round(S6[2], K6[2], W6[2]);
    assert S6[4] == Round(S6[3], K6[3], W6[3]);
    assert S6[5] == Round(S6[4], K6[4], W6[4]);
    assert S6[6] == Round(S6[5], K6[5], W6[5]);
    assert S6[7] == Round(S6[6], K6[6], W6[6]);
    assert S6[8] == Round(S6[7], K6[7], W6[7]);
  }

  lemma Steps7()
    ensures Steps(S7, K7, W7)
  {
    assert S7[1] == Round(S7[0], K7[0], W7[0]);
    assert S7[2] == Round(S7[1], K7[1], W7[1]);
    assert S7[3] == Round(S7[2], K7[2], W7[2]);
    assert S7[4] == Round(S7[3], K7[3], W7[3]);
    assert S7[5] == Round(S7[4], K7[4], W7[4]);
    assert S7[6] == Round(S7[5], K7[5], W7[5]);
    assert S7[7] == Round(S7[6], K7[6], W7[6]);
    assert S7[8] == Round(S7[7], K7[7], W7[7]);
  }

  lemma ConstantRow(r: nat, k: seq<word>)
    requires r < 8 && k == [K0, K1, K2, K3, K4, K5, K6, K7][r]
    ensures |k| == 8 && forall i :: 0 <= i < 8 ==> k[i] == Constant(8 * r + i)
  {
    hide Constant;
    RowLengths();
    forall i | 0 <= i < 8
      ensures k[i] == Constant(8 * r + i)
    {
      ConstantAt(8 * r + i);
      RowAndPlace(r, i);
    }
  }

  lemma RowLengths()
    ensures forall i :: 0 <= i < 8 ==> |[K0, K1, K2, K3, K4, K5, K6, K7][i]| == 8
  {
  }

  lemma RowAndPlace(r: nat, i: nat)
    requires i < 8
    ensures (8 * r + i) / 8 == r && (8 * r + i) % 8 == i
  {
  }

  lemma AllRounds(v: Working)
    requires |BLOCK| == 64 && v == V0
    ensures Rounds(v, BLOCK, 64) == V8
  {
    hide Rounds, Steps, ScheduleRow, Constant;
    NoRounds(v);
    Rows();
    Steps0();
    ConstantRow(0, K0);
    RoundsAlong(v, BLOCK, 0, S0, K0, 8);
    Steps1();
    ConstantRow(1, K1);
    RoundsAlong(v, BLOCK, 8, S1, K1, 8);
    Steps2();
    ConstantRow(2, K2);
    RoundsAlong(v, BLOCK, 16, S2, K2, 8);
    Steps3();
    ConstantRow(3, K3);
    RoundsAlong(v, BLOCK, 24, S3, K3, 8);
    Steps4();
    ConstantRow(4, K4);
    RoundsAlong(v, BLOCK, 32, S4, K4, 8);
    Steps5();
    ConstantRow(5, K5);
    RoundsAlong(v, BLOCK, 40, S5, K5, 8);
    Steps6();
    ConstantRow(6, K6);
    RoundsAlong(v, BLOCK, 48, S6, K6, 8);
    Steps7();
    ConstantRow(7, K7);
    RoundsAlong(v, BLOCK, 56, S7, K7, 8);
  }

  lemma NoRounds(v: Working)
    requires |BLOCK| == 64
    ensures Rounds(v, BLOCK, 0) == v
  {
  }

  // ---------------------------------------------------------------------------------------------
  // Padding and output
  // ---------------------------------------------------------------------------------------------

  lemma Powers()
    ensures Pow256(1) == 256 && Pow256(2) == 0x1_0000 && Pow256(3) == 0x100_0000 && Pow256(4) == 0x1_0000_0000
    ensures Pow256(5) == 0x100_0000_0000 && Pow256(6) == 0x1_0000_0000_0000 && Pow256(7) == 0x100_0000_0000_0000
    ensures Pow256(0) == 1
  {
  }

  lemma LengthHigh()
    ensures Byte64(352, 0) == 0 && Byte64(352, 1) == 0 && Byte64(352, 2) == 0 && Byte64(352, 3) == 0
    ensures Byte64(352, 4) == 0 && Byte64(352, 5) == 0
  {
    Powers();
    hide Pow256;
  }

  lemma LengthLow()
    ensures Byte64(352, 6) == 1 && Byte64(352, 7) == 96
  {
    Powers();
    hide Pow256;
  }

  lemma ElevenZeros()
    ensures Zeros(11) == [0, 0, 0, 0, 0, 0, 0, 0, 0, 0, 0]
  {
    assert Zeros(5) == [0, 0, 0, 0, 0];
    assert Zeros(8) == [0, 0, 0, 0, 0, 0, 0, 0];
  }

  lemma LengthBytes()
    ensures Store64(352) == [0, 0, 0, 0, 0, 0, 1, 96]
  {
    LengthHigh();
    LengthLow();
    hide Byte64;
  }

  lemma Padded()
    ensures |FOX| == 44 && |BLOCK| == 64 && Pad(FOX) == BLOCK
  {
    ElevenZeros();
    LengthBytes();
    ZeroCountOfFox();
    hide Store64, Zeros, ZeroCount;
    BlockIs();
  }

  lemma ZeroCountOfFox()
    ensures ZeroCount(44) == 11 && 8 * 44 % UINT64_RANGE == 352
  {
  }

  lemma BlockIs()
    ensures |FOX| == 44 && |BLOCK| == 64
    ensures BLOCK == FOX + [0x80] + [0, 0, 0, 0, 0, 0, 0, 0, 0, 0, 0] + [0, 0, 0, 0, 0, 0, 1, 96]
  {
    hide FOX;
    assert P0 + P1 == [0x80] + [0, 0, 0, 0, 0, 0, 0, 0, 0, 0, 0];
    Regrouped(FOX, [0x80], [0, 0, 0, 0, 0, 0, 0, 0, 0, 0, 0], P2);
    assert |FOX| == 44 by { FoxSize(); }
  }

  lemma FoxSize()
    ensures |FOX| == 44
  {
  }

  lemma Regrouped(a: seq<byte>, b: seq<byte>, c: seq<byte>, d: seq<byte>)
    ensures a + (b + c + d) == a + b + c + d
  {
  }

  const HASH: seq<word> := [0xef537f25, 0xc895bfa7, 0x82526529, 0xa9b63d97,
                             0xaa631564, 0xd5d789c2, 0xb765448c, 0x8635fb6c]

  lemma Words()
    ensures |HASH| == 8 && Added(H0, V8) == HASH
  {
  }

  lemma FirstBytes()
    ensures Bytes32(0xef537f25) == [0xef, 0x53, 0x7f, 0x25] && Bytes32(0xc895bfa7) == [0xc8, 0x95, 0xbf, 0xa7]
    ensures Bytes32(0x82526529) == [0x82, 0x52, 0x65, 0x29] && Bytes32(0xa9b63d97) == [0xa9, 0xb6, 0x3d, 0x97]
  {
  }

  lemma LastBytes()
    ensures Bytes32(0xaa631564) == [0xaa, 0x63, 0x15, 0x64] && Bytes32(0xd5d789c2) == [0xd5, 0xd7, 0x89, 0xc2]
    ensures Bytes32(0xb765448c) == [0xb7, 0x65, 0x44, 0x8c] && Bytes32(0x8635fb6c) == [0x86, 0x35, 0xfb, 0x6c]
  {
  }

  lemma OutputStep(s: seq<word>, k: nat)
    requires k < |s|
    ensures Output(s[..k + 1]) == Output(s[..k]) + Bytes32(s[k])
  {
    hide Bytes32;
    assert s[..k + 1][..k] == s[..k];
  }

  lemma {:induction false} OutputIs(s: seq<word>)
    requires |s| == 8
    ensures Output(s) == Bytes32(s[0]) + Bytes32(s[1]) + Bytes32(s[2]) + Bytes32(s[3])
                       + Bytes32(s[4]) + Bytes32(s[5]) + Bytes32(s[6]) + Bytes32(s[7])
  {
    NoOutput();
    hide Bytes32, Output;
    OutputStep(s, 0);
    OutputStep(s, 1);
    OutputStep(s, 2);
    OutputStep(s, 3);
    OutputStep(s, 4);
    OutputStep(s, 5);
    OutputStep(s, 6);
    OutputStep(s, 7);
    assert s[..0] == [] && s[..8] == s;
    assert [] + Bytes32(s[0]) == Bytes32(s[0]);
  }

  lemma NoOutput()
    ensures Output([]) == []
  {
  }

  lemma Written()
    ensures Output(HASH) == DIGEST
  {
    FirstBytes();
    LastBytes();
    OutputIs(HASH);
    hide Bytes32, Output;
  }

  lemma OneBlock(state: seq<word>, block: seq<byte>)
    requires |state| == 8 && |block| == 64
    ensures Hash(state, block) == Block(state, block)
  {
    hide Block;
    assert block[..64] == block && block[64..] == [];
    var next := Block(state, block);
    assert Hash(state, block) == Hash(next, block[64..]) == Hash(next, []);
    NoBlock(next);
  }

  lemma NoBlock(state: seq<word>)
    requires |state| == 8
    ensures Hash(state, []) == state
  {
  }

  lemma StartsAtV0()
    ensures |H0| == 8 && WorkingOf(H0) == V0
  {
  }

  /** The digest of the sentence. */
  lemma FoxDigest()
    ensures Digest(FOX) == DIGEST
  {
    hide Pad, Rounds, Output, Added, Hash, WorkingOf;
    Padded();
    StartsAtV0();
    AllRounds(V0);
    Words();
    Written();
    OneBlock(H0, BLOCK);
    assert Block(H0, BLOCK) == Added(H0, Rounds(WorkingOf(H0), BLOCK, 64)) == Added(H0, V8);
    assert Hash(H0, Pad(FOX)) == HASH;
  }
}
