/** Streaming SHA-256 of src/base/hash_libtomcrypt.cpp against FIPS 180-4. */
module Sha256 {
  import opened Sequences

  type byte = bv8
  type word = bv32

  const K0: seq<word> := [0x428a2f98, 0x71374491, 0xb5c0fbcf, 0xe9b5dba5,
                         0x3956c25b, 0x59f111f1, 0x923f82a4, 0xab1c5ed5]
  const K1: seq<word> := [0xd807aa98, 0x12835b01, 0x243185be, 0x550c7dc3,
                         0x72be5d74, 0x80deb1fe, 0x9bdc06a7, 0xc19bf174]
  const K2: seq<word> := [0xe49b69c1, 0xefbe4786, 0x0fc19dc6, 0x240ca1cc,
                         0x2de92c6f, 0x4a7484aa, 0x5cb0a9dc, 0x76f988da]
  const K3: seq<word> := [0x983e5152, 0xa831c66d, 0xb00327c8, 0xbf597fc7,
                         0xc6e00bf3, 0xd5a79147, 0x06ca6351, 0x14292967]
  const K4: seq<word> := [0x27b70a85, 0x2e1b2138, 0x4d2c6dfc, 0x53380d13,
                         0x650a7354, 0x766a0abb, 0x81c2c92e, 0x92722c85]
  const K5: seq<word> := [0xa2bfe8a1, 0xa81a664b, 0xc24b8b70, 0xc76c51a3,
                         0xd192e819, 0xd6990624, 0xf40e3585, 0x106aa070]
  const K6: seq<word> := [0x19a4c116, 0x1e376c08, 0x2748774c, 0x34b0bcb5,
                         0x391c0cb3, 0x4ed8aa4a, 0x5b9cca4f, 0x682e6ff3]
  const K7: seq<word> := [0x748f82ee, 0x78a5636f, 0x84c87814, 0x8cc70208,
                         0x90befffa, 0xa4506ceb, 0xbef9a3f7, 0xc67178f2]

  /** The 64 constants, in rows of eight. */
  const K: seq<word> := K0 + K1 + K2 + K3 + K4 + K5 + K6 + K7

  function Constant(t: nat): word
    requires t < 64
  {
    K[t]
  }

  // ---------------------------------------------------------------------------------------------
  // The source's word functions, and section 4.1.2 of FIPS 180-4
  // ---------------------------------------------------------------------------------------------

  /** Addition of `uint32_t`. */
  function Add(x: word, y: word): word { x + y }

  function Ch(x: word, y: word, z: word): word { z ^ (x & (y ^ z)) }
  function Maj(x: word, y: word, z: word): word { ((x | y) & z) | (x & y) }
  function Rot(x: word, n: word): word { (x >> (n & 31)) | (x << (32 - (n & 31))) }
  function Sh(x: word, n: word): word requires n <= 32 { x >> n }
  function Xor(x: word, y: word): word { x ^ y }
  function Sigma0(x: word): word { Xor(Xor(Rot(x, 2), Rot(x, 13)), Rot(x, 22)) }
  function Sigma1(x: word): word { Xor(Xor(Rot(x, 6), Rot(x, 11)), Rot(x, 25)) }
  function Gamma0(x: word): word { Xor(Xor(Rot(x, 7), Rot(x, 18)), Sh(x, 3)) }
  function Gamma1(x: word): word { Xor(Xor(Rot(x, 17), Rot(x, 19)), Sh(x, 10)) }

  ghost function SpecCh(x: word, y: word, z: word): word { (x & y) ^ (!x & z) }
  ghost function SpecMaj(x: word, y: word, z: word): word { (x & y) ^ (x & z) ^ (y & z) }

  lemma ChooseBits(x: word, y: word, z: word)
    ensures z ^ (x & (y ^ z)) == (x & y) ^ (!x & z)
    ensures ((x | y) & z) | (x & y) == (x & y) ^ (x & z) ^ (y & z)
  {
  }

  /** The cheaper forms of the source are the standard's functions. */
  lemma ChAndMajAreStandard(x: word, y: word, z: word)
    ensures Ch(x, y, z) == SpecCh(x, y, z) && Maj(x, y, z) == SpecMaj(x, y, z)
  {
    ChooseBits(x, y, z);
  }

  // ---------------------------------------------------------------------------------------------
  // Section 6.2.2 of FIPS 180-4
  // ---------------------------------------------------------------------------------------------

  function Load32(b: seq<byte>, i: nat): word
    requires i + 4 <= |b|
  {
    ((b[i] as word) << 24) | ((b[i + 1] as word) << 16) | ((b[i + 2] as word) << 8) | (b[i + 3] as word)
  }

  /** Word `t` of the message schedule of a block. */
  ghost function Schedule(block: seq<byte>, t: nat): word
    requires |block| == 64
  {
    if t < 16 then Load32(block, 4 * t)
    else Add(Add(Add(Gamma1(Schedule(block, t - 2)), Schedule(block, t - 7)), Gamma0(Schedule(block, t - 15))),
             Schedule(block, t - 16))
  }

  /** The working variables a to h. */
  datatype Working = Working(a: word, b: word, c: word, d: word, e: word, f: word, g: word, h: word)

  ghost function Round(v: Working, k: word, w: word): Working {
    var t1 := Add(Add(Add(Add(v.h, Sigma1(v.e)), SpecCh(v.e, v.f, v.g)), k), w);
    var t2 := Add(Sigma0(v.a), SpecMaj(v.a, v.b, v.c));
    Working(Add(t1, t2), v.a, v.b, v.c, Add(v.d, t1), v.e, v.f, v.g)
  }

  ghost function Rounds(v: Working, block: seq<byte>, t: nat): Working
    requires |block| == 64 && t <= 64
  {
    if t == 0 then v else Round(Rounds(v, block, t - 1), Constant(t - 1), Schedule(block, t - 1))
  }

  ghost function WorkingOf(s: seq<word>): Working
    requires |s| == 8
  {
    Working(s[0], s[1], s[2], s[3], s[4], s[5], s[6], s[7])
  }

  ghost function Added(s: seq<word>, v: Working): (r: seq<word>)
    requires |s| == 8
    ensures |r| == 8
  {
    [Add(s[0], v.a), Add(s[1], v.b), Add(s[2], v.c), Add(s[3], v.d),
     Add(s[4], v.e), Add(s[5], v.f), Add(s[6], v.g), Add(s[7], v.h)]
  }

  /** The intermediate hash value after one more block. */
  ghost function Block(state: seq<word>, block: seq<byte>): (r: seq<word>)
    requires |state| == 8 && |block| == 64
    ensures |r| == 8
  {
    Added(state, Rounds(WorkingOf(state), block, 64))
  }

  /** The message schedule in `W`. */
  method FillSchedule(block: seq<byte>) returns (W: array<word>)
    requires |block| == 64
    ensures fresh(W) && W.Length == 64
    ensures forall t :: 0 <= t < 64 ==> W[t] == Schedule(block, t)
  {
    hide Add, Gamma0, Gamma1, Load32;
    W := new word[64];
    var i := 0;
    while i < 16
      invariant 0 <= i <= 16
      invariant forall t :: 0 <= t < i ==> W[t] == Schedule(block, t)
    {
      W[i] := Load32(block, 4 * i);
      i := i + 1;
    }
    while i < 64
      invariant 16 <= i <= 64
      invariant forall t :: 0 <= t < i ==> W[t] == Schedule(block, t)
    {
      W[i] := Add(Add(Add(Gamma1(W[i - 2]), W[i - 7]), Gamma0(W[i - 15])), W[i - 16]);
      i := i + 1;
    }
  }

  /** One turn of the round loop: the round in place, then the rotation of the eight variables. */
  method RoundInPlace(S: array<word>, k: word, w: word)
    requires S.Length == 8
    modifies S
    ensures WorkingOf(S[..]) == Round(old(WorkingOf(S[..])), k, w)
  {
    hide Add, Sigma0, Sigma1, Ch, Maj, SpecCh, SpecMaj;
    ChAndMajAreStandard(S[4], S[5], S[6]);
    ChAndMajAreStandard(S[0], S[1], S[2]);
    var t0 := Add(Add(Add(Add(S[7], Sigma1(S[4])), Ch(S[4], S[5], S[6])), k), w);
    var t1 := Add(Sigma0(S[0]), Maj(S[0], S[1], S[2]));
    S[3] := Add(S[3], t0);
    S[7] := Add(t0, t1);
    RotateVariables(S);
  }

  method RotateVariables(S: array<word>)
    requires S.Length == 8
    modifies S
    ensures S[0] == old(S[7]) && S[1] == old(S[0]) && S[2] == old(S[1]) && S[3] == old(S[2])
    ensures S[4] == old(S[3]) && S[5] == old(S[4]) && S[6] == old(S[5]) && S[7] == old(S[6])
  {
    var t := S[7];
    S[7] := S[6];
    S[6] := S[5];
    S[5] := S[4];
    S[4] := S[3];
    S[3] := S[2];
    S[2] := S[1];
    S[1] := S[0];
    S[0] := t;
  }

  /** The 64 rounds. */
  method AllRounds(S: array<word>, W: array<word>, block: seq<byte>)
    requires S.Length == 8 && W.Length == 64 && S != W && |block| == 64
    requires forall t :: 0 <= t < 64 ==> W[t] == Schedule(block, t)
    modifies S
    ensures WorkingOf(S[..]) == Rounds(old(WorkingOf(S[..])), block, 64)
  {
    hide Round, Constant, WorkingOf;
    var i := 0;
    while i < 64
      invariant 0 <= i <= 64
      invariant WorkingOf(S[..]) == Rounds(old(WorkingOf(S[..])), block, i)
    {
      RoundInPlace(S, Constant(i), W[i]);
      i := i + 1;
    }
  }

  /** `sha_compress`: one block, in place on the state. */
  method Compress(state: array<word>, block: seq<byte>)
    requires state.Length == 8 && |block| == 64
    modifies state
    ensures state[..] == Block(old(state[..]), block)
  {
    hide Add, Rounds;
    ghost var init := state[..];
    var S := new word[8](i requires 0 <= i < 8 reads state => state[i]);
    assert S[..] == init;
    var W := FillSchedule(block);
    AllRounds(S, W, block);
    Feedback(state, S);
    IsAdded(init, S[..], state[..]);
    hide Added, WorkingOf;
  }

  lemma IsAdded(init: seq<word>, v: seq<word>, r: seq<word>)
    requires |init| == |v| == |r| == 8 && forall k :: 0 <= k < 8 ==> r[k] == Add(init[k], v[k])
    ensures r == Added(init, WorkingOf(v))
  {
    hide Add;
    var w := Added(init, WorkingOf(v));
    assert r[0] == w[0] && r[1] == w[1] && r[2] == w[2] && r[3] == w[3];
    assert r[4] == w[4] && r[5] == w[5] && r[6] == w[6] && r[7] == w[7];
  }

  method Feedback(state: array<word>, S: array<word>)
    requires state.Length == 8 && S.Length == 8 && state != S
    modifies state
    ensures forall k :: 0 <= k < 8 ==> state[k] == Add(old(state[k]), S[k])
  {
    hide Add;
    var i := 0;
    while i < 8
      invariant 0 <= i <= 8
      invariant forall k :: 0 <= k < i ==> state[k] == Add(old(state[k]), S[k])
      invariant forall k :: i <= k < 8 ==> state[k] == old(state[k])
    {
      state[i] := Add(state[i], S[i]);
      i := i + 1;
    }
  }

  // ---------------------------------------------------------------------------------------------
  // Sections 5.1.1, 5.3.3 and 6.2.2 of FIPS 180-4: padding and the whole message
  // ---------------------------------------------------------------------------------------------

  const H0: seq<word> := [0x6A09E667, 0xBB67AE85, 0x3C6EF372, 0xA54FF53A,
                         0x510E527F, 0x9B05688C, 0x1F83D9AB, 0x5BE0CD19]

  const UINT64_RANGE: nat := 0x1_0000_0000_0000_0000

  /** Folds the block function over the blocks of `m`, first block first. */
  ghost function Hash(state: seq<word>, m: seq<byte>): (r: seq<word>)
    requires |state| == 8
    ensures |r| == 8
    decreases |m|
  {
    if |m| < 64 then state else Hash(Block(state, m[..64]), m[64..])
  }

  function Zeros(k: nat): (z: seq<byte>)
    ensures |z| == k
  {
    if k == 0 then [] else Zeros(k - 1) + [0]
  }

  /** The number of zero bytes behind the 0x80 of a message of `n` bytes. */
  function ZeroCount(n: nat): nat {
    if n % 64 <= 55 then 55 - n % 64 else 119 - n % 64
  }

  /** It is the least number that fills the last block up to its last eight bytes. */
  lemma ZeroCountIsLeast(n: nat, k: nat)
    ensures (n + 1 + ZeroCount(n)) % 64 == 56
    ensures (n + 1 + k) % 64 == 56 ==> ZeroCount(n) <= k
  {
  }

  /** Byte `i` of a 64-bit number, most significant first. */
  function Byte64(x: nat, i: nat): byte
    requires i < 8
  {
    (x / Pow256(7 - i) % 256) as byte
  }

  function Pow256(k: nat): (p: nat)
    ensures p > 0
  {
    if k == 0 then 1 else 256 * Pow256(k - 1)
  }

  function Store64(x: nat): seq<byte> {
    [Byte64(x, 0), Byte64(x, 1), Byte64(x, 2), Byte64(x, 3), Byte64(x, 4), Byte64(x, 5), Byte64(x, 6), Byte64(x, 7)]
  }

  /** The padded message; the bit length is kept modulo 2^64. */
  function Pad(m: seq<byte>): seq<byte> {
    m + [0x80] + Zeros(ZeroCount(|m|)) + Store64(8 * |m| % UINT64_RANGE)
  }

  function Byte32(x: word, i: nat): byte
    requires i < 4
  {
    if i == 0 then (x >> 24) as byte
    else if i == 1 then ((x >> 16) & 255) as byte
    else if i == 2 then ((x >> 8) & 255) as byte
    else (x & 255) as byte
  }

  function Bytes32(x: word): seq<byte> {
    [Byte32(x, 0), Byte32(x, 1), Byte32(x, 2), Byte32(x, 3)]
  }

  /** The hash value as bytes, first word first. */
  function Output(state: seq<word>): (r: seq<byte>)
    ensures |r| == 4 * |state|
  {
    if state == [] then [] else Output(state[..|state| - 1]) + Bytes32(state[|state| - 1])
  }

  /** The SHA-256 digest of a message. */
  ghost function Digest(m: seq<byte>): seq<byte> {
    Output(Hash(H0, Pad(m)))
  }

  lemma {:induction false} HashAppend(state: seq<word>, n: nat, a: seq<byte>, b: seq<byte>)
    requires |state| == 8 && |a| == 64 * n && |b| == 64
    ensures Hash(state, a + b) == Block(Hash(state, a), b)
    decreases n
  {
    hide Block;
    if n == 0 {
      assert a + b == b && b[..64] == b;
    } else {
      HashAppend(Block(state, a[..64]), n - 1, a[64..], b);
      assert (a + b)[..64] == a[..64] && (a + b)[64..] == a[64..] + b;
    }
  }

  // ---------------------------------------------------------------------------------------------
  // The streaming context
  // ---------------------------------------------------------------------------------------------

  class Sha256Ctx {
    var length: nat
    var state: array<word>
    var curlen: nat
    var buf: array<byte>
    /** Everything absorbed so far, and how many whole blocks of it have been compressed. */
    ghost var msg: seq<byte>
    ghost var blocks: nat

    ghost predicate Shape()
      reads this
    {
      state.Length == 8 && buf.Length == 64
    }

    /** The state stands for the first `blocks` blocks of `m`, the buffer for the rest. */
    ghost predicate Holds(m: seq<byte>)
      reads this, state, buf
      requires Shape()
    {
      && |m| == 64 * blocks + curlen && curlen <= 64
      && buf[..curlen] == m[64 * blocks..]
      && state[..] == Hash(H0, m[..64 * blocks])
    }

    ghost predicate Valid()
      reads this, state, buf
    {
      && Shape() && Holds(msg) && curlen < 64
      && length == 512 * blocks % UINT64_RANGE
    }

    constructor Init()
      ensures Valid() && fresh(state) && fresh(buf) && msg == []
    {
      curlen := 0;
      length := 0;
      state := new word[8](i requires 0 <= i < 8 => H0[i]);
      buf := new byte[64];
      msg := [];
      blocks := 0;
      new;
      assert state[..] == H0;
    }

    /** Compressing the block that follows the compressed ones. */
    method CompressNext(block: seq<byte>, ghost m: seq<byte>)
      requires Shape() && |block| == 64 && 64 * blocks + 64 <= |m|
      requires block == m[64 * blocks..64 * blocks + 64]
      requires state[..] == Hash(H0, m[..64 * blocks])
      modifies this`blocks, state
      ensures blocks == old(blocks) + 1 && state[..] == Hash(H0, m[..64 * blocks])
    {
      hide Block;
      HashAppend(H0, blocks, m[..64 * blocks], block);
      assert m[..64 * blocks] + block == m[..64 * blocks + 64];
      Compress(state, block);
      blocks := blocks + 1;
    }

    /** `sha_process`: whole blocks straight from the input when the buffer is empty, otherwise through
        the buffer. */
    method Process(src: seq<byte>)
      requires Valid() && |src| < 0x1_0000_0000
      modifies this`length, this`curlen, this`msg, this`blocks, state, buf
      ensures Valid() && msg == old(msg) + src
    {
      hide Valid, Holds;
      var at := 0;
      while at < |src|
        invariant at <= |src|
        invariant Valid() && msg == old(msg) + src[..at]
      {
        RoomLeft();
        if curlen == 0 && |src| - at >= 64 {
          ProcessBlock(src[at..at + 64]);
          assert src[..at + 64] == src[..at] + src[at..at + 64];
          at := at + 64;
        } else {
          var n := if |src| - at < 64 - curlen then |src| - at else 64 - curlen;
          ProcessPart(src[at..at + n]);
          assert src[..at + n] == src[..at] + src[at..at + n];
          at := at + n;
        }
      }
      assert src[..at] == src;
    }

    lemma RoomLeft()
      requires Valid()
      ensures Shape() && curlen < 64
    {
    }

    method ProcessBlock(src: seq<byte>)
      requires Valid() && curlen == 0 && |src| == 64
      modifies this`length, this`msg, this`blocks, state
      ensures Valid() && msg == old(msg) + src
    {
      hide Hash;
      ghost var was := msg;
      msg := msg + src;
      assert msg[..64 * blocks] == was[..64 * blocks] && was[64 * blocks..] == [];
      CompressNext(src, msg);
      length := (length + 512) % UINT64_RANGE;
      LengthStep(blocks);
    }

    method ProcessPart(src: seq<byte>)
      requires Valid() && 0 < |src| <= 64 - curlen
      modifies this`length, this`curlen, this`msg, this`blocks, state, buf
      ensures Valid() && msg == old(msg) + src
    {
      hide Hash;
      FillBuffer(src);
      if curlen == 64 {
        CompressNext(buf[..], msg);
        length := (length + 512) % UINT64_RANGE;
        curlen := 0;
        LengthStep(blocks);
      }
    }

    method FillBuffer(src: seq<byte>)
      requires Shape() && Holds(msg) && |src| <= 64 - curlen
      modifies this`curlen, this`msg, buf
      ensures Holds(msg) && msg == old(msg) + src && curlen == old(curlen) + |src|
    {
      hide Hash;
      ghost var was, tail := msg, buf[..curlen];
      forall i | 0 <= i < |src| {
        buf[curlen + i] := src[i];
      }
      assert buf[..curlen + |src|] == tail + src;
      curlen := curlen + |src|;
      msg := msg + src;
      assert msg[..64 * blocks] == was[..64 * blocks] && msg[64 * blocks..] == was[64 * blocks..] + src;
    }

    /** Pads the buffer with zero bytes up to `limit`. */
    method ZeroFill(limit: nat)
      requires Shape() && Holds(msg) && curlen <= limit <= 64
      modifies this`curlen, this`msg, buf
      ensures Holds(msg) && curlen == limit && msg == old(msg) + Zeros(limit - old(curlen))
    {
      hide Hash;
      ghost var z := 0;
      assert msg == old(msg) + Zeros(0);
      while curlen < limit
        invariant curlen == old(curlen) + z <= limit
        invariant Holds(msg) && msg == old(msg) + Zeros(z)
      {
        FillBuffer([0]);
        assert old(msg) + Zeros(z) + [0] == old(msg) + Zeros(z + 1);
        z := z + 1;
      }
    }

    /** `store64` into the last eight bytes of the buffer. */
    method StoreLength()
      requires Shape()
      modifies buf
      ensures buf[..56] == old(buf[..56]) && buf[56..] == Store64(length)
    {
      var i := 0;
      while i != 8
        invariant 0 <= i <= 8
        invariant buf[..56] == old(buf[..56])
        invariant forall k :: 0 <= k < i ==> buf[56 + k] == Byte64(length, k)
      {
        buf[56 + i] := Byte64(length, i);
        i := i + 1;
      }
    }

    /** `store32` */
    static method Store32(x: word, out: array<byte>, at: nat)
      requires at + 4 <= out.Length
      modifies out
      ensures out[..at + 4] == old(out[..at]) + Bytes32(x)
    {
      hide Byte32;
      out[at] := Byte32(x, 0);
      out[at + 1] := Byte32(x, 1);
      out[at + 2] := Byte32(x, 2);
      out[at + 3] := Byte32(x, 3);
      assert out[..at + 4] == out[..at] + out[at..at + 4];
    }

    /** The output loop of `sha_done`. */
    method CopyOut(out: array<byte>)
      requires Shape() && out.Length == 32
      modifies out
      ensures out[..] == Output(state[..])
    {
      hide Bytes32;
      var i := 0;
      while i < 8
        invariant 0 <= i <= 8 && out[..4 * i] == Output(state[..i])
      {
        Store32(state[i], out, 4 * i);
        assert state[..i + 1][..i] == state[..i];
        i := i + 1;
      }
      assert state[..8] == state[..] && out[..32] == out[..];
    }

    /** The padding of `sha_done`. */
    method Finish()
      requires Valid()
      modifies this`length, this`curlen, this`msg, this`blocks, state, buf
      ensures Shape() && state[..] == Hash(H0, Pad(old(msg)))
    {
      hide Hash, Byte64, Store64, Zeros, ZeroCount, Block;
      LengthTotal(blocks, curlen);
      length := (length + curlen * 8) % UINT64_RANGE;
      ghost var c := curlen;
      FillBuffer([0x80]);
      PadBuffer();
      PaddedLength(|old(msg)|, old(blocks), c);
      hide Pad;
      CompressLast(old(msg));
    }

    /** The last block: what is left of the padded message and the length. */
    method CompressLast(ghost m: seq<byte>)
      requires Shape() && Holds(msg) && curlen == 56 && msg == m + [0x80] + Zeros(ZeroCount(|m|))
      requires length == 8 * |m| % UINT64_RANGE
      modifies this`blocks, state, buf
      ensures Shape() && state[..] == Hash(H0, Pad(m))
    {
      hide Hash, Byte64, Store64, Zeros, ZeroCount, Block, Pad;
      StoreLength();
      LastBlock(m, msg, blocks, buf[..], length);
      CompressNext(buf[..], Pad(m));
    }

    /** `sha_done`: the digest of everything absorbed. */
    method Done(out: array<byte>)
      requires Valid() && out.Length == 32 && out != buf
      modifies this`length, this`curlen, this`msg, this`blocks, state, buf, out
      ensures out[..] == Digest(old(msg))
    {
      hide Valid, Hash, Pad, Output;
      Finish();
      CopyOut(out);
    }

    /** Fills the buffer with zeros and compresses it. */
    method PadBlock()
      requires Shape() && Holds(msg) && 0 < curlen <= 64
      modifies this`curlen, this`msg, this`blocks, state, buf
      ensures Holds(msg) && curlen == 0 && blocks == old(blocks) + 1 && msg == old(msg) + Zeros(64 - old(curlen))
    {
      hide Hash, Zeros;
      ZeroFill(64);
      CompressNext(buf[..], msg);
      curlen := 0;
    }

    /** The zeros of the padding, through a block of their own if the length does not fit. */
    method PadBuffer()
      requires Shape() && Holds(msg) && 0 < curlen <= 64
      modifies this`curlen, this`msg, this`blocks, state, buf
      ensures Holds(msg) && curlen == 56 && blocks == old(blocks) + if old(curlen) > 56 then 1 else 0
      ensures msg == old(msg) + Zeros(if old(curlen) > 56 then 120 - old(curlen) else 56 - old(curlen))
    {
      hide Hash, Zeros;
      if curlen > 56 {
        ghost var first := 64 - curlen;
        PadBlock();
        ZeroFill(56);
        ZerosAdd(first, 56);
        assert old(msg) + Zeros(first) + Zeros(56) == old(msg) + (Zeros(first) + Zeros(56));
      } else {
        ZeroFill(56);
      }
    }
  }

  lemma {:induction false} ZerosAdd(j: nat, k: nat)
    ensures Zeros(j) + Zeros(k) == Zeros(j + k)
  {
    if k > 0 {
      ZerosAdd(j, k - 1);
      assert Zeros(j) + (Zeros(k - 1) + [0]) == Zeros(j) + Zeros(k - 1) + [0];
    } else {
      assert Zeros(j) + [] == Zeros(j);
    }
  }

  lemma LengthTotal(n: nat, c: nat)
    ensures (512 * n % UINT64_RANGE + c * 8) % UINT64_RANGE == 8 * (64 * n + c) % UINT64_RANGE
  {
  }

  lemma PaddedLength(len: nat, n: nat, c: nat)
    requires len == 64 * n + c && c < 64
    ensures ZeroCount(len) == if c + 1 > 56 then 120 - (c + 1) else 56 - (c + 1)
  {
  }

  /** The last buffer is the last block of the padded message. */
  lemma LastBlock(m: seq<byte>, padded: seq<byte>, n: nat, block: seq<byte>, length: nat)
    requires padded == m + [0x80] + Zeros(ZeroCount(|m|)) && |padded| == 64 * n + 56
    requires |block| == 64 && block[..56] == padded[64 * n..] && block[56..] == Store64(length)
    requires length == 8 * |m| % UINT64_RANGE
    ensures |Pad(m)| == 64 * n + 64 && Pad(m)[..64 * n] == padded[..64 * n]
    ensures Pad(m)[64 * n..64 * n + 64] == block
    ensures Pad(m)[..64 * n + 64] == Pad(m)
  {
    assert Pad(m) == padded + Store64(length);
    assert block == block[..56] + block[56..];
  }

  /** `sha256_update` narrows the length to 32 bits before it calls `sha_process`. */
  method Sha256Update(ctx: Sha256Ctx, data: seq<byte>)
    requires ctx.Valid()
    modifies ctx`length, ctx`curlen, ctx`msg, ctx`blocks, ctx.state, ctx.buf
    ensures ctx.Valid() && ctx.msg == old(ctx.msg) + data[..|data| % 0x1_0000_0000]
    ensures ctx.msg == old(ctx.msg) + data <==> |data| < 0x1_0000_0000
  {
    var n := |data| % 0x1_0000_0000;
    ctx.Process(data[..n]);
    assert n == |data| ==> data[..n] == data;
    assert |ctx.msg| == |old(ctx.msg)| + n;
  }

  /** A caller that feeds a message in pieces: the digest depends only on the bytes, not on the split. */
  method DigestOfChunks(chunks: seq<seq<byte>>) returns (out: array<byte>)
    requires forall i :: 0 <= i < |chunks| ==> |chunks[i]| < 0x1_0000_0000
    ensures out[..] == Digest(Flatten(chunks))
  {
    hide Digest, Hash;
    var ctx := new Sha256Ctx.Init();
    var i := 0;
    while i < |chunks|
      invariant 0 <= i <= |chunks|
      invariant ctx.Valid() && ctx.msg == Flatten(chunks[..i]) && fresh(ctx.state) && fresh(ctx.buf)
    {
      Sha256Update(ctx, chunks[i]);
      assert chunks[..i + 1][..i] == chunks[..i];
      i := i + 1;
    }
    assert chunks[..i] == chunks;
    out := new byte[32];
    ctx.Done(out);
  }

  lemma LengthStep(n: nat)
    requires n > 0
    ensures (512 * (n - 1) % UINT64_RANGE + 512) % UINT64_RANGE == 512 * n % UINT64_RANGE
  {
  }
}
