/** The ring buffer behind the asynchronous file writer: `ASYNCIO` in src/base/system.cpp.
    The class keeps the source's fields; `Contents` is the byte queue that the ring stands for. */
module AsyncRing {

  import opened Bytes

  const ASYNC_BUFSIZE: nat := 8 * 1024
  const ASYNC_LOCAL_BUFSIZE: nat := 64 * 1024

  /** Largest buffer that doubling an `unsigned int` can reach without wrapping to zero. */
  const MAX_BUFSIZE: nat := 0x8000_0000
  const UNSIGNED_RANGE: nat := 0x1_0000_0000

  /** The queue held by a ring `buf` with read position `r` and write position `w`. */
  ghost function RingContents(buf: seq<byte>, r: nat, w: nat): seq<byte>
    requires r < |buf| && w < |buf|
  {
    if r <= w then buf[r..w] else buf[r..] + buf[..w]
  }

  /** Read and write positions coincide exactly on the empty queue, and the queue never fills the
      buffer. This is why two positions suffice to tell empty from full. */
  lemma EmptyIffPositionsMeet(buf: seq<byte>, r: nat, w: nat)
    requires r < |buf| && w < |buf|
    ensures RingContents(buf, r, w) == [] <==> r == w
    ensures |RingContents(buf, r, w)| < |buf|
    ensures forall k :: 0 <= k < |RingContents(buf, r, w)| ==>
              RingContents(buf, r, w)[k] == buf[Wrap(r + k, |buf|)]
  {
  }

  /** `x % m` for a position that has passed the end of the buffer at most once. */
  function Wrap(x: nat, m: nat): (r: nat)
    requires 0 < m && x < 2 * m
    ensures r < m && (r == x || r + m == x)
  {
    if x < m then x else x - m
  }

  lemma WrapIsMod(x: nat, m: nat)
    requires 0 < m && x < 2 * m
    ensures x % m == Wrap(x, m)
  {
  }

  /** The initial size doubled `k` times. */
  function BufSize(k: nat): nat {
    if k == 0 then ASYNC_BUFSIZE else 2 * BufSize(k - 1)
  }

  /** Every size the buffer can have: the initial size doubled up to eighteen times. */
  ghost predicate IsBufSize(n: nat) {
    exists k: nat :: k <= 18 && n == BufSize(k)
  }

  lemma {:induction false} BufSizeMonotone(j: nat, k: nat)
    requires j <= k
    ensures ASYNC_BUFSIZE <= BufSize(j) <= BufSize(k)
    ensures j < k ==> 2 * BufSize(j) <= BufSize(k)
    decreases k
  {
    if j < k {
      BufSizeMonotone(j, k - 1);
    } else if k > 0 {
      BufSizeMonotone(k - 1, k - 1);
    }
  }

  lemma LargestBufSize()
    ensures BufSize(18) == MAX_BUFSIZE
  {
    assert BufSize(6) == 0x8_0000;
    assert BufSize(12) == 0x200_0000;
  }

  lemma BufSizeBounds(n: nat)
    requires IsBufSize(n)
    ensures ASYNC_BUFSIZE <= n <= MAX_BUFSIZE
  {
    var k: nat :| k <= 18 && n == BufSize(k);
    BufSizeMonotone(k, 18);
    LargestBufSize();
  }

  /** `k` turns of the doubling loop, in 32 bits. */
  function Doubled(cur: nat, k: nat): nat {
    if k == 0 then cur else Doubled(cur, k - 1) * 2 % UNSIGNED_RANGE
  }

  lemma {:induction false} DoubledValue(j: nat, k: nat)
    requires j <= 18
    ensures Doubled(BufSize(j), k) == if j + k <= 18 then BufSize(j + k) else 0
    decreases k
  {
    if k > 0 {
      hide BufSize;
      DoubledValue(j, k - 1);
      OneDoubling(j + k - 1);
    }
  }

  lemma OneDoubling(i: nat)
    ensures i < 18 ==> BufSize(i) * 2 % UNSIGNED_RANGE == BufSize(i + 1)
    ensures BufSize(18) * 2 % UNSIGNED_RANGE == 0
  {
    LargestBufSize();
    if i < 18 {
      BufSizeMonotone(i + 1, 18);
    }
  }

  /** The doubling loop reaches what is needed exactly up to 2^31; beyond that it runs over to 0 and never ends. */
  lemma DoublingReachesIff(cur: nat, need: nat)
    requires IsBufSize(cur)
    ensures (exists k: nat :: Doubled(cur, k) >= need) <==> need <= MAX_BUFSIZE
  {
    var j: nat :| j <= 18 && cur == BufSize(j);
    LargestBufSize();
    DoubledValue(j, 18 - j);
    forall k: nat
      ensures Doubled(cur, k) <= MAX_BUFSIZE
    {
      DoubledValue(j, k);
      if j + k <= 18 {
        BufSizeMonotone(j + k, 18);
      }
    }
  }

  /** The doubling loop stops after `k` turns. */
  ghost predicate StopsAt(cur: nat, need: nat, k: nat) {
    Doubled(cur, k) >= need && forall j: nat :: j < k ==> Doubled(cur, j) < need
  }

  lemma {:induction false} StopsBy(cur: nat, need: nat, k: nat) returns (first: nat)
    requires Doubled(cur, k) >= need
    ensures first <= k && StopsAt(cur, need, first)
  {
    hide Doubled;
    if j: nat :| j < k && Doubled(cur, j) >= need {
      first := StopsBy(cur, need, j);
    } else {
      first := k;
    }
  }

  /** `buffer_len(aio) + size + 1`, in 32 bits. */
  function Needed32(used: nat, size: nat): nat {
    (used + size + 1) % UNSIGNED_RANGE
  }

  /** What becomes of a write that does not fit: the loop stops at a block with room for the queue and the argument
      exactly if these need at most 2^31 bytes; it never stops exactly if they need more, but fewer than 2^32; and
      exactly if they need 2^32 or more it stops at once, at the old size, which is too small. */
  lemma GrowthOutcome(cur: nat, used: nat, size: nat)
    requires IsBufSize(cur) && used < cur && cur - used <= size < UNSIGNED_RANGE
    ensures (exists k: nat :: StopsAt(cur, Needed32(used, size), k) && Doubled(cur, k) > used + size)
              <==> used + size + 1 <= MAX_BUFSIZE
    ensures (forall k: nat :: !StopsAt(cur, Needed32(used, size), k))
              <==> MAX_BUFSIZE < used + size + 1 < UNSIGNED_RANGE
    ensures StopsAt(cur, Needed32(used, size), 0) <==> used + size + 1 >= UNSIGNED_RANGE
  {
    hide Doubled, IsBufSize;
    var need := Needed32(used, size);
    NeededIs(cur, used, size);
    DoublingReachesIff(cur, need);
    NotDoubled(cur);
    if need <= MAX_BUFSIZE {
      var k: nat :| Doubled(cur, k) >= need;
      k := StopsBy(cur, need, k);
    }
  }

  lemma NotDoubled(cur: nat)
    ensures Doubled(cur, 0) == cur
  {
  }

  lemma DoubledNext(cur: nat, k: nat)
    ensures Doubled(cur, k + 1) == Doubled(cur, k) * 2 % UNSIGNED_RANGE
  {
  }

  lemma Twice(n: nat)
    requires 2 * n <= MAX_BUFSIZE
    ensures n * 2 % UNSIGNED_RANGE == 2 * n
  {
  }

  lemma NeededIs(cur: nat, used: nat, size: nat)
    requires IsBufSize(cur) && used < cur && cur - used <= size < UNSIGNED_RANGE
    ensures cur <= MAX_BUFSIZE
    ensures used + size + 1 < UNSIGNED_RANGE ==> Needed32(used, size) == used + size + 1 > cur
    ensures used + size + 1 >= UNSIGNED_RANGE ==> Needed32(used, size) <= used
  {
    BufSizeBounds(cur);
  }

  /** 2^32 - 1 bytes into an empty ring: nothing is needed, and the copy runs past a block of 8192 bytes. */
  lemma NothingNeeded()
    ensures Needed32(0, 0xFFFF_FFFF) == 0 && StopsAt(ASYNC_BUFSIZE, Needed32(0, 0xFFFF_FFFF), 0)
    ensures Doubled(ASYNC_BUFSIZE, 0) == 8192
  {
  }

  /** A buffer size short of the maximum can be doubled without passing the maximum. */
  lemma DoubleFits(n: nat)
    requires IsBufSize(n) && n < MAX_BUFSIZE
    ensures IsBufSize(2 * n) && 2 * n <= MAX_BUFSIZE
  {
    var k: nat :| k <= 18 && n == BufSize(k);
    LargestBufSize();
    assert 2 * n == BufSize(k + 1);
    BufSizeBounds(2 * n);
  }

  lemma SliceAppended(was: seq<byte>, now: seq<byte>, r: nat, w: nat, data: seq<byte>)
    requires r <= w && |was| == |now| && w + |data| <= |was|
    requires now[..w] == was[..w] && now[w..w + |data|] == data
    ensures now[r..w + |data|] == was[r..w] + data
  {
    assert now[r..w] == now[..w][r..] && was[r..w] == was[..w][r..];
  }

  lemma SuffixKept(was: seq<byte>, now: seq<byte>, k: nat, r: nat)
    requires k <= r <= |was| == |now| && now[k..] == was[k..]
    ensures now[r..] == was[r..]
  {
    assert now[r..] == now[k..][r - k..] && was[r..] == was[k..][r - k..];
  }

  /** In-place write that stays before the end of the buffer. */
  lemma WrittenStraight(was: seq<byte>, now: seq<byte>, r: nat, w: nat, data: seq<byte>)
    requires r < |was| == |now| && w < |was| && w + |data| <= |was|
    requires |RingContents(was, r, w)| + |data| < |was|
    requires now[..w] == was[..w] && now[w..w + |data|] == data && now[w + |data|..] == was[w + |data|..]
    ensures RingContents(now, r, Wrap(w + |data|, |was|)) == RingContents(was, r, w) + data
  {
    var end := w + |data|;
    if r <= w {
      SliceAppended(was, now, r, w, data);
      assert end == |was| ==> now[r..] + now[..0] == now[r..end];
    } else {
      SliceAppended(was, now, 0, w, data);
      SuffixKept(was, now, end, r);
      assert now[..end] == now[0..end] && was[..w] == was[0..w];
      assert was[r..] + (was[..w] + data) == was[r..] + was[..w] + data;
    }
  }

  /** In-place write that runs past the end and goes on at the start. */
  lemma WrittenAround(was: seq<byte>, mid: seq<byte>, now: seq<byte>, r: nat, w: nat, data: seq<byte>, c: nat)
    requires r <= w < |was| == |mid| == |now| && c == |was| - w && c < |data| && |data| - c < r
    requires mid[..w] == was[..w] && mid[w..] == data[..c]
    requires now[..|data| - c] == data[c..] && now[|data| - c..] == mid[|data| - c..]
    ensures RingContents(now, r, |data| - c) == RingContents(was, r, w) + data
  {
  }

  /** What does not fit behind the write position leaves room in front of the read position. */
  lemma RoomAround(buf: seq<byte>, r: nat, w: nat, n: nat)
    requires r < |buf| && w < |buf| && |RingContents(buf, r, w)| + n < |buf|
    ensures n > |buf| - w ==> r <= w && n - (|buf| - w) < r && RingContents(buf, r, w) == buf[r..w]
    ensures n < |buf|
  {
  }

  lemma Joined(s: seq<byte>, a: seq<byte>, b: seq<byte>)
    requires |a| + |b| <= |s| && s[..|a|] == a && s[|a|..|a| + |b|] == b
    ensures s[..|a| + |b|] == a + b
  {
  }

  /** The consumer's two clipped slices are the longest queue prefix that fits its local buffer. */
  lemma ClippedSlices(buf: seq<byte>, r: nat, w: nat, b: Buffers)
    requires r < |buf| && w < |buf| && b.start2 == 0 && (r != w ==> b.start1 == r) && b.start1 <= r
    requires r <= w ==> b.len1 == TakeCount(w - r) && b.len2 == 0
    requires r > w ==> b.len1 == TakeCount(|buf| - r)
    requires r > w ==> b.len2 == if w > ASYNC_LOCAL_BUFSIZE - b.len1 then ASYNC_LOCAL_BUFSIZE - b.len1 else w
    ensures b.Within(|buf|) && b.len1 + b.len2 == TakeCount(|RingContents(buf, r, w)|)
    ensures b.Bytes(buf) == RingContents(buf, r, w)[..b.len1 + b.len2]
  {
  }

  /** Advancing the read position by `n` removes the first `n` bytes of the queue. */
  lemma Advanced(buf: seq<byte>, r: nat, w: nat, n: nat)
    requires r < |buf| && w < |buf| && n <= |RingContents(buf, r, w)|
    ensures RingContents(buf, Wrap(r + n, |buf|), w) == RingContents(buf, r, w)[n..]
  {
  }

  /** `BUFFERS`: up to two slices of the ring, in queue order. */
  datatype Buffers = Buffers(start1: nat, len1: nat, start2: nat, len2: nat) {

    predicate Within(n: nat) {
      start1 + len1 <= n && start2 + len2 <= n
    }

    /** The bytes of the two slices, one slice after the other. */
    ghost function Bytes(buf: seq<byte>): seq<byte>
      requires Within(|buf|)
    {
      buf[start1..start1 + len1] + buf[start2..start2 + len2]
    }
  }

  /** How many bytes the consumer moves out in one go: all of the queue, up to its local buffer. */
  function TakeCount(queued: nat): (n: nat)
    ensures n <= queued && n <= 0x1_0000
    ensures n == queued || n == 0x1_0000
  {
    if queued < ASYNC_LOCAL_BUFSIZE then queued else ASYNC_LOCAL_BUFSIZE
  }

  /** The doubling loop. `cur` is an `unsigned int`, so doubling wraps; under the stated bound it
      never does, and the result is the first doubling of `cur` that is large enough. */
  method NextBufferSize(cur: nat, need: nat) returns (size: nat)
    requires IsBufSize(cur) && need <= MAX_BUFSIZE
    ensures need <= size && cur <= size && IsBufSize(size)
    ensures size == cur || size / 2 < need
    ensures exists k: nat :: StopsAt(cur, need, k) && size == Doubled(cur, k)
  {
    hide IsBufSize, Doubled;
    size := cur;
    BufSizeBounds(cur);
    NotDoubled(cur);
    ghost var k: nat := 0;
    while size < need
      invariant cur <= size <= MAX_BUFSIZE && IsBufSize(size) && 0 < size
      invariant size == cur || size / 2 < need
      invariant size == Doubled(cur, k) && forall j: nat :: j < k ==> Doubled(cur, j) < need
      decreases MAX_BUFSIZE - size
    {
      DoubleFits(size);
      Twice(size);
      DoubledNext(cur, k);
      size := (size * 2) % UNSIGNED_RANGE;
      k := k + 1;
    }
  }

  /** `mem_copy` from a separate block. */
  method CopyInto(dst: array<byte>, at: nat, data: seq<byte>)
    requires at + |data| <= dst.Length
    modifies dst
    ensures dst[at..at + |data|] == data
    ensures dst[..at] == old(dst[..at]) && dst[at + |data|..] == old(dst[at + |data|..])
  {
    forall i | 0 <= i < |data| {
      dst[at + i] := data[i];
    }
  }

  class AsyncIo {
    var buffer: array<byte>
    var bufferSize: nat
    var readPos: nat
    var writePos: nat

    ghost predicate Valid()
      reads this
    {
      && buffer.Length == bufferSize
      && IsBufSize(bufferSize)
      && readPos < bufferSize && writePos < bufferSize
    }

    ghost function Contents(): seq<byte>
      reads this, buffer
      requires Valid()
    {
      RingContents(buffer[..], readPos, writePos)
    }

    constructor ()
      ensures Valid() && fresh(buffer)
      ensures Contents() == [] && bufferSize == ASYNC_BUFSIZE
    {
      assert ASYNC_BUFSIZE == BufSize(0);
      buffer := new byte[ASYNC_BUFSIZE];
      bufferSize := ASYNC_BUFSIZE;
      readPos := 0;
      writePos := 0;
    }

    method BufferLen() returns (n: nat)
      requires Valid()
      ensures n == |Contents()|
    {
      if writePos >= readPos {
        n := writePos - readPos;
      } else {
        n := bufferSize + writePos - readPos;
      }
    }

    /** `buffer_ptrs`: the two slices, read one after the other, are the queue. */
    method BufferPtrs() returns (b: Buffers)
      requires Valid()
      ensures b.Within(bufferSize) && b.Bytes(buffer[..]) == Contents()
      ensures b.start2 == 0 && b.start1 == if readPos == writePos then 0 else readPos
      ensures readPos <= writePos ==> b.len1 == writePos - readPos && b.len2 == 0
      ensures readPos > writePos ==> b.len1 == bufferSize - readPos && b.len2 == writePos
    {
      b := Buffers(0, 0, 0, 0);
      if readPos < writePos {
        b := b.(start1 := readPos, len1 := writePos - readPos);
      } else if readPos > writePos {
        b := b.(start1 := readPos, len1 := bufferSize - readPos, start2 := 0, len2 := writePos);
      }
    }

    /** `aio_write_unlocked`: appends exactly `data`, in place, split at the end, or into a grown
        buffer. The bound matters only when it grows: it is then exactly what `GrowthOutcome` asks for. */
    method WriteUnlocked(data: seq<byte>)
      requires Valid()
      requires |Contents()| + |data| + 1 <= MAX_BUFSIZE
      modifies this, buffer
      ensures Valid()
      ensures Contents() == old(Contents()) + data
      ensures buffer == old(buffer) || fresh(buffer)
      ensures buffer == old(buffer) <==> |old(Contents())| + |data| < old(bufferSize)
      ensures bufferSize >= old(bufferSize)
    {
      var used := BufferLen();
      var remaining := bufferSize - used;
      if |data| < remaining {
        WriteInPlace(data);
      } else {
        WriteGrown(data, used);
      }
    }

    method WriteInPlace(data: seq<byte>)
      requires Valid()
      requires |Contents()| + |data| < bufferSize
      modifies this`writePos, buffer
      ensures Valid()
      ensures Contents() == old(Contents()) + data
    {
      hide RingContents, IsBufSize, Wrap;
      RoomAround(buffer[..], readPos, writePos, |data|);
      var contiguous := bufferSize - writePos;
      var rest := data;
      if |rest| > contiguous {
        PutAround(rest, contiguous);
        rest := rest[contiguous..];
        writePos := 0;
      } else {
        PutStraight(rest);
      }
      assert RingContents(buffer[..], readPos, Wrap(writePos + |rest|, bufferSize)) == old(Contents()) + data;
      WrapIsMod(writePos + |rest|, bufferSize);
      writePos := (writePos + |rest|) % bufferSize;
    }

    /** The copy of data that stays before the end of the buffer. */
    method PutStraight(data: seq<byte>)
      requires Valid() && writePos + |data| <= bufferSize && |Contents()| + |data| < bufferSize
      modifies buffer
      ensures Valid()
      ensures RingContents(buffer[..], readPos, Wrap(writePos + |data|, bufferSize)) == old(Contents()) + data
    {
      hide RingContents, IsBufSize, Wrap;
      ghost var was := buffer[..];
      CopyInto(buffer, writePos, data);
      WrittenStraight(was, buffer[..], readPos, writePos, data);
    }

    /** The two copies of data that goes on at the start of the buffer. */
    method PutAround(data: seq<byte>, contiguous: nat)
      requires Valid() && contiguous == bufferSize - writePos && contiguous < |data|
      requires readPos <= writePos && |data| - contiguous < readPos
      modifies buffer
      ensures Valid()
      ensures RingContents(buffer[..], readPos, Wrap(|data| - contiguous, bufferSize)) == old(Contents()) + data
    {
      hide RingContents, IsBufSize;
      ghost var was := buffer[..];
      CopyInto(buffer, writePos, data[..contiguous]);
      ghost var mid := buffer[..];
      CopyInto(buffer, 0, data[contiguous..]);
      WrittenAround(was, mid, buffer[..], readPos, writePos, data, contiguous);
    }

    method WriteGrown(data: seq<byte>, used: nat)
      requires Valid() && used == |Contents()|
      requires bufferSize <= used + |data| && used + |data| + 1 <= MAX_BUFSIZE
      modifies this
      ensures Valid() && fresh(buffer)
      ensures Contents() == old(Contents()) + data
      ensures bufferSize >= old(bufferSize)
    {
      hide RingContents, IsBufSize;
      // One extra byte so that the new buffer is not completely filled.
      var nextSize := NextBufferSize(bufferSize, Needed32(used, |data|));
      var nextBuffer := new byte[nextSize];
      var nextLen := CopyQueue(nextBuffer);
      CopyInto(nextBuffer, nextLen, data);
      Joined(nextBuffer[..], old(Contents()), data);
      Adopt(nextBuffer, nextLen + |data|);
    }

    /** Copies the queue to the start of a larger block. */
    method CopyQueue(dst: array<byte>) returns (n: nat)
      requires Valid() && |Contents()| <= dst.Length && dst != buffer
      modifies dst
      ensures n == |Contents()| && dst[..n] == Contents()
    {
      hide RingContents, IsBufSize;
      var b := BufferPtrs();
      n := CopySlices(b, dst);
    }

    /** Makes another block, with the queue at its start, the buffer. */
    method Adopt(nextBuffer: array<byte>, nextLen: nat)
      requires IsBufSize(nextBuffer.Length) && nextLen < nextBuffer.Length
      modifies this
      ensures Valid() && buffer == nextBuffer && bufferSize == nextBuffer.Length
      ensures Contents() == nextBuffer[..nextLen]
    {
      hide IsBufSize;
      buffer := nextBuffer;
      bufferSize := nextBuffer.Length;
      readPos := 0;
      writePos := nextLen;
    }

    /** Copies the two slices to the start of another block, one after the other. */
    method CopySlices(b: Buffers, dst: array<byte>) returns (n: nat)
      requires b.Within(buffer.Length) && b.len1 + b.len2 <= dst.Length && dst != buffer
      modifies dst
      ensures n == b.len1 + b.len2
      ensures dst[..n] == b.Bytes(buffer[..])
    {
      ghost var first, second := buffer[..][b.start1..b.start1 + b.len1], buffer[..][b.start2..b.start2 + b.len2];
      CopyInto(dst, 0, buffer[b.start1..b.start1 + b.len1]);
      n := b.len1;
      CopyInto(dst, n, buffer[b.start2..b.start2 + b.len2]);
      Joined(dst[..], first, second);
      n := n + b.len2;
    }

    /** The slices the consumer copies, clipped to its local buffer of `limit` bytes. */
    method ClippedPtrs(limit: nat) returns (b: Buffers)
      requires Valid() && limit == ASYNC_LOCAL_BUFSIZE
      ensures b.Within(bufferSize)
      ensures b.len1 + b.len2 == TakeCount(|Contents()|)
      ensures b.Bytes(buffer[..]) == Contents()[..b.len1 + b.len2]
    {
      b := BufferPtrs();
      if b.len1 > limit {
        b := b.(len1 := limit);
      }
      if b.len2 > limit - b.len1 {
        b := b.(len2 := limit - b.len1);
      }
      ClippedSlices(buffer[..], readPos, writePos, b);
    }

    /** The consumer's copy-out in `aio_thread`: moves the longest prefix that fits `local`. */
    method TakeLocal(local: array<byte>) returns (n: nat)
      requires Valid() && local.Length == ASYNC_LOCAL_BUFSIZE && local != buffer
      modifies this`readPos, local
      ensures Valid()
      ensures n == TakeCount(|old(Contents())|)
      ensures local[..n] == old(Contents())[..n]
      ensures Contents() == old(Contents())[n..]
    {
      hide RingContents, IsBufSize, TakeCount;
      var b := ClippedPtrs(local.Length);
      n := CopySlices(b, local);
      Advanced(buffer[..], readPos, writePos, n);
      WrapIsMod(readPos + n, bufferSize);
      readPos := (readPos + b.len1 + b.len2) % bufferSize;
    }
  }
}
