# DDNet base and game layers: a verified model

This project models seven parts of the DDNet code base in Dafny and proves what they are for. Each module follows one
part of the C++ source, in the source's own shape: objects that change their fields are classes, in-place algorithms
work on arrays, loops are loops with invariants, and pure conversions are functions. Methods are proved against
specification functions; lemmas then say what those functions mean.

| module | part of the source |
|---|---|
| `AsyncRing`, `WriterProtocol` | the asynchronous file writer: the growing ring as a byte queue, and the protocol between producers, writer thread and owner as a step system |
| `Prng`, `PrngOutput` | the PCG generator, the period of its state, and how often it returns each number |
| `Levenshtein`, `Utf8`, `Utf8Truncate`, `Base64` | edit distance, UTF-8 codec, truncating copies, Base64 |
| `NetAddr`, `NetAddrV6`, `NetAddrText` | printing and parsing network addresses |
| `Sha256`, `Sha256Constants`, `Sha256Example` | streaming SHA-256, what its numbers are (`Primes` has the primes that they come from), and a known digest |
| `Collision` | moving a box against the tile map |
| `Color` | RGB, HSL and HSV |
| `GameCore`, `Character` | hook and jump of a character, on values and on objects that hook each other |
| `FutureLogger` | the logger that is set later, as a step system |

`Bytes` holds the byte and C string types that the text modules share, `Sequences` the joining of parts into one
sequence, and `Numbers` arithmetic that several modules use.

Conventions. `float` is an exact `real`; `length` and `distance` are non-negative reals whose square is the dot product
and come in as parameters. Arithmetic is modular where the code relies on it (PCG, SHA-256, the Base64 accumulator) or
shows it (`parse_int`, the size of the writer's buffer); elsewhere integers are unbounded and the bounds under which
the source does not overflow are preconditions or are named below. A C string is the sequence of its bytes before the
terminator. Bit-wise or of disjoint fields is written as a sum. In the step systems one step is what a thread does
between two accesses to shared state, or under one hold of a lock.

Where the code does something other than one would expect, the code is followed:

- `TestBox` looks at four corners only. That is exact for sides of at most 32 units and for no larger box
  (`Collision.TestBoxExact`, `Collision.TestBoxInexact`).
- `sha256_update` narrows its length to 32 bits, so it absorbs its argument exactly if that is shorter than 2^32 bytes
  (`Sha256.Sha256Update`).
- The hook takes the last reachable player's slot, not the nearest player (`GameCore.HooksLastReachable`).
- The limit on holding somebody does not reach a hook that has retracted and still holds somebody. A tick leaves one
  behind exactly when a grabbed hook with a player and a dummy, within the limit, loses exactly one of the two: the
  dummy died, or the player's slot became empty, or the character has no id (`GameCore.GetsStuckIff`,
  `GameCore.StuckIff`, `GameCore.HeldOrStuck`; `GameCore.StuckWithPlayer`, `GameCore.StuckWithDummy`,
  `GameCore.StuckWithoutId` are runs).
- The comment in `Tick` says that the second jump bit is set after the first jump of a tee with one jump. In `Tick`
  alone it is not: the ground contact of the same tick clears it again (`GameCore.GroundJumpLeavesAirJump`).
  `DDRacePostCoreTick` (src/game/server/entities/character.cpp:1574-1577), which runs later, sets it.
- Messages are delivered in the order in which their calls handed them over exactly if nobody forwards without the
  lock while `Set` has messages left to flush (`FutureLogger.OvertakesIff`, `FutureLogger.InOrderIff`);
  `FutureLogger.ForwardingOvertakes` is a run that does.
- `parse_int` computes in an `int`, here with wrap-around, so a long run of digits can pass for a small number:
  `4294967296.0.0.0` is read as `0.0.0.0` (`NetAddr.RunsOver`). `parse_uint8` also accepts leading zeros.
- With a negative `truncation_len`, or an empty buffer, `str_utf8_truncate` calls `str_copy` with size 0. The bound it
  gives to `strncat` is then -1, the largest `size_t`, and the whole source is copied without a bound
  (`Utf8Truncate.TruncationFitsIff`).
- What is behind the bracket of an IPv6 address, or behind the digits of its port, is not looked at, unlike behind an
  IPv4 address (`NetAddrText.V6ReadIffBracketed`, `NetAddrText.JunkIgnored`).
- A write that does not fit the writer's buffer has three outcomes: with up to 2^31 bytes in all, one of them the
  spare one, the buffer grows; with more the doubling never ends; with 2^32 or more the sum wraps, the doubling stops
  at once, and the copy runs past the block (`AsyncRing.GrowthOutcome`, `AsyncRing.NothingNeeded`).
- What is written after the writer thread has left its loop, as a log message after `CLoggerAsync::GlobalFinish`
  (src/base/log.cpp:268-275) is, stays in the ring and never reaches the file (`WriterProtocol.DrainedIff`,
  `WriterProtocol.LateWriteLost`).
- The lock does not keep a producer from signalling through a freed struct; its callers must. Once the owner has let
  go with finish set, that can happen exactly if a write call is under way (`WriterProtocol.DutyNeeded`,
  `WriterProtocol.SignalAfterFree`).

## Model

| member | source | states |
|---|---|---|
| `AsyncRing.EmptyIffPositionsMeet` | src/base/system.cpp:668-669 | positions meet exactly on the empty queue, because the queue never fills the buffer; element k of the queue is buffer cell (read + k) modulo the size |
| `AsyncRing.AsyncIo.constructor` | src/base/system.cpp:595-629 | a new writer holds the empty queue in a buffer of the initial size |
| `AsyncRing.AsyncIo.BufferLen` | src/base/system.cpp:631-641 | the number computed from the two positions is the length of the queue |
| `AsyncRing.AsyncIo.BufferPtrs` | src/base/system.cpp:503-518 | the one or two slices, one after the other, are exactly the queue |
| `AsyncRing.NextBufferSize` | src/base/system.cpp:643-650 | the first doubling of the size that is large enough; below 2^31 doubling never wraps |
| `AsyncRing.DoublingReachesIff` | src/base/system.cpp:643-650 | the doubling loop in 32 bits reaches what it is asked for exactly if that is at most 2^31 |
| `AsyncRing.GrowthOutcome` | src/base/system.cpp:685-686 | for every write that does not fit, with the sum of queue, argument and 1 also taken in 32 bits: when the loop stops at a block that is large enough, when it never stops, and when it stops at once at one that is too small |
| `AsyncRing.NothingNeeded` | src/base/system.cpp:685-686 | 2^32 - 1 bytes into an empty ring make the sum 0 and leave the block at 8192 bytes |
| `AsyncRing.AsyncIo.WriteUnlocked` | src/base/system.cpp:663-711 | appends exactly its argument to the queue, as long as `GrowthOutcome` gives a block that is large enough; the buffer is replaced exactly if the bytes would fill it |
| `AsyncRing.AsyncIo.WriteInPlace` | src/base/system.cpp:669-681 | appends its argument without growing, straight or split at the end of the buffer |
| `AsyncRing.AsyncIo.WriteGrown` | src/base/system.cpp:682-710 | appends its argument while moving the queue into a fresh, larger buffer |
| `AsyncRing.ClippedSlices` | src/base/system.cpp:564-582 | the slices clipped to the local buffer are the longest queue prefix that fits it |
| `AsyncRing.Advanced` | src/base/system.cpp:583 | moving the read position by n modulo the size drops the first n bytes of the queue |
| `AsyncRing.AsyncIo.TakeLocal` | src/base/system.cpp:564-584 | the consumer's local buffer gets that prefix and the queue keeps the rest |
| `WriterProtocol.InvAlways` | src/base/system.cpp:520-776 | stream, line, lock, wake-up, reference-count and phase invariants hold after every interleaving |
| `WriterProtocol.OutputIsInput` | src/base/system.cpp:535-593 | on every interleaving the bytes ever queued are those given to `io_write`, then the local copy in flight, then the ring, in that order |
| `WriterProtocol.LinesContiguous` | src/base/system.cpp:652-718 | what is queued under one lock hold stands in the file in one piece, right behind the earlier lock holds, as soon as the file has grown that far |
| `WriterProtocol.LogLineUnbroken` | src/base/log.cpp:229-258 | so a message of `CLoggerAsync::Log`, with colour codes and newline, is one unbroken stretch of the file at that position |
| `WriterProtocol.LogChunksAreText` | src/base/log.cpp:236-256 | the separate writes of one log call add up to the whole line with its optional colour codes |
| `WriterProtocol.ShutdownSound` | src/base/system.cpp:520-593 | no lost wake-up; the thread leaves only with finish set; the file is closed and the struct freed at most once, and freed exactly once when both sides are done |
| `WriterProtocol.ExitsOnlyWhenDrained` | src/base/system.cpp:547-557 | the step that leaves the loop finds the ring empty and finish set, and closes the file exactly for `ASYNCIO_CLOSE` |
| `WriterProtocol.NoUseAfterFree` | src/base/system.cpp:520-533 | on every run in which no write begins after `aio_free` and none is under way at `aio_free`, no step touches the struct after it was freed |
| `WriterProtocol.TouchesFreedIff` | src/base/system.cpp:520-533 | on every run, a step behind the free touches the struct exactly if a producer takes it |
| `WriterProtocol.SignalAfterFree` | src/base/system.cpp:713-776 | a run without that duty: a producer has unlocked, the file is closed, the writer thread leaves, the owner frees, and the producer has yet to signal |
| `WriterProtocol.DutyNeeded` | src/base/system.cpp:520-533 | on every run, once the owner has let go with finish set, some continuation without new writes touches the freed struct exactly if a write call is under way |
| `WriterProtocol.ProgressBounded` | src/base/system.cpp:535-593 | once finish is set, calls already made take at most a computed number of further steps under any schedule |
| `WriterProtocol.NoDeadlock` | src/base/system.cpp:742-776 | once finish is set, some thread can move until every write call has returned and the writer thread is gone |
| `WriterProtocol.DrainWritesEverything` | src/base/system.cpp:753-776 | from a state with finish set, in which the writer thread is still there or has left nothing behind, calls already made put every byte into the file before no schedule can go on |
| `WriterProtocol.DrainedIff` | src/base/system.cpp:535-593 | on every run that has set finish and cannot be carried on, every call is done, and the file holds every byte ever queued, lock hold after lock hold, exactly if no bytes were written after the writer thread had left its loop |
| `WriterProtocol.LateWriteLost` | src/base/system.cpp:535-593 | a run that loses a byte: the file is closed, the writer thread leaves, and then the byte is written |
| `WriterProtocol.FileClosedIff` | src/base/system.cpp:547-557 | on every run the file is closed exactly once if the writer thread has left its loop and `aio_close` came before that, whatever else the owner called, and not at all otherwise |
| `WriterProtocol.SignalsKept` | src/base/system.cpp:657-661 | on every run the semaphore holds the signals that have not woken the writer thread yet |
| `WriterProtocol.WaitsOnce` | src/base/system.cpp:762-776 | no run waits twice for the writer thread, nor after the owner has let go |
| `Prng.CPrng.Seed` | src/game/prng.cpp:31-41 | the increment is twice the second seed plus one, hence odd; the state is one step behind the sum of seed and increment |
| `Prng.CPrng.RandomBits` | src/game/prng.cpp:43-54 | advances the state by the affine map modulo 2^64 and returns the permuted old state |
| `Prng.V2Geo` | src/game/prng.cpp:50-51 | for a multiplier 1 mod 4 the sum 1 + a + ... + a^(n-1) holds exactly the power of two that n holds |
| `Prng.IterateClosed` | src/game/prng.cpp:50-51 | the state after n draws in closed form |
| `Prng.ReturnsIff` | src/game/prng.cpp:43-54 | the state returns after n draws exactly if n is a multiple of 2^64 |
| `Prng.StatesDistinct` | src/game/prng.cpp:43-54 | within one period no state occurs twice |
| `Prng.EveryStateVisited` | src/game/prng.cpp:43-54 | every 64-bit state occurs within the first 2^64 draws |
| `Prng.FullPeriod` | src/game/prng.cpp:31-54 | for every seed the period is exactly 2^64 and every state occurs exactly once in it |
| `Prng.XorShiftInverse` | src/game/prng.cpp:52 | the xor-shift of the state can be undone |
| `Prng.RotateInjective` | src/game/prng.cpp:26-29 | the rotation loses nothing |
| `Prng.OutputDeterminesState` | src/game/prng.cpp:47-53 | an output and the 32 bits it does not show determine the state |
| `PrngOutput.EveryOutputEquallyOften` | src/game/prng.cpp:26-54 | within one period of 2^64 draws every 32-bit number is returned exactly 2^32 times |
| `PrngOutput.OnlyStateOf` | src/game/prng.cpp:47-53 | the state made from an output and the bits it does not show is the state itself |
| `PrngOutput.DrawMany` | src/game/prng.cpp:43-54 | n calls return the outputs of the first n states and leave the state n draws on |
| `PrngOutput.DemoNumbers` | src/test/prng.cpp:46-65 | seeded with 42 and 54 the generator returns the six numbers that the test expects |
| `Levenshtein.DistSymmetric` | src/base/system.cpp:3064-3098 | the distance is symmetric, which the shorter-first swap relies on |
| `Levenshtein.DistZero` | src/base/system.cpp:3064-3098 | the distance is zero exactly for equal strings |
| `Levenshtein.Triangle` | src/base/system.cpp:3064-3098 | the triangle inequality |
| `Levenshtein.LengthBounds` | src/base/system.cpp:3064-3098 | the distance is at least the difference of the lengths and at most their sum |
| `Levenshtein.NoShorterScript` | src/base/system.cpp:3084-3096 | no script of insertions, deletions and substitutions is shorter than the distance |
| `Levenshtein.ShortestScript` | src/base/system.cpp:3084-3096 | some script is as short as the distance |
| `Levenshtein.FillRow` | src/base/system.cpp:3086-3094 | one pass of the inner loop fills row j from the row above it and touches nothing else |
| `Levenshtein.FillTable` | src/base/system.cpp:3079-3097 | the two parity-indexed rows stay inside the buffer and end with the distance |
| `Levenshtein.StrUtf32DistBuffer` | src/base/system.cpp:3064-3098 | returns the distance of its inputs, in either order of lengths, also when they share the buffer's memory |
| `Levenshtein.StrToUtf32Unchecked` | src/base/system.cpp:3053-3062 | writes the decoded string and a zero from the given place on |
| `Levenshtein.StrUtf8DistBuffer` | src/base/system.cpp:3100-3118 | splits the buffer without overlap and returns the distance of the two decoded strings |
| `Levenshtein.StrUtf8Dist` | src/base/system.cpp:3044-3051 | its own buffer is large enough; returns the distance of the decoded strings |
| `Utf8.StrUtf8Encode` | src/base/system.cpp:3778-3809 | writes the encoding and nothing behind it; a negative number becomes one byte, a number above 0x10FFFF none |
| `Utf8.EncodeIsChar` | src/base/system.cpp:3778-3809 | the encoding of a scalar value is a character of the grammar in section 4 of RFC 3629 with that value |
| `Utf8.CharIsEncode` | src/base/system.cpp:3778-3809 | every character of the grammar is the encoding of its value |
| `Utf8.StrUtf8Decode` | src/base/system.cpp:3823-3888 | the decoding automaton returns the number and the place that the grammar of lead and tail bytes gives |
| `Utf8.DecodeProgress` | src/base/system.cpp:3823-3888 | on any bytes a decode before the terminator advances, stays inside the string and does not return 0; on the terminator it returns 0 |
| `Utf8.DecodeIsChar` | src/base/system.cpp:3823-3888 | a decode that succeeds has read one character of the grammar and returns its value |
| `Utf8.CharDecodes` | src/base/system.cpp:3823-3888 | where a character of the grammar stands, the decode returns it |
| `Utf8.FailsBehindLongest` | src/base/system.cpp:3823-3888 | a decode that fails has read the longest prefix that begins some character of the grammar, or one byte that begins none |
| `Utf8.CleanIffWellFormed` | src/base/system.cpp:3890-3901 | all decodes succeed exactly on well-formed strings |
| `Utf8.StrUtf8Check` | src/base/system.cpp:3890-3901 | accepts exactly the well-formed strings |
| `Utf8.EncodeDecode` | src/base/system.cpp:3778-3888 | decoding a well-formed rest of a string and encoding it again gives it back |
| `Utf8.DecodeEncode` | src/base/system.cpp:3778-3888 | encoding scalar values and decoding gives them back |
| `Utf8.CodecBijection` | src/base/system.cpp:3778-3901 | the codec is a bijection between sequences of non-zero scalar values and well-formed strings |
| `Utf8Truncate.StrUtf8Rewind` | src/base/system.cpp:3740-3749 | goes back to the nearest start byte before the cursor |
| `Utf8Truncate.StrUtf8FixTruncation` | src/base/system.cpp:3751-3766 | drops a last character that does not decode and nothing else |
| `Utf8Truncate.BoundaryIffStart` | src/base/system.cpp:3733-3738 | in well-formed text exactly the start bytes stand on character boundaries |
| `Utf8Truncate.StrCopy` | src/base/system.cpp:2725-2730 | leaves a terminated prefix of the source and nothing beyond the given size; size 0 is no bound |
| `Utf8Truncate.CopyIsLongestCut` | src/base/system.cpp:2725-2730 | for a well-formed source it is the longest prefix of at most dst_size - 1 bytes that ends on a character boundary |
| `Utf8Truncate.CopyKeepsBoundary` | src/base/system.cpp:2746 | a cut on a boundary survives the final copy whole |
| `Utf8Truncate.TruncationSize` | src/base/system.cpp:2732-2745 | the measuring loop counts how far the allowed decodes lead without passing the buffer; for a negative length or an empty buffer it stays at -1 |
| `Utf8Truncate.StrUtf8Truncate` | src/base/system.cpp:2732-2747 | leaves a terminated prefix of the source of the measured size, or the whole source but for a broken last character if the length is negative or the buffer empty |
| `Utf8Truncate.TruncationFitsIff` | src/base/system.cpp:2732-2747 | what is left fits the buffer exactly if the length is not negative and the buffer not empty, or the source is short enough by itself |
| `Utf8Truncate.TruncateIsLongestCut` | src/base/system.cpp:2732-2747 | for a well-formed source it is the longest such prefix that also has at most the requested number of code points |
| `Base64.StrBase64` | src/base/system.cpp:3282-3332 | the shifting accumulator writes the encoding of section 4 of RFC 4648, cut to the buffer, and a terminator |
| `Base64.EncodeIndex` | src/base/system.cpp:3294-3331 | character o of the encoding is character o mod 4 of the group for the bytes from 3 (o / 4) on |
| `Base64.EncodeLength` | src/base/system.cpp:3294-3331 | the encoding has four characters for each started group of three bytes |
| `Base64.DigitsInverse` | src/base/system.cpp:3334-3357 | digit values invert the alphabet, and everything outside it is rejected |
| `Base64.DigitsAreStandard` | src/base/system.cpp:3282-3293 | the digits are those of table 1 of RFC 4648, and the padding is an equals sign |
| `Base64.QuadIsNumber` | src/base/system.cpp:3294-3331 | the four characters of a group are its 24 bits, six at a time from the first on, zeros for missing bytes, with one padding character for each of these |
| `Base64.StrBase64DecodeGroup` | src/base/system.cpp:3376-3424 | one turn of the loop writes the bytes of a group or returns its error |
| `Base64.StrBase64Decode` | src/base/system.cpp:3359-3426 | returns the number of bytes written or the error of the first bad group, length or buffer |
| `Base64.DecodeOfEncode` | src/base/system.cpp:3282-3426 | with room enough, decoding an encoding gives the data back, for all data |
| `Base64.EncodeOfDecode` | src/base/system.cpp:3359-3426 | whatever decodes is the encoding of its result, so padding that is not canonical is rejected (section 3.5 of RFC 4648) |
| `Base64.AcceptedIffEncoding` | src/base/system.cpp:3359-3426 | with room enough exactly the encodings are accepted |
| `Base64.ErrorsIff` | src/base/system.cpp:3359-3426 | which error is returned: -3 for the length, -2 for the buffer, then -1 exactly if some character is no digit and not padding at the end |
| `Sha256.ChAndMajAreStandard` | src/base/hash_libtomcrypt.cpp:55-56 | the cheaper forms are the functions of section 4.1.2 of FIPS 180-4 |
| `Sha256Constants.ConstantsAreCubeRoots` | src/base/hash_libtomcrypt.cpp:15-29 | constant t is the first 32 bits of the fractional part of the cube root of prime number t (section 4.2.2 of FIPS 180-4) |
| `Sha256Constants.PrimesInOrder` | src/base/hash_libtomcrypt.cpp:15-29 | the 64 primes of that statement begin with 2 and leave none out |
| `Sha256Constants.InitialHashIsSquareRoots` | src/base/hash_libtomcrypt.cpp:112-124 | the initial hash value is the same for the square roots of the first eight primes (section 5.3.3) |
| `Sha256Constants.Sigma0Bits` | src/base/hash_libtomcrypt.cpp:59 | bit i is the exclusive or of bits i + 2, i + 13 and i + 22 |
| `Sha256Constants.Sigma1Bits` | src/base/hash_libtomcrypt.cpp:60 | bit i is the exclusive or of bits i + 6, i + 11 and i + 25 |
| `Sha256Constants.Gamma0Bits` | src/base/hash_libtomcrypt.cpp:61 | bit i is the exclusive or of bits i + 7, i + 18 and, below 32, i + 3 |
| `Sha256Constants.Gamma1Bits` | src/base/hash_libtomcrypt.cpp:62 | bit i is the exclusive or of bits i + 17, i + 19 and, below 32, i + 10 |
| `Sha256Constants.LoadedBytes` | src/base/hash_libtomcrypt.cpp:36-39 | a word is loaded from its four bytes, the most significant first |
| `Sha256Constants.LoadOfStore` | src/base/hash_libtomcrypt.cpp:36-53 | loading what was stored gives the word back |
| `Sha256Constants.LengthStored` | src/base/hash_libtomcrypt.cpp:41-46 | the eight bytes of the length are the length, the most significant first |
| `Sha256.FillSchedule` | src/base/hash_libtomcrypt.cpp:73-79 | the array holds the message schedule of section 6.2.2 |
| `Sha256.RoundInPlace` | src/base/hash_libtomcrypt.cpp:82-102 | a round in place and the rotation of the variables are one round of section 6.2.2 |
| `Sha256.Compress` | src/base/hash_libtomcrypt.cpp:64-108 | the state becomes the next intermediate hash value |
| `Sha256.HashAppend` | src/base/hash_libtomcrypt.cpp:126-156 | hashing one more block is the block function on the hash so far |
| `Sha256.ZeroCountIsLeast` | src/base/hash_libtomcrypt.cpp:168-180 | the padding uses the least number of zero bytes that section 5.1.1 asks for |
| `Sha256.Sha256Ctx.Init` | src/base/hash_libtomcrypt.cpp:112-124 | a new context has absorbed nothing |
| `Sha256.Sha256Ctx.Process` | src/base/hash_libtomcrypt.cpp:126-156 | absorbs exactly its argument behind what was absorbed before, however it falls on the blocks |
| `Sha256.Sha256Ctx.PadBuffer` | src/base/hash_libtomcrypt.cpp:168-180 | adds the zeros up to byte 56, through one more block exactly if the length does not fit |
| `Sha256.LastBlock` | src/base/hash_libtomcrypt.cpp:162-184 | the last buffer is the last block of the padded message |
| `Sha256.Sha256Ctx.Done` | src/base/hash_libtomcrypt.cpp:158-189 | writes the digest of all bytes absorbed: the block function folded over the padded message |
| `Sha256.Sha256Update` | src/base/hash_libtomcrypt.cpp:196-199 | absorbs the argument up to its length modulo 2^32, hence all of it exactly below 2^32 bytes |
| `Sha256.DigestOfChunks` | src/base/hash_libtomcrypt.cpp:191-206 | the digest of a message fed in pieces depends on the bytes only, not on the split |
| `Sha256Example.FoxDigest` | src/test/hash.cpp:24-26 | the sentence of the test has the digest that the test expects |
| `Collision.CellStep` | src/game/collision.cpp:249-259 | across at most 32 units the tile index changes by at most one, despite truncation, rounding and clamping |
| `Collision.CellBetween` | src/game/collision.cpp:249-259 | a coordinate between two that are at most 32 apart falls on the tile of one of them |
| `Collision.TestBoxExact` | src/game/collision.cpp:410-422 | for sides of at most 32 units the four corners are solid-free exactly if no point of the closed box is solid |
| `Collision.TestBoxInexact` | src/game/collision.cpp:410-422 | for every larger box there is a map and a place where the corners miss a solid point |
| `Collision.SolidIff` | src/game/collision.cpp:249-259 | a point is solid exactly if the tile that covers it, row by row and the outer ones going on for ever, is 1 or 3 |
| `Collision.MoveBox` | src/game/collision.cpp:424-497 | the loop takes the micro-steps one after the other until the box stands still |
| `Collision.NeverInsideWall` | src/game/collision.cpp:438-493 | a box that starts free of solid tiles is free after every number of micro-steps |
| `Collision.NoSolidPointOnTheWay` | src/game/collision.cpp:438-493 | for boxes of at most 32 units no point of the box is ever solid on the way |
| `Collision.MoveBoxStaysFree` | src/game/collision.cpp:424-497 | `MoveBox` leaves a free box free |
| `Collision.GroundedIff` | src/game/collision.cpp:460-490 | after any number of micro-steps the box is grounded exactly if it was before or a falling box was blocked in one of them on elastic ground, and not only sideways |
| `Collision.NoMotionGained` | src/game/collision.cpp:438-493 | no velocity component grows, and n micro-steps move a coordinate at most n shares of its initial velocity |
| `Collision.MoveBoxBounded` | src/game/collision.cpp:424-497 | over the whole call each coordinate moves at most its initial velocity component and no component grows |
| `Collision.MicroStepsShort` | src/game/collision.cpp:434-450 | every micro-step is shorter than one unit |
| `Collision.UnobstructedMove` | src/game/collision.cpp:424-497 | with free boxes all along the line the box ends at position plus velocity, with its velocity kept |
| `Collision.UnobstructedIff` | src/game/collision.cpp:424-497 | along a free line that is so exactly for a velocity that is zero or longer than 0.00001 |
| `Collision.VelocityLaw` | src/game/collision.cpp:438-493 | after any number of micro-steps a velocity component is the initial one times the negated elasticity once for each step blocked in its axis |
| `Collision.MoveBoxVelocity` | src/game/collision.cpp:424-497 | the same for the whole call, the elasticity clamped to -1 and 1 |
| `Collision.PositionLaw` | src/game/collision.cpp:438-493 | in every micro-step a coordinate moves on by its share exactly if the step is not blocked in its axis, whatever happens in the other one |
| `Collision.SlidesAlongGround` | src/game/collision.cpp:424-497 | without elasticity a box on the ground moves along it by its whole speed along it and loses only the speed into it |
| `Collision.SlidesAlongWall` | src/game/collision.cpp:424-497 | the same along a wall |
| `Color.HueLocates` | src/base/color.h:17-35 | the hue of a colour that is not grey names its sector and place on the colour hexagon |
| `Color.SectorHue` | src/base/color.h:17-35 | the hue of a point of the hexagon is its sector and place |
| `Color.RgbHslRgb` | src/base/color.h:208-262 | RGB to HSL to RGB is the identity on the unit cube with alpha kept, borders of sectors, greys, black and white included |
| `Color.HslOfRgbCanonical` | src/base/color.h:208-220 | every colour becomes an HSL value in range, with hue 0 for greys and saturation 0 for black and white |
| `Color.HslRgbHsl` | src/base/color.h:208-262 | HSL to RGB to HSL is the identity on those values |
| `Color.HslSurvivesIffCanonical` | src/base/color.h:208-262 | an HSL value whose colour lies in the unit cube survives the way through RGB exactly if it is one of those values |
| `Color.HueWraps` | src/base/color.h:222-262 | hue 1 and hue 0 are the same colour |
| `Color.HslRgbHslNormal` | src/base/color.h:208-262 | for hue, saturation and lightness from 0 to 1, HSL to RGB to HSL drops a full turn of the hue and the hue and saturation that black, white and greys do not have, and nothing else |
| `Color.HslMeaning` | src/base/color.h:222-262 | for all these values: the colour lies in the unit cube, the lightness is half way between smallest and largest component, their spread is the saturation's share of the largest possible, and the hue is the colour's |
| `Color.PrimaryHues` | src/base/color.h:17-35 | red, green and blue have the hues 0, 1/3 and 2/3 |
| `Color.HslHsvHsl` | src/base/color.h:264-276 | HSL to HSV to HSL is the identity exactly if black and white come without saturation |
| `Color.HsvHslHsv` | src/base/color.h:264-276 | HSV to HSL to HSV is the identity exactly if black comes without saturation |
| `Color.HsvMeaning` | src/base/color.h:284-288 | the value is the largest component and the saturation the spread relative to it |
| `Color.RgbHsvRgb` | src/base/color.h:278-288 | RGB to HSV to RGB is the identity on the unit cube |
| `GameCore.InvAlways` | src/game/gamecore.cpp:135-440 | on every sequence of ticks and moves from a fresh character the hook state stays in -1..5, the jump bits in 0..3, somebody is held only by a grabbed or retracted hook, and by a grabbed one only up to tick 60 |
| `GameCore.EventsIff` | src/game/gamecore.cpp:172-217 | exactly when a tick launches the hook, jumps from the ground and jumps in the air |
| `GameCore.LatchStep` | src/game/gamecore.cpp:172-235 | hook, jump and air jump each fire only when open, and are closed after an operation exactly if they fired or were closed and not opened |
| `GameCore.LatchedIff` | src/game/gamecore.cpp:172-235 | on every run each of them is closed exactly if it has fired and was not opened since |
| `GameCore.Separated` | src/game/gamecore.cpp:172-235 | within `Tick` and `Move`, two launches are separated by a tick with the hook key up, two jumps by one with the jump key up, two air jumps by a ground contact |
| `GameCore.GroundJumpLeavesAirJump` | src/game/gamecore.cpp:166-235 | after a jump from the ground the air jump is unused, whatever the number of jumps |
| `GameCore.JumpsCounted` | src/game/gamecore.cpp:172-235 | on every run `m_JumpedTotal` is the number of air jumps since the last ground contact |
| `GameCore.FlyOutcome` | src/game/gamecore.cpp:261-370 | where a flying hook ends: somebody in reach, the hook's length, a tile that cannot be hooked, solid ground, in this order |
| `GameCore.HookEventsIff` | src/game/gamecore.cpp:237-370 | exactly when a tick reports a hook attached to somebody or to the ground, thrown back by a tile, and returned |
| `GameCore.HooksLastReachable` | src/game/gamecore.cpp:291-313 | without a hooked dummy the players' loop ends with the last reachable slot |
| `GameCore.HooksLastDummy` | src/game/gamecore.cpp:315-336 | without a hooked player the dummies' loop ends with the last living dummy in reach |
| `GameCore.HooksNearestDummy` | src/game/gamecore.cpp:315-336 | with a player hooked and no dummy yet, it ends with the first of the nearest living dummies in reach, whatever the player's distance |
| `GameCore.ExchangesDummy` | src/game/gamecore.cpp:315-336 | with both hooked, the dummy is exchanged for the first of the nearest exactly if that is nearer than what was taken last |
| `GameCore.CatchesDummyIff` | src/game/gamecore.cpp:315-337 | without a hooked dummy the dummies' loop hooks one exactly if a living one is reachable |
| `GameCore.RetractTick` | src/game/gamecore.cpp:252-260 | a returning hook takes one tick for each of its three states and reports the last |
| `GameCore.ClockTick` | src/game/gamecore.cpp:205-225 | the hook's clock starts with a launch and counts the ticks in which the hook is grabbed once it has moved |
| `GameCore.KeyUpReleases` | src/game/gamecore.cpp:218-225 | from every state a tick with the hook key up ends with the hook idle and nobody held |
| `GameCore.IdleHoldsNobody` | src/game/gamecore.cpp:245-250 | from every state a tick that ends with the hook idle ends with nobody held |
| `GameCore.GrabbedOutcome` | src/game/gamecore.cpp:372-440 | where a tick leaves a grabbed hook with the key down: who is still held, whether it has retracted, and its clock |
| `GameCore.HeldExactly` | src/game/gamecore.cpp:135-440 | on every run the same player and dummy are held by a grabbed hook exactly as long as no tick has the key up, finds one of them lost, or finds the clock at 60 |
| `GameCore.HeldForAtMost` | src/game/gamecore.cpp:425-439 | within `Tick` and `Move`, somebody held by a grabbed hook through a whole stretch of ticks is held for exactly as many clock ticks, at most 60 in all |
| `GameCore.GetsStuckIff` | src/game/gamecore.cpp:372-440 | the end of a tick leaves a retracted hook that holds somebody exactly if a grabbed one held a player and a dummy, within the limit, and lost exactly one of them |
| `GameCore.GrabbedGetsStuckIff` | src/game/gamecore.cpp:135-440 | a whole tick from a grabbed hook does so exactly if the hook key stays down and that happens |
| `GameCore.FlyGetsStuckIff` | src/game/gamecore.cpp:261-440 | a tick from a flying hook does so exactly without an id, with a player and a dummy in reach |
| `GameCore.StuckStep` | src/game/gamecore.cpp:205-260 | such a hook stays so, with the same player and dummy, exactly until a tick with the hook key up |
| `GameCore.StuckIff` | src/game/gamecore.cpp:135-440 | on every run from a fresh character the hook is stuck exactly if some tick made it so and the hook key was not up since |
| `GameCore.HeldOrStuck` | src/game/gamecore.cpp:372-440 | on every run from a fresh character, somebody held through a whole stretch is at its end held by a stuck hook, or by a grabbed one whose clock has counted the ticks of the stretch up to at most 60 |
| `GameCore.HeldWithoutLimit` | src/game/gamecore.cpp:372-440 | for every number of ticks there is a run in which somebody is held for longer |
| `GameCore.StuckWithPlayer` | src/game/gamecore.cpp:392-400 | a run in which the dummy dies and the player stays hooked |
| `GameCore.StuckWithDummy` | src/game/gamecore.cpp:374-385 | a run of ticks in which the player's slot becomes empty and the living dummy stays hooked |
| `GameCore.StuckWithoutId` | src/game/gamecore.cpp:374-385 | without an id one tick that catches a player and a dummy ends so |
| `Character.CCharacterCore.SetHookedPlayer` | src/game/gamecore.cpp:742-764 | keeps the attached sets of all present characters the exact inverse of who hooks whom, self-hooking and empty slots included |
| `Character.ValidForAll` | src/game/gamecore.cpp:742-764 | what one character's call keeps, it keeps for every character of the world |
| `Character.CCharacterCore.HandleJump` | src/game/gamecore.cpp:172-203 | the jump part of the input is the value-level step |
| `Character.CCharacterCore.HandleHook` | src/game/gamecore.cpp:205-225 | the hook part of the input is the value-level step |
| `Character.CCharacterCore.CatchPlayers` | src/game/gamecore.cpp:291-313 | the loop over the players is the value-level fold, and the inverse is kept throughout |
| `Character.CCharacterCore.CatchDummies` | src/game/gamecore.cpp:315-337 | the loop over the dummies is the value-level fold; the hooked dummy is the one it was or the world's dummy of the recorded number |
| `Character.CCharacterCore.KeepHold` | src/game/gamecore.cpp:372-440 | the end of the tick, with the loss of player or dummy and the clock, is the value-level step |
| `Character.CCharacterCore.Tick` | src/game/gamecore.cpp:135-444 | a tick on objects is the value-level tick, hooks the world's dummy of the recorded number, leaves the rest of the world alone and keeps the attached sets the exact inverse |
| `Character.CCharacterCore.Move` | src/game/gamecore.cpp:587-591 | landing clears the second jump bit and the jump count |
| `FutureLogger.InvAlways` | src/base/log.cpp:447-481 | lock, logger, account and order invariants hold after every interleaving |
| `FutureLogger.ExactlyOnce` | src/base/log.cpp:447-481 | when `Set` and all `Log` calls have returned, every message was delivered exactly once and the buffered ones in the order they were buffered |
| `FutureLogger.NothingLost` | src/base/log.cpp:464-481 | at any time the message of a returned call is delivered or pending |
| `FutureLogger.NoDeadlock` | src/base/log.cpp:447-481 | once `Set` was called, some thread can move until everything has returned |
| `FutureLogger.ProgressBounded` | src/base/log.cpp:447-481 | without new calls every schedule ends within a computed number of steps |
| `FutureLogger.OvertakesIff` | src/base/log.cpp:447-481 | a delivery passes messages handed over earlier exactly if it forwards without the lock while `Set` has messages left to flush |
| `FutureLogger.InOrderIff` | src/base/log.cpp:447-481 | on every run, what is delivered and pending stands in the order of handing over exactly if no step does that |
| `FutureLogger.EarlierIsDeliveredFirst` | src/base/log.cpp:447-481 | on such a run a message that was handed over before another call began is delivered before it |
| `FutureLogger.ForwardingOvertakes` | src/base/log.cpp:464-471 | a run in which a later message is delivered before an earlier one whose call had returned |
| `NetAddr.ParseInt` | src/base/system.cpp:1234-1257 | reads the longest run of digits as a decimal number in 32 bits with wrap-around, or fails without a digit |
| `NetAddr.ParseV4` | src/base/system.cpp:1382-1411 | reads four numbers with dots, an optional port and the end of the string |
| `NetAddr.V4RoundTrip` | src/base/system.cpp:1114-1122 | a printed IPv4 address is read back, with port 0 if none was printed |
| `NetAddr.DottedIsRead` | src/base/system.cpp:1267-1287 | four runs of digits with dots, each at most 255 in 32 bits, leading zeros allowed, and a port are read as that address |
| `NetAddr.OnlyDottedIsRead` | src/base/system.cpp:1382-1411 | nothing else is read as an address |
| `NetAddr.ReadIffDotted` | src/base/system.cpp:1382-1411 | a text is read as an address exactly if it has that form |
| `NetAddr.PlainAddress` | src/base/system.cpp:1382-1411 | if the numbers are below 2^31, the address is made of their values |
| `NetAddr.RunsOver` | src/base/system.cpp:1234-1257 | the text `4294967296.0.0.0` is read as 0.0.0.0 |
| `NetAddrV6.LongestZeros` | src/base/system.cpp:1047-1083 | the scan finds the gap |
| `NetAddrV6.GapIsLeftmostLongest` | src/base/system.cpp:1049-1083 | the gap is the leftmost of the longest runs of at least two zero groups (section 4.2 of RFC 5952) |
| `NetAddrV6.NetAddrStrV6` | src/base/system.cpp:1084-1112 | the loop prints the groups before and behind the gap, `::` for it, brackets and port, cut to the size of the buffer |
| `NetAddrV6.ReadGroupsOfBody` | src/base/system.cpp:1047-1112 | splitting the text at the colons and filling the gap gives the eight groups back |
| `NetAddrText.NetAddrStr` | src/base/system.cpp:1114-1140 | prints an address of either family, or that the family is unknown, cut to the given length; uncut from the declared size on |
| `NetAddrText.NetAddrFromStr` | src/base/system.cpp:1331-1412 | reads both families, given `inet_pton` |
| `NetAddrText.V6ReadIffBracketed` | src/base/system.cpp:1337-1380 | text behind an opening bracket is read exactly if at most 127 bytes that `inet_pton` reads are followed by a closing bracket and no bad port |
| `NetAddrText.JunkIgnored` | src/base/system.cpp:1360-1380 | whatever follows the closing bracket other than a colon, or the digits of the port other than a digit, changes nothing |
| `NetAddrText.RoundTrip` | src/base/system.cpp:1114-1412 | a printed address of either family is read back, given an `inet_pton` that reads the printed groups |
| `NetAddrText.ReferenceReads` | src/base/system.cpp:1331-1412 | such an `inet_pton` exists |
| `NetAddrText.V6TextInjective` | src/base/system.cpp:1047-1112 | the text determines the eight groups and the port |
| `NetAddrText.AddrTextFits` | src/base/types.h:40 | every printed address fits a buffer of the declared size |
| `NetAddrText.PrintedV4` | src/test/netaddr.cpp:48-52 | 127.0.0.1 is printed as the test expects, with a port and without |
| `NetAddrText.PrintedV6` | src/test/netaddr.cpp:104-112 | an address with two runs of zeros is printed as section 4.2.3 of RFC 5952 asks for, byte by byte |
| `NetAddrText.PrintedUnknown` | src/test/netaddr.cpp:128-136 | an address of type 0 is printed as the test expects |

## Left out

- AsyncRing.AsyncIo.WriteUnlocked: assumes that queue and argument together stay below 2^31 bytes; otherwise it does
  not end or runs past its block (`AsyncRing.GrowthOutcome`), which is not modelled as an effect on memory.
- WriterProtocol.OutputIsInput: takes `io_write` as an append of all its bytes; short writes, `io_error`, `aio_error`
  and failing allocation are not modelled.
- WriterProtocol.DrainWritesEverything: speaks of calls made before the writer thread leaves; `DrainedIff` has the
  later ones.
- Sha256.Sha256Ctx.Process: takes lengths below 2^32, as its 32-bit parameter does; `Sha256Update` has the narrowing.
- Utf8Truncate.StrUtf8Truncate: a copy without a bound needs room for the whole source; writing past the end of an
  array is not modelled.
- NetAddrText.NetAddrFromStr: `inet_pton` is a parameter, and so is its result for text that the printer never writes.
- Collision.MoveBox: exact reals, so no rounding error; the length of the velocity is a parameter; the `pGrounded`
  pointer is always given.
- Color.RgbHslRgb: exact reals on the unit cube; outside it the divisor can be zero.
- Character.CCharacterCore.Tick: positions, velocities, forces and `m_MoveRestrictions` are left out; which characters
  the hook's line passes and may take (solo, super and id flags included), and how far away they are, is an input. The
  branch for hooks through teleporters is left out because its guard is constantly false in this function.
- Character.CCharacterCore.Move: only the ground contact; moving and the collision with other players are left out.
- `CCharacterCore::Reset` and `Read`, which overwrite the hook's fields from outside, and `DDRacePostCoreTick`
  (src/game/server/entities/character.cpp:1555-1588), which sets the hook's clock back for an endless hook and rewrites
  the jump bits: the air jumps of `GameCore.Separated` and `GameCore.JumpsCounted` and the limits of
  `GameCore.HeldForAtMost`, `GameCore.HeldExactly` and `GameCore.HeldOrStuck` are those of `Tick` and `Move` alone.
- FutureLogger.ExactlyOnce: `CFutureLogger` appears only as a step system on values, because its property is about
  interleavings; a second `Set`, which the source asserts away, message filters, `GlobalFinish` and memory orders
  weaker than sequential consistency are left out.
- Sockets, files, processes, time and locale functions, graphics, sound, interfaces, generators and scripts.
- Flag getters, tuning tables and tile predicates.
