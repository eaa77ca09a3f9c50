/** `str_base64` and `str_base64_decode` of src/base/system.cpp against sections 4 and 3.5 of RFC 4648. */
module Base64 {
  import opened Bytes
  import opened Numbers

  const PAD: byte := 61

  /** The alphabet of section 4 of RFC 4648, `DIGITS` in the source. */
  function DigitOf(v: nat): byte
    requires v < 64
  {
    if v < 26 then 65 + v
    else if v < 52 then 97 + (v - 26)
    else if v < 62 then 48 + (v - 52)
    else if v == 62 then 43
    else 47
  }

  /** `base64_digit_value` */
  function DigitValue(digit: byte): int {
    if 65 <= digit <= 90 then digit - 65
    else if 97 <= digit <= 122 then digit as int - 97 + 26
    else if 48 <= digit <= 57 then digit as int - 48 + 52
    else if digit == 43 then 62
    else if digit == 47 then 63
    else -1
  }

  lemma DigitsInverse(v: nat, c: byte)
    requires v < 64
    ensures DigitValue(DigitOf(v)) == v && DigitOf(v) != PAD && DigitOf(v) != 0
    ensures -1 <= DigitValue(c) < 64 && (DigitValue(c) != -1 ==> DigitOf(DigitValue(c)) == c)
  {
  }

  const UPPER: string := "ABCDEFGHIJKLMNOPQRSTUVWXYZ"
  const LOWER: string := "abcdefghijklmnopqrstuvwxyz"
  const REST: string := "0123456789+/"

  lemma UpperDigits(v: nat)
    requires v < 26
    ensures |UPPER| == 26 && DigitOf(v) == UPPER[v] as int
  {
  }

  lemma LowerDigits(v: nat)
    requires 26 <= v < 52
    ensures |LOWER| == 26 && DigitOf(v) == LOWER[v - 26] as int
  {
  }

  lemma RestDigits(v: nat)
    requires 52 <= v < 64
    ensures |REST| == 12 && DigitOf(v) == REST[v - 52] as int
  {
  }

  /** The digits are those of table 1 of RFC 4648, and the padding is an equals sign. */
  lemma DigitsAreStandard(v: nat)
    requires v < 64
    ensures |UPPER + LOWER + REST| == 64 && DigitOf(v) == (UPPER + LOWER + REST)[v] as int && PAD == '=' as int
  {
    hide DigitOf;
    UpperDigits(if v < 26 then v else 0);
    LowerDigits(if 26 <= v < 52 then v else 26);
    RestDigits(if 52 <= v then v else 52);
  }

  // ---------------------------------------------------------------------------------------------
  // Encoding
  // ---------------------------------------------------------------------------------------------

  /** Character `r` of the four that stand for the first three bytes of `d`, or for fewer at the end. */
  function QuadChar(d: seq<byte>, r: nat): byte
    requires d != [] && r < 4
  {
    match r
    case 0 => DigitOf(d[0] / 4)
    case 1 => DigitOf(d[0] % 4 * 16 + if |d| > 1 then d[1] / 16 else 0)
    case 2 => if |d| > 1 then DigitOf(d[1] % 16 * 4 + if |d| > 2 then d[2] / 64 else 0) else PAD
    case _ => if |d| > 2 then DigitOf(d[2] % 64) else PAD
  }

  function Quad(d: seq<byte>): seq<byte>
    requires d != []
  {
    [QuadChar(d, 0), QuadChar(d, 1), QuadChar(d, 2), QuadChar(d, 3)]
  }

  /** The value of a digit; padding stands for 0. */
  function Sextet(c: byte): int {
    if c == PAD then 0 else DigitValue(c)
  }

  /** The four characters are the 24 bits of the group, six at a time from the first on, with zeros for missing bytes;
      there is a padding character for each of these. */
  lemma QuadIsNumber(d: seq<byte>)
    requires 1 <= |d| <= 3
    ensures var q := Quad(d);
            Sextet(q[0]) * 0x4_0000 + Sextet(q[1]) * 0x1000 + Sextet(q[2]) * 0x40 + Sextet(q[3])
            == d[0] as int * 0x1_0000 + (if |d| > 1 then d[1] as int * 0x100 else 0) + if |d| > 2 then d[2] else 0
    ensures var q := Quad(d); q[0] != PAD && q[1] != PAD && (q[2] == PAD <==> |d| < 2) && (q[3] == PAD <==> |d| < 3)
  {
    hide DigitOf, DigitValue;
    var b1, b2 := if |d| > 1 then d[1] else 0, if |d| > 2 then d[2] else 0;
    DigitsInverse(d[0] / 4, 0);
    DigitsInverse(d[0] % 4 * 16 + b1 / 16, 0);
    DigitsInverse(b1 % 16 * 4 + b2 / 64, 0);
    DigitsInverse(b2 % 64, 0);
  }

  function Drop3(d: seq<byte>): seq<byte> {
    if |d| <= 3 then [] else d[3..]
  }

  function Encode(d: seq<byte>): seq<byte>
    decreases |d|
  {
    if d == [] then [] else Quad(d) + Encode(Drop3(d))
  }

  lemma {:induction false} EncodeLength(d: seq<byte>)
    ensures |Encode(d)| == (|d| + 2) / 3 * 4
    decreases |d|
  {
    if d != [] {
      EncodeLength(Drop3(d));
      if |d| > 3 {
        assert (|d| + 2) / 3 == (|Drop3(d)| + 2) / 3 + 1;
      }
    }
  }

  lemma {:induction false} EncodeIndexAt(d: seq<byte>, k: nat, r: nat)
    requires r < 4 && 4 * k + r < |Encode(d)|
    ensures 3 * k < |d| && Encode(d)[4 * k + r] == QuadChar(d[3 * k..], r)
    decreases |d|
  {
    if k > 0 {
      EncodeIndexAt(Drop3(d), k - 1, r);
      assert d[3..][3 * (k - 1)..] == d[3 * k..];
    }
  }

  lemma EncodeIndex(d: seq<byte>, o: nat)
    requires o < |Encode(d)|
    ensures 3 * (o / 4) < |d| && Encode(d)[o] == QuadChar(d[3 * (o / 4)..], o % 4)
  {
    EncodeIndexAt(d, o / 4, o % 4);
  }

  lemma SixBits(x: nat, k: nat, r: nat)
    requires x == 64 * k + r && r < 64
    ensures x % 64 == r
  {
  }

  /** Dividing by `m` only drops what lies below `m`. */
  lemma Shifted(x: nat, m: nat, k: nat, q: nat)
    requires m == 4 || m == 16 || m == 64
    requires x == m * k + q
    ensures x / m == k + q / m
  {
  }

  /** The six bits the encoder cuts from its accumulator when bits of the last byte read, `q`, suffice. */
  lemma SextetsOfOne(value: nat, m: nat, q: byte)
    requires value == 256 * m + q
    ensures value / 4 % 64 == q / 4 && value % 64 == q % 64
    ensures value * 16 % 64 == q % 4 * 16 && value * 4 % 64 == q % 16 * 4
  {
    Shifted(value, 4, 64 * m, q);
    SixBits(value / 4, m, q / 4);
    SixBits(value, 4 * m + q / 64, q % 64);
    SixBits(value * 16, 64 * m + q / 4, q % 4 * 16);
    SixBits(value * 4, 16 * m + q / 16, q % 16 * 4);
  }

  /** The same when they reach into the byte before, `p`. */
  lemma SextetsOfTwo(value: nat, h: nat, p: byte, q: byte)
    requires value == 65536 * h + 256 * p + q
    ensures value / 16 % 64 == p % 4 * 16 + q / 16
    ensures value / 64 % 64 == p % 16 * 4 + q / 64
  {
    Shifted(value, 16, 4096 * h + 16 * p, q);
    SixBits(value / 16, 64 * h + p / 4, p % 4 * 16 + q / 16);
    Shifted(value, 64, 1024 * h + 4 * p, q);
    SixBits(value / 64, 16 * h + p / 16, p % 16 * 4 + q / 64);
  }

  const UNSIGNED_RANGE: nat := 0x1_0000_0000

  /** `(value << 8) | b` of a 32-bit `value`. */
  function Accumulate(value: nat, b: byte): nat {
    (value * 256 + b) % UNSIGNED_RANGE
  }

  /** Shifting a byte into the 32-bit accumulator keeps the byte that was last before it. */
  lemma ShiftedIn(value: nat, q: byte)
    ensures var v := (value * 256 + q) % UNSIGNED_RANGE;
            v % 256 == q && v % 65536 == value % 256 * 256 + q
  {
    var v := (value * 256 + q) % UNSIGNED_RANGE;
    var m := (value * 256 + q) / UNSIGNED_RANGE;
    LowBytes(v, value / 256 - m * 65536, value % 256, q);
  }

  lemma LowByte(v: int, k: int, r: nat)
    requires v == 256 * k + r && r < 256
    ensures v % 256 == r
  {
  }

  lemma LowTwoBytes(v: int, k: int, r: nat)
    requires v == 65536 * k + r && r < 65536
    ensures v % 65536 == r
  {
  }

  lemma LowBytes(v: int, k: int, p: byte, q: byte)
    requires v == 65536 * k + 256 * p + q
    ensures v % 256 == q && v % 65536 == p as int * 256 + q
  {
    LowByte(v, 256 * k + p, q);
    LowTwoBytes(v, k, 256 * p + q);
  }

  /** `padded`: the digit the encoder forms from `numBits` pending bits of its accumulator. */
  function Padded(value: nat, numBits: int): nat
    requires 0 < numBits
  {
    if numBits >= 6 then value / Pow2(numBits - 6) % 64
    else value * Pow2(6 - numBits) % UNSIGNED_RANGE % 64
  }

  /** What the accumulator holds between two steps: `i` bytes are read, `o` characters are written. */
  ghost predicate Pending(d: seq<byte>, value: nat, numBits: int, i: nat, o: nat) {
    && i <= |d| && (i > 0 ==> value % 256 == d[i - 1])
    && ((i == 3 * (o / 4) + o % 4 && numBits == 2 * (o % 4))
        || (i == |d| < 3 * (o / 4) + o % 4 && numBits < 0))
  }

  /** The same once a byte has been read where one was needed and left. */
  ghost predicate Loaded(d: seq<byte>, value: nat, numBits: int, i: nat, o: nat) {
    && i <= |d| && (i > 0 ==> value % 256 == d[i - 1])
    && ((o % 4 < 3 && i == 3 * (o / 4) + o % 4 + 1 && numBits == 2 * (o % 4) + 8
         && (o % 4 > 0 ==> value % 65536 == d[i - 2] as int * 256 + d[i - 1]))
        || (o % 4 == 3 && i == 3 * (o / 4) + 3 && numBits == 6)
        || (o % 4 < 3 && i == |d| == 3 * (o / 4) + o % 4 && numBits == 2 * (o % 4))
        || (i == |d| < 3 * (o / 4) + o % 4 && numBits < 0))
  }

  lemma ReadStep(d: seq<byte>, value: nat, numBits: int, i: nat, o: nat)
    requires Pending(d, value, numBits, i, o) && numBits < 6 && i < |d|
    ensures Loaded(d, Accumulate(value, d[i]), numBits + 8, i + 1, o)
  {
    ShiftedIn(value, d[i]);
  }

  lemma EmitStep(d: seq<byte>, value: nat, numBits: int, i: nat, o: nat)
    requires Loaded(d, value, numBits, i, o) && numBits > 0
    ensures Pending(d, value, numBits - 6, i, o + 1)
  {
    var r := o % 4;
    if r == 3 {
      assert (o + 1) / 4 == o / 4 + 1 && (o + 1) % 4 == 0;
    } else {
      assert (o + 1) / 4 == o / 4 && (o + 1) % 4 == r + 1;
    }
  }

  lemma PadStep(d: seq<byte>, value: nat, numBits: int, i: nat, o: nat)
    requires Loaded(d, value, numBits, i, o) && numBits <= 0 && o % 4 != 0
    ensures i == |d| < 3 * (o / 4) + o % 4 && Pending(d, value, numBits, i, o + 1)
  {
    assert 3 * ((o + 1) / 4) + (o + 1) % 4 >= 3 * (o / 4) + o % 4;
  }

  lemma WrapKeepsLow(x: nat)
    ensures x % UNSIGNED_RANGE % 64 == x % 64
  {
    var m := x / UNSIGNED_RANGE;
    assert x == 64 * (m * 0x400_0000) + x % UNSIGNED_RANGE;
    SixBits(x, m * 0x400_0000 + x % UNSIGNED_RANGE / 64, x % UNSIGNED_RANGE % 64);
  }

  lemma PaddedFromOne(value: nat, numBits: int, q: byte)
    requires value % 256 == q && (numBits == 2 || numBits == 4 || numBits == 6 || numBits == 8)
    ensures Padded(value, numBits) == match numBits
              case 2 => q % 4 * 16
              case 4 => q % 16 * 4
              case 6 => q % 64
              case _ => q / 4
  {
    SextetsOfOne(value, value / 256, q);
    assert Pow2(0) == 1 && Pow2(2) == 4 && Pow2(4) == 16;
    if numBits < 6 {
      WrapKeepsLow(value * Pow2(6 - numBits));
    }
  }

  lemma PaddedFromTwo(value: nat, numBits: int, p: byte, q: byte)
    requires value % 65536 == p as int * 256 + q && (numBits == 10 || numBits == 12)
    ensures Padded(value, numBits) == if numBits == 10 then p % 4 * 16 + q / 16 else p % 16 * 4 + q / 64
  {
    SextetsOfTwo(value, value / 65536, p, q);
    assert Pow2(4) == 16 && Pow2(6) == 64;
  }

  /** The next character of the encoding is the digit formed from the pending bits. */
  lemma NextDigit(d: seq<byte>, value: nat, numBits: int, i: nat, o: nat)
    requires Loaded(d, value, numBits, i, o) && numBits > 0
    ensures o < |Encode(d)| && Padded(value, numBits) < 64 && Encode(d)[o] == DigitOf(Padded(value, numBits))
  {
    EncodeLength(d);
    StillEncoding(|d|, o);
    EncodeIndex(d, o);
    if numBits > 8 {
      PaddedFromTwo(value, numBits, d[i - 2], d[i - 1]);
    } else {
      PaddedFromOne(value, numBits, d[i - 1]);
    }
  }

  lemma StillEncoding(n: nat, o: nat)
    requires 3 * (o / 4) < n
    ensures o < (n + 2) / 3 * 4
  {
  }

  /** `str_base64`: with too small a buffer the output is cut, otherwise it is the encoding. */
  method StrBase64(dst: array<byte>, dstSize: nat, data: seq<byte>) returns (ghost n: nat)
    requires 1 <= dstSize <= dst.Length
    modifies dst
    ensures n == if |Encode(data)| < dstSize - 1 then |Encode(data)| else dstSize - 1
    ensures dst[..n] == Encode(data)[..n] && dst[n] == 0
  {
    var value: nat := 0;
    var numBits: int := 0;
    var i, o := 0, 0;
    var size := dstSize - 1;
    ghost var e := Encode(data);
    dst[size] := 0;
    n := 0;
    assert Pending(data, value, numBits, i, o) && Written(dst, o, size, e);
    hide Written, Encode, Pending, Loaded, Padded, DigitOf, Accumulate;
    while true
      invariant o <= size && o <= |e| && Written(dst, o, size, e)
      invariant Pending(data, value, numBits, i, o)
      decreases |e| - o
    {
      if numBits < 6 && i < |data| {
        ReadStep(data, value, numBits, i, o);
        value := Accumulate(value, data[i]);
        numBits := numBits + 8;
        i := i + 1;
      } else {
        NothingToRead(data, value, numBits, i, o);
      }
      if o == size {
        n := o;
        break;
      }
      var done;
      numBits, o, done := Emit(dst, size, data, value, numBits, i, o);
      n := o;
      if done {
        break;
      }
    }
    CutAt(dst, n, size, e);
  }

  /** The second half of a turn: a digit, padding, or the end. */
  method Emit(dst: array<byte>, size: nat, ghost data: seq<byte>, value: nat, numBits0: int, ghost i: nat, o0: nat)
    returns (numBits: int, o: nat, done: bool)
    requires size < dst.Length && o0 < size && o0 <= |Encode(data)| && Written(dst, o0, size, Encode(data))
    requires Loaded(data, value, numBits0, i, o0)
    modifies dst
    ensures o <= size && o <= |Encode(data)| && Written(dst, o, size, Encode(data))
    ensures done ==> o == |Encode(data)| && dst[o] == 0
    ensures !done ==> o == o0 + 1 && Pending(data, value, numBits, i, o)
  {
    hide Written, Encode, Pending, Loaded, Padded, DigitOf;
    numBits, o := numBits0, o0;
    if numBits > 0 {
      NextDigit(data, value, numBits, i, o);
      EmitStep(data, value, numBits, i, o);
      Put(dst, o, DigitOf(Padded(value, numBits)), size, Encode(data));
      return numBits - 6, o + 1, false;
    } else if o % 4 != 0 {
      PadStep(data, value, numBits, i, o);
      NextPad(data, i, o);
      Put(dst, o, PAD, size, Encode(data));
      return numBits, o + 1, false;
    }
    NothingLeft(data, value, numBits, i, o);
    AllEncoded(data, i, o);
    Terminate(dst, o, size, Encode(data));
    done := true;
  }

  method Terminate(dst: array<byte>, o: nat, size: nat, ghost e: seq<byte>)
    requires size < dst.Length && Written(dst, o, size, e)
    modifies dst
    ensures Written(dst, o, size, e) && dst[o] == 0
  {
    dst[o] := 0;
    assert dst[..o] == old(dst[..o]);
  }

  lemma CutAt(dst: array<byte>, n: nat, size: nat, e: seq<byte>)
    requires size < dst.Length && Written(dst, n, size, e)
    ensures dst[..n] == e[..n] && (n == size ==> dst[n] == 0)
  {
  }

  /** The first `o` characters of `e` are written, and the terminator at `size`. */
  ghost predicate Written(dst: array<byte>, o: nat, size: nat, e: seq<byte>)
    requires size < dst.Length
    reads dst
  {
    o <= size && o <= |e| && dst[..o] == e[..o] && dst[size] == 0
  }

  method Put(dst: array<byte>, o: nat, c: byte, size: nat, ghost e: seq<byte>)
    requires size < dst.Length && o < size && o < |e| && e[o] == c && Written(dst, o, size, e)
    modifies dst
    ensures Written(dst, o + 1, size, e)
  {
    dst[o] := c;
    assert dst[..o + 1] == dst[..o] + [c];
  }

  lemma NothingToRead(d: seq<byte>, value: nat, numBits: int, i: nat, o: nat)
    requires Pending(d, value, numBits, i, o) && !(numBits < 6 && i < |d|)
    ensures Loaded(d, value, numBits, i, o)
  {
  }

  lemma NothingLeft(d: seq<byte>, value: nat, numBits: int, i: nat, o: nat)
    requires Loaded(d, value, numBits, i, o) && numBits <= 0 && o % 4 == 0
    ensures i == |d| <= 3 * (o / 4)
  {
  }

  lemma NextPad(d: seq<byte>, i: nat, o: nat)
    requires o % 4 != 0 && o <= |Encode(d)| && i == |d| < 3 * (o / 4) + o % 4
    ensures 3 * (o / 4) < |d|
    ensures o < |Encode(d)| && Encode(d)[o] == PAD
  {
    EncodeLength(d);
    StillEncoding(|d|, o);
    EncodeIndex(d, o);
  }

  lemma AllEncoded(d: seq<byte>, i: nat, o: nat)
    requires o % 4 == 0 && o <= |Encode(d)| && i == |d| <= 3 * (o / 4)
    ensures o == |Encode(d)|
  {
    EncodeLength(d);
    assert (|d| + 2) / 3 <= o / 4;
  }

  // ---------------------------------------------------------------------------------------------
  // Decoding
  // ---------------------------------------------------------------------------------------------

  /** The decoder's answer: the bytes it wrote, or its negative return value. */
  datatype Decoded = Data(bytes: seq<byte>) | Failed(code: int)

  /** How many bytes a group of four yields; only the last group may be padded. */
  function OutputBytes(q: seq<byte>, last: bool): nat
    requires |q| == 4
  {
    if last && q[3] == PAD then if q[2] == PAD then 1 else 2 else 3
  }

  /** The digit at place `r`; padding counts as zero. */
  function GroupDigit(q: seq<byte>, last: bool, r: nat): int
    requires |q| == 4 && r < 4
  {
    if r >= OutputBytes(q, last) + 1 then 0 else DigitValue(q[r])
  }

  function GroupValue(q: seq<byte>, last: bool): int
    requires |q| == 4
  {
    GroupDigit(q, last, 0) * 262144 + GroupDigit(q, last, 1) * 4096 + GroupDigit(q, last, 2) * 64
    + GroupDigit(q, last, 3)
  }

  function ByteOf(value: int, b: nat): byte
    requires b < 3
  {
    match b
    case 0 => value / 65536 % 256
    case 1 => value / 256 % 256
    case _ => value % 256
  }

  predicate ValidDigits(q: seq<byte>, last: bool)
    requires |q| == 4
  {
    forall r :: 0 <= r < 4 ==> GroupDigit(q, last, r) != -1
  }

  /** One turn of the decoding loop: an invalid digit, padding bits that are not zero, or the bytes. */
  function DecodeGroup(q: seq<byte>, last: bool): Decoded
    requires |q| == 4
  {
    var n, v := OutputBytes(q, last), GroupValue(q, last);
    if !ValidDigits(q, last) then Failed(-1)
    else if (n < 2 && ByteOf(v, 1) != 0) || (n < 3 && ByteOf(v, 2) != 0) then Failed(-2)
    else Data([ByteOf(v, 0), ByteOf(v, 1), ByteOf(v, 2)][..n])
  }

  function DecodeGroups(s: seq<byte>): Decoded {
    if |s| < 4 then Data([])
    else
      var first := DecodeGroup(s[..4], |s| == 4);
      if first.Failed? then first else Behind(first.bytes, DecodeGroups(s[4..]))
  }

  function Behind(before: seq<byte>, d: Decoded): Decoded {
    if d.Failed? then d else Data(before + d.bytes)
  }

  function Decode(s: seq<byte>, dstSize: nat): Decoded {
    if |s| % 4 != 0 then Failed(-3)
    else if |s| / 4 * 3 > dstSize then Failed(-2)
    else DecodeGroups(s)
  }

  /** The three bytes of a value, padding checked; the inner loop of the decoder. */
  method WriteGroup(dst: array<byte>, at: nat, value: int, numOutputBytes: nat) returns (o: nat, ok: bool)
    requires at + 3 <= dst.Length && 1 <= numOutputBytes <= 3
    modifies dst
    ensures ok <==> forall b :: numOutputBytes <= b < 3 ==> ByteOf(value, b) == 0
    ensures ok ==> o == at + numOutputBytes
    ensures dst[..at] == old(dst[..at])
    ensures ok ==> dst[at..o] == [ByteOf(value, 0), ByteOf(value, 1), ByteOf(value, 2)][..numOutputBytes]
  {
    o := at;
    for b := 0 to 3
      invariant o == at + if b < numOutputBytes then b else numOutputBytes
      invariant forall c :: numOutputBytes <= c < b ==> ByteOf(value, c) == 0
      invariant forall c :: 0 <= c < o - at ==> dst[at + c] == ByteOf(value, c)
      invariant dst[..at] == old(dst[..at])
    {
      var byteValue := ByteOf(value, b);
      if b < numOutputBytes {
        dst[o] := byteValue;
        o := o + 1;
      } else if byteValue != 0 {
        return o, false;
      }
    }
    ok := true;
  }

  /** One turn of the decoder's loop: a group of four, the last one possibly padded. */
  method StrBase64DecodeGroup(dst: array<byte>, at: nat, q: seq<byte>, last: bool) returns (o: nat, error: int)
    requires |q| == 4 && at + 3 <= dst.Length
    modifies dst
    ensures dst[..at] == old(dst[..at])
    ensures match DecodeGroup(q, last)
            case Failed(code) => error == code < 0
            case Data(bytes) => error == 0 && o == at + |bytes| <= at + 3 && dst[at..o] == bytes
  {
    var numOutputBytes := 3;
    var copy := q;
    if last {
      if copy[3] == PAD {
        copy := copy[3 := DigitOf(0)];
        numOutputBytes := 2;
        if copy[2] == PAD {
          copy := copy[2 := DigitOf(0)];
          numOutputBytes := 1;
        }
      }
    }
    o := at;
    var d0, d1, d2, d3 := DigitValue(copy[0]), DigitValue(copy[1]), DigitValue(copy[2]), DigitValue(copy[3]);
    assert numOutputBytes == OutputBytes(q, last);
    assert d0 == GroupDigit(q, last, 0) && d1 == GroupDigit(q, last, 1);
    assert d2 == GroupDigit(q, last, 2) && d3 == GroupDigit(q, last, 3);
    if d0 == -1 || d1 == -1 || d2 == -1 || d3 == -1 {
      return o, -1;
    }
    var value := d0 * 262144 + d1 * 4096 + d2 * 64 + d3;
    var ok;
    o, ok := WriteGroup(dst, at, value, numOutputBytes);
    error := if ok then 0 else -2;
  }

  /** `str_base64_decode`: the number of bytes written, or the negative error. */
  method StrBase64Decode(dst: array<byte>, data: text) returns (r: int)
    modifies dst
    ensures match Decode(data, dst.Length)
            case Failed(code) => r == code < 0
            case Data(bytes) => r == |bytes| <= dst.Length && dst[..r] == bytes
  {
    if |data| % 4 != 0 {
      return -3;
    }
    if |data| / 4 * 3 > dst.Length {
      return -2;
    }
    r := DecodeLoop(dst, data);
  }

  /** The loop over the groups of four. */
  method DecodeLoop(dst: array<byte>, data: text) returns (r: int)
    requires |data| % 4 == 0 && |data| / 4 * 3 <= dst.Length
    modifies dst
    ensures match DecodeGroups(data)
            case Failed(code) => r == code < 0
            case Data(bytes) => r == |bytes| <= dst.Length && dst[..r] == bytes
  {
    hide DecodeGroup, DecodeGroups, Behind;
    var i, o := 0, 0;
    ghost var k := 0;
    BehindNothing(DecodeGroups(data));
    assert data[0..] == data && dst[..0] == [];
    while i < |data|
      invariant i == 4 * k <= |data| && o <= 3 * k
      invariant Behind(dst[..o], DecodeGroups(data[i..])) == DecodeGroups(data)
    {
      ghost var before := dst[..o];
      GroupsStep(data, i, before);
      var o', error := StrBase64DecodeGroup(dst, o, data[i..i + 4], i == |data| - 4);
      if error != 0 {
        return error;
      }
      assert dst[..o'] == before + dst[o..o'];
      o := o';
      i := i + 4;
      k := k + 1;
    }
    AllGroups(dst[..o], data[i..]);
    r := o;
  }

  lemma BehindNothing(d: Decoded)
    ensures Behind([], d) == d
  {
    assert d.Data? ==> [] + d.bytes == d.bytes;
  }

  lemma AllGroups(before: seq<byte>, rest: seq<byte>)
    requires rest == []
    ensures Behind(before, DecodeGroups(rest)) == Data(before)
  {
    assert before + [] == before;
  }

  lemma GroupsStep(s: seq<byte>, i: nat, before: seq<byte>)
    requires i + 4 <= |s|
    ensures var first := DecodeGroup(s[i..i + 4], i == |s| - 4);
            Behind(before, DecodeGroups(s[i..]))
            == if first.Failed? then first else Behind(before + first.bytes, DecodeGroups(s[i + 4..]))
  {
    hide DecodeGroup;
    var rest := s[i..];
    assert rest[..4] == s[i..i + 4] && rest[4..] == s[i + 4..];
    var first := DecodeGroup(s[i..i + 4], i == |s| - 4);
    if first.Data? {
      BehindTwice(before, first.bytes, DecodeGroups(rest[4..]));
    }
  }

  lemma BehindTwice(a: seq<byte>, b: seq<byte>, d: Decoded)
    ensures Behind(a, Behind(b, d)) == Behind(a + b, d)
  {
    if d.Data? {
      assert a + (b + d.bytes) == a + b + d.bytes;
    }
  }

  // ---------------------------------------------------------------------------------------------
  // Round trips
  // ---------------------------------------------------------------------------------------------

  /** Three sextets' worth of arithmetic: the bytes of a group value in terms of its digits. */
  lemma GroupBytes(d0: nat, d1: nat, d2: nat, d3: nat)
    requires d0 < 64 && d1 < 64 && d2 < 64 && d3 < 64
    ensures var v := d0 * 262144 + d1 * 4096 + d2 * 64 + d3;
            && v / 65536 % 256 == d0 * 4 + d1 / 16
            && v / 256 % 256 == d1 % 16 * 16 + d2 / 4
            && v % 256 == d2 % 4 * 64 + d3
  {
    var v := d0 * 262144 + d1 * 4096 + d2 * 64 + d3;
    var b0, b1, b2 := d0 * 4 + d1 / 16, d1 % 16 * 16 + d2 / 4, d2 % 4 * 64 + d3;
    assert v == b0 * 65536 + b1 * 256 + b2;
    BytesOf(v, b0, b1, b2);
  }

  lemma BytesOf(v: nat, b0: nat, b1: nat, b2: nat)
    requires v == b0 * 65536 + b1 * 256 + b2 && b0 < 256 && b1 < 256 && b2 < 256
    ensures v / 65536 % 256 == b0 && v / 256 % 256 == b1 && v % 256 == b2
  {
    assert v / 256 == b0 * 256 + b1;
    assert v / 65536 == b0;
  }

  /** Byte `i` of `d`, or zero beyond its end. */
  function ByteAt(d: seq<byte>, i: nat): byte {
    if i < |d| then d[i] else 0
  }

  lemma QuadDigits(d: seq<byte>, last: bool)
    requires d != [] && (last <==> |d| <= 3)
    ensures OutputBytes(Quad(d), last) == if |d| <= 3 then |d| else 3
    ensures GroupDigit(Quad(d), last, 0) == d[0] / 4
    ensures GroupDigit(Quad(d), last, 1) == d[0] % 4 * 16 + ByteAt(d, 1) / 16
    ensures GroupDigit(Quad(d), last, 2) == ByteAt(d, 1) % 16 * 4 + ByteAt(d, 2) / 64
    ensures GroupDigit(Quad(d), last, 3) == ByteAt(d, 2) % 64
  {
    DigitsInverse(d[0] / 4, 0);
    DigitsInverse(d[0] % 4 * 16 + ByteAt(d, 1) / 16, 0);
    DigitsInverse(ByteAt(d, 1) % 16 * 4 + ByteAt(d, 2) / 64, 0);
    DigitsInverse(ByteAt(d, 2) % 64, 0);
  }

  lemma SextetsRejoin(b0: byte, b1: byte, b2: byte, v: int)
    requires v == b0 / 4 * 262144 + (b0 % 4 * 16 + b1 / 16) * 4096 + (b1 % 16 * 4 + b2 / 64) * 64 + b2 % 64
    ensures ByteOf(v, 0) == b0 && ByteOf(v, 1) == b1 && ByteOf(v, 2) == b2
  {
    assert v == b0 as int * 65536 + b1 as int * 256 + b2;
    BytesOf(v, b0, b1, b2);
  }

  /** Decoding the group that stands for the first bytes of `d` gives them back. */
  lemma GroupRoundTrip(d: seq<byte>, last: bool)
    requires d != [] && (last <==> |d| <= 3)
    ensures DecodeGroup(Quad(d), last) == Data(if |d| <= 3 then d else d[..3])
  {
    QuadDigits(d, last);
    SextetsRejoin(d[0], ByteAt(d, 1), ByteAt(d, 2), GroupValue(Quad(d), last));
  }

  lemma {:induction false} DecodeGroupsOfEncode(d: seq<byte>)
    ensures DecodeGroups(Encode(d)) == Data(d)
    decreases |d|
  {
    if d != [] {
      GroupRoundTrip(d, |d| <= 3);
      DecodeGroupsOfEncode(Drop3(d));
      var e := Encode(d);
      assert e[..4] == Quad(d) && e[4..] == Encode(Drop3(d));
      assert |e| == 4 <==> |d| <= 3;
      assert |d| > 3 ==> d == d[..3] + d[3..];
    }
  }

  /** With a large enough buffer, decoding an encoding gives the data back. */
  lemma DecodeOfEncode(d: seq<byte>, dstSize: nat)
    requires |Encode(d)| / 4 * 3 <= dstSize
    ensures Decode(Encode(d), dstSize) == Data(d)
  {
    DecodeGroupsOfEncode(d);
    EncodeLength(d);
    WholeGroups((|d| + 2) / 3);
  }

  lemma WholeGroups(k: nat)
    ensures k * 4 % 4 == 0
  {
  }

  lemma DigitsRejoin(d0: nat, d1: nat, d2: nat, d3: nat, v: int)
    requires d0 < 64 && d1 < 64 && d2 < 64 && d3 < 64
    requires v == d0 * 262144 + d1 * 4096 + d2 * 64 + d3
    ensures var b0, b1, b2 := ByteOf(v, 0), ByteOf(v, 1), ByteOf(v, 2);
            && b0 / 4 == d0 && b0 % 4 * 16 + b1 / 16 == d1
            && b1 % 16 * 4 + b2 / 64 == d2 && b2 % 64 == d3
  {
    GroupBytes(d0, d1, d2, d3);
    DigitSplit(d0, d1 / 16, 4);
    DigitSplit(d1 % 16, d2 / 4, 16);
    DigitSplit(d2 % 4, d3, 64);
  }

  lemma DigitSplit(hi: nat, lo: nat, m: nat)
    requires (m == 4 || m == 16 || m == 64) && lo < m
    ensures (hi * m + lo) / m == hi && (hi * m + lo) % m == lo
  {
  }

  /** A group that decodes is the group its bytes are encoded as: padding bits must be zero. */
  lemma GroupIsCanonical(q: seq<byte>, last: bool)
    requires |q| == 4 && DecodeGroup(q, last).Data?
    ensures var b := DecodeGroup(q, last).bytes;
            1 <= |b| <= 3 && (!last ==> |b| == 3) && Quad(b) == q
  {
    var n, v := OutputBytes(q, last), GroupValue(q, last);
    var d0, d1 := GroupDigit(q, last, 0), GroupDigit(q, last, 1);
    var d2, d3 := GroupDigit(q, last, 2), GroupDigit(q, last, 3);
    DigitsInverse(0, q[0]);
    DigitsInverse(0, q[1]);
    DigitsInverse(0, q[2]);
    DigitsInverse(0, q[3]);
    DigitsRejoin(d0, d1, d2, d3, v);
    var b := DecodeGroup(q, last).bytes;
    assert ByteAt(b, 1) == ByteOf(v, 1) && ByteAt(b, 2) == ByteOf(v, 2);
  }

  /** A group of three bytes in front of more data stands by itself. */
  lemma EncodeGroupInFront(b: seq<byte>, rest: seq<byte>)
    requires |b| == 3 && rest != []
    ensures Encode(b + rest) == Quad(b) + Encode(rest)
  {
    assert Quad(b + rest) == Quad(b) && Drop3(b + rest) == rest;
  }

  lemma EncodeLastGroup(b: seq<byte>)
    requires 1 <= |b| <= 3
    ensures Encode(b) == Quad(b)
  {
    hide Quad;
    assert Encode(b) == Quad(b) + [];
  }

  lemma FirstGroup(s: seq<byte>)
    requires |s| >= 4 && DecodeGroups(s).Data?
    ensures var first, rest := DecodeGroup(s[..4], |s| == 4), DecodeGroups(s[4..]);
            && first.Data? && rest.Data?
            && DecodeGroups(s).bytes == first.bytes + rest.bytes
            && (|s| == 4 ==> DecodeGroups(s).bytes == first.bytes)
  {
    hide DecodeGroup;
  }

  lemma DecodeNothing()
    ensures DecodeGroups([]) == Data([])
  {
  }

  lemma EncodeNothing()
    ensures Encode([]) == []
  {
  }

  lemma EncodeOfOneGroup(s: seq<byte>)
    requires |s| == 4 && DecodeGroups(s).Data?
    ensures Encode(DecodeGroups(s).bytes) == s
  {
    hide DecodeGroup, DecodeGroups, Quad, Encode;
    FirstGroup(s);
    assert s[..4] == s;
    GroupIsCanonical(s, true);
    EncodeLastGroup(DecodeGroup(s, true).bytes);
  }

  lemma EncodeOfGroupInFront(s: seq<byte>)
    requires |s| > 4 && DecodeGroups(s).Data? && DecodeGroups(s[4..]).Data?
    requires Encode(DecodeGroups(s[4..]).bytes) == s[4..]
    ensures Encode(DecodeGroups(s).bytes) == s
  {
    hide DecodeGroup, DecodeGroups, Quad, Encode;
    FirstGroup(s);
    GroupIsCanonical(s[..4], false);
    EncodeNothing();
    EncodeGroupInFront(DecodeGroup(s[..4], false).bytes, DecodeGroups(s[4..]).bytes);
    assert s == s[..4] + s[4..];
  }

  lemma {:induction false} EncodeOfDecodeGroups(s: seq<byte>)
    requires |s| % 4 == 0 && DecodeGroups(s).Data?
    ensures Encode(DecodeGroups(s).bytes) == s
    decreases |s|
  {
    hide DecodeGroup, DecodeGroups, Quad, Encode;
    if s == [] {
      EncodeNothing();
      DecodeNothing();
    } else if |s| == 4 {
      EncodeOfOneGroup(s);
    } else {
      FirstGroup(s);
      EncodeOfDecodeGroups(s[4..]);
      EncodeOfGroupInFront(s);
    }
  }

  /** Whatever decodes is the encoding of the result, so every non-canonical input is rejected. */
  lemma EncodeOfDecode(s: seq<byte>, dstSize: nat)
    requires Decode(s, dstSize).Data?
    ensures Encode(Decode(s, dstSize).bytes) == s
  {
    EncodeOfDecodeGroups(s);
  }

  /** The accepted inputs are exactly the encodings. */
  lemma AcceptedIffEncoding(s: seq<byte>, dstSize: nat)
    requires |s| / 4 * 3 <= dstSize
    ensures Decode(s, dstSize).Data? <==> exists d :: Encode(d) == s
  {
    if Decode(s, dstSize).Data? {
      EncodeOfDecode(s, dstSize);
    }
    if d :| Encode(d) == s {
      DecodeOfEncode(d, dstSize);
    }
  }

  // ---------------------------------------------------------------------------------------------
  // Which error
  // ---------------------------------------------------------------------------------------------

  /** Character `r` of a group is no digit, and not padding at the end of the last group either. */
  predicate BadInGroup(q: seq<byte>, last: bool, r: int) {
    && 0 <= r < |q| == 4 && DigitValue(q[r]) == -1
    && !(last && r == 3 && q[3] == PAD) && !(last && r == 2 && q[2] == PAD && q[3] == PAD)
  }

  lemma GroupErrorIff(q: seq<byte>, last: bool)
    requires |q| == 4
    ensures DecodeGroup(q, last) == Failed(-1) <==> exists r :: BadInGroup(q, last, r)
    ensures DecodeGroup(q, last).Failed? ==>
              DecodeGroup(q, last).code == -1 || (last && DecodeGroup(q, last).code == -2)
  {
    hide ByteOf, GroupValue, DigitOf;
    PadIsNoDigit();
    if !ValidDigits(q, last) {
      var r :| 0 <= r < 4 && GroupDigit(q, last, r) == -1;
      assert BadInGroup(q, last, r);
    }
    if r :| BadInGroup(q, last, r) {
      assert GroupDigit(q, last, r) == -1;
    }
  }

  lemma PadIsNoDigit()
    ensures DigitValue(PAD) == -1
  {
  }

  predicate BadAt(s: seq<byte>, i: int) {
    && 0 <= i < |s| && DigitValue(s[i]) == -1
    && !(i == |s| - 1 && s[i] == PAD) && !(i == |s| - 2 && s[i] == PAD && s[i + 1] == PAD)
  }

  lemma BadIffInGroup(s: seq<byte>, i: int)
    requires |s| >= 4 && |s| % 4 == 0 && 0 <= i < |s|
    ensures BadAt(s, i) <==> if i < 4 then BadInGroup(s[..4], |s| == 4, i) else BadAt(s[4..], i - 4)
  {
    hide DigitValue;
  }

  lemma {:induction false} GroupsErrorIff(s: seq<byte>)
    requires |s| % 4 == 0
    ensures DecodeGroups(s) == Failed(-1) <==> exists i :: BadAt(s, i)
    ensures DecodeGroups(s).Failed? ==> DecodeGroups(s).code == -1 || DecodeGroups(s).code == -2
    decreases |s|
  {
    hide DecodeGroup, DecodeGroups, BadAt, BadInGroup;
    if s == [] {
      NoGroups();
    } else {
      FirstOfGroups(s);
      GroupErrorIff(s[..4], |s| == 4);
      GroupsErrorIff(s[4..]);
      var q, last := s[..4], |s| == 4;
      if r :| BadInGroup(q, last, r) {
        InGroup(s, r);
        BadIffInGroup(s, r);
      }
      if i :| BadAt(s[4..], i) {
        InRest(s, i);
        BadIffInGroup(s, i + 4);
      }
      if i :| BadAt(s, i) {
        Within(s, i);
        BadIffInGroup(s, i);
      }
    }
  }

  lemma InGroup(s: seq<byte>, r: int)
    requires |s| >= 4 && BadInGroup(s[..4], |s| == 4, r)
    ensures 0 <= r < 4
  {
  }

  lemma InRest(s: seq<byte>, i: int)
    requires |s| >= 4 && BadAt(s[4..], i)
    ensures 0 <= i < |s| - 4
  {
  }

  lemma Within(s: seq<byte>, i: int)
    requires BadAt(s, i)
    ensures 0 <= i < |s|
  {
  }

  lemma NoGroups()
    ensures DecodeGroups([]) == Data([]) && forall i :: !BadAt([], i)
  {
  }

  lemma FirstOfGroups(s: seq<byte>)
    requires |s| >= 4
    ensures DecodeGroup(s[..4], |s| == 4).Failed? ==> DecodeGroups(s) == DecodeGroup(s[..4], |s| == 4)
    ensures !DecodeGroup(s[..4], |s| == 4).Failed? ==>
              DecodeGroups(s).Failed? == DecodeGroups(s[4..]).Failed?
              && (DecodeGroups(s).Failed? ==> DecodeGroups(s) == DecodeGroups(s[4..]))
  {
    hide DecodeGroup;
  }

  /** Which error is returned: -3 for a length that is no multiple of four, -2 for a buffer that is too small, then -1
      exactly if some character is no digit and not padding at the end, and -2 for padding bits that are not zero. */
  lemma ErrorsIff(s: seq<byte>, dstSize: nat)
    ensures Decode(s, dstSize) == Failed(-3) <==> |s| % 4 != 0
    ensures |s| % 4 == 0 && |s| / 4 * 3 > dstSize ==> Decode(s, dstSize) == Failed(-2)
    ensures |s| % 4 == 0 && |s| / 4 * 3 <= dstSize ==> (Decode(s, dstSize) == Failed(-1) <==> exists i :: BadAt(s, i))
    ensures Decode(s, dstSize).Failed? ==> -3 <= Decode(s, dstSize).code <= -1
  {
    hide DecodeGroups, BadAt;
    if |s| % 4 == 0 {
      GroupsErrorIff(s);
    }
  }
}
