/** The UTF-8 codec of src/base/system.cpp against sections 3 and 4 of RFC 3629, and the truncating
    copies built on it. */
module Utf8 {
  import opened Bytes

  /** Section 3 of RFC 3629: code points up to U+10FFFF without the surrogates; zero ends a C string. */
  predicate Scalar(c: int) {
    0 < c <= 0x10FFFF && !(0xD800 <= c <= 0xDFFF)
  }

  predicate AllScalar(cs: seq<int>) {
    forall i :: 0 <= i < |cs| ==> Scalar(cs[i])
  }

  /** 64^k for the shifts the codec uses. */
  function Pow64(k: nat): nat {
    match k
    case 0 => 1
    case 1 => 64
    case 2 => 4096
    case _ => 262144
  }

  // ---------------------------------------------------------------------------------------------
  // Encoding
  // ---------------------------------------------------------------------------------------------

  /** The bytes `str_utf8_encode` writes; none for a number beyond U+10FFFF. */
  function Encode(chr: nat): seq<byte> {
    if chr <= 0x7F then
      [chr]
    else if chr <= 0x7FF then
      [0xC0 + chr / 64 % 32, 0x80 + chr % 64]
    else if chr <= 0xFFFF then
      [0xE0 + chr / 4096 % 16, 0x80 + chr / 64 % 64, 0x80 + chr % 64]
    else if chr <= 0x10FFFF then
      [0xF0 + chr / 262144 % 8, 0x80 + chr / 4096 % 64, 0x80 + chr / 64 % 64, 0x80 + chr % 64]
    else
      []
  }

  /** The grammar of section 4 of RFC 3629, one byte sequence per character. */
  predicate Utf8Char(b: seq<byte>) {
    || (|b| == 1 && 0x00 < b[0] <= 0x7F)
    || (|b| == 2 && 0xC2 <= b[0] <= 0xDF && Tail(b[1]))
    || (|b| == 3 && Tail(b[2]) &&
        (|| (b[0] == 0xE0 && 0xA0 <= b[1] <= 0xBF)
         || (0xE1 <= b[0] <= 0xEC && Tail(b[1]))
         || (b[0] == 0xED && 0x80 <= b[1] <= 0x9F)
         || (0xEE <= b[0] <= 0xEF && Tail(b[1]))))
    || (|b| == 4 && Tail(b[2]) && Tail(b[3]) &&
        (|| (b[0] == 0xF0 && 0x90 <= b[1] <= 0xBF)
         || (0xF1 <= b[0] <= 0xF3 && Tail(b[1]))
         || (b[0] == 0xF4 && 0x80 <= b[1] <= 0x8F)))
  }

  predicate Tail(b: byte) { 0x80 <= b <= 0xBF }

  function Value2(a: nat, b: nat): nat { a * 64 + b }
  function Value3(a: nat, b: nat, c: nat): nat { a * 4096 + b * 64 + c }
  function Value4(a: nat, b: nat, c: nat, d: nat): nat { a * 262144 + b * 4096 + c * 64 + d }

  /** The number a character's bytes stand for: the payload bits of the lead byte and the tails. */
  function Payload(b: seq<byte>): nat
    requires Utf8Char(b)
  {
    match |b|
    case 1 => b[0]
    case 2 => Value2(b[0] - 0xC0, b[1] - 0x80)
    case 3 => Value3(b[0] - 0xE0, b[1] - 0x80, b[2] - 0x80)
    case _ => Value4(b[0] - 0xF0, b[1] - 0x80, b[2] - 0x80, b[3] - 0x80)
  }

  lemma Digits(v: nat, hi: nat, lo: nat)
    requires v == hi * 64 + lo && lo < 64
    ensures v / 64 == hi && v % 64 == lo
  {
  }

  lemma Digits3(a: nat, b: nat, c: nat)
    requires b < 64 && c < 64
    ensures var v := Value3(a, b, c); v % 64 == c && v / 64 % 64 == b && v / 4096 == a
  {
  }

  lemma Digits4(a: nat, b: nat, c: nat, d: nat)
    requires b < 64 && c < 64 && d < 64
    ensures var v := Value4(a, b, c, d); v % 64 == d && v / 64 % 64 == c && v / 4096 % 64 == b && v / 262144 == a
  {
    Digits(Value4(a, b, c, d), Value3(a, b, c), d);
    Digits3(a, b, c);
    assert Value4(a, b, c, d) / 4096 == Value4(a, b, c, d) / 64 / 64;
    Digits(Value3(a, b, c), Value2(a, b), c);
    Digits(Value2(a, b), a, b);
    assert Value4(a, b, c, d) / 262144 == Value4(a, b, c, d) / 4096 / 64;
  }

  /** The encoder writes exactly the characters of the grammar, one for each scalar value. */
  lemma EncodeIsChar(c: nat)
    requires Scalar(c)
    ensures Utf8Char(Encode(c)) && Payload(Encode(c)) == c
  {
    if c <= 0x7F {
    } else if c <= 0x7FF {
      Digits(c, c / 64, c % 64);
    } else if c <= 0xFFFF {
      EncodeIsChar3(c);
    } else {
      EncodeIsChar4(c);
    }
  }

  lemma DivTwice(c: nat)
    ensures c / 4096 == c / 64 / 64 && c / 262144 == c / 4096 / 64
  {
  }

  lemma EncodeIsChar3(c: nat)
    requires Scalar(c) && 0x7FF < c <= 0xFFFF
    ensures Utf8Char(Encode(c)) && Payload(Encode(c)) == c
  {
    DivTwice(c);
    var h, z := c / 64, c % 64;
    var x, y := h / 64, h % 64;
    assert Encode(c) == [0xE0 + x, 0x80 + y, 0x80 + z];
    Joined3(c, h, x, y, z);
  }

  lemma Joined3(c: nat, h: nat, x: nat, y: nat, z: nat)
    requires c == 64 * h + z && h == 64 * x + y
    ensures c == Value3(x, y, z)
  {
  }

  lemma EncodeIsChar4(c: nat)
    requires Scalar(c) && 0xFFFF < c
    ensures Utf8Char(Encode(c)) && Payload(Encode(c)) == c
  {
    DivTwice(c);
    var h, z := c / 64, c % 64;
    var g, y := h / 64, h % 64;
    var w, x := g / 64, g % 64;
    Joined4(c, h, g, w, x, y, z);
    FourByteChar(c, w, x, y, z);
  }

  lemma Joined4(c: nat, h: nat, g: nat, w: nat, x: nat, y: nat, z: nat)
    requires c == 64 * h + z && h == 64 * g + y && g == 64 * w + x
    ensures c == Value4(w, x, y, z)
  {
  }

  lemma FourByteChar(c: nat, w: nat, x: nat, y: nat, z: nat)
    requires Scalar(c) && 0xFFFF < c && c == Value4(w, x, y, z) && x < 64 && y < 64 && z < 64
    ensures Utf8Char(Encode(c)) && Payload(Encode(c)) == c
  {
    Digits4(w, x, y, z);
    assert Encode(c) == [0xF0 + w, 0x80 + x, 0x80 + y, 0x80 + z];
  }

  lemma CharIsEncode(b: seq<byte>)
    requires Utf8Char(b)
    ensures Scalar(Payload(b)) && Encode(Payload(b)) == b
  {
    if |b| == 2 {
      Digits(Payload(b), b[0] - 0xC0, b[1] - 0x80);
    } else if |b| == 3 {
      CharIsEncode3(b, b[0] - 0xE0, b[1] - 0x80, b[2] - 0x80);
    } else if |b| == 4 {
      CharIsEncode4(b, b[0] - 0xF0, b[1] - 0x80, b[2] - 0x80, b[3] - 0x80);
    }
  }

  lemma CharIsEncode3(b: seq<byte>, x: nat, y: nat, z: nat)
    requires |b| == 3 && Utf8Char(b) && b == [0xE0 + x, 0x80 + y, 0x80 + z]
    ensures Scalar(Value3(x, y, z)) && Encode(Value3(x, y, z)) == b
  {
    Digits3(x, y, z);
  }

  lemma CharIsEncode4(b: seq<byte>, w: nat, x: nat, y: nat, z: nat)
    requires |b| == 4 && Utf8Char(b) && b == [0xF0 + w, 0x80 + x, 0x80 + y, 0x80 + z]
    ensures Scalar(Value4(w, x, y, z)) && Encode(Value4(w, x, y, z)) == b
  {
    Digits4(w, x, y, z);
  }

  /** `str_utf8_encode`; a negative number is narrowed to one byte. */
  method StrUtf8Encode(ptr: array<byte>, chr: int) returns (n: nat)
    requires ptr.Length >= 4
    modifies ptr
    ensures n <= 4 && ptr[n..] == old(ptr[n..])
    ensures ptr[..n] == if chr >= 0 then Encode(chr) else [chr % 256]
  {
    if chr <= 0x7F {
      ptr[0] := chr % 256;
      return 1;
    } else if chr <= 0x7FF {
      ptr[0] := 0xC0 + chr / 64 % 32;
      ptr[1] := 0x80 + chr % 64;
      return 2;
    } else if chr <= 0xFFFF {
      ptr[0] := 0xE0 + chr / 4096 % 16;
      ptr[1] := 0x80 + chr / 64 % 64;
      ptr[2] := 0x80 + chr % 64;
      return 3;
    } else if chr <= 0x10FFFF {
      ptr[0] := 0xF0 + chr / 262144 % 8;
      ptr[1] := 0x80 + chr / 4096 % 64;
      ptr[2] := 0x80 + chr / 64 % 64;
      ptr[3] := 0x80 + chr % 64;
      return 4;
    }
    return 0;
  }

  // ---------------------------------------------------------------------------------------------
  // Decoding one character
  // ---------------------------------------------------------------------------------------------

  /** How many tail bytes a lead byte announces; none for a byte that cannot lead. */
  function Needed(lead: byte): nat {
    if 0xC2 <= lead <= 0xDF then 1
    else if 0xE0 <= lead <= 0xEF then 2
    else if 0xF0 <= lead <= 0xF4 then 3
    else 0
  }

  function LeadPayload(lead: byte): nat {
    match Needed(lead)
    case 1 => lead - 0xC0
    case 2 => lead - 0xE0
    case 3 => lead - 0xF0
    case _ => 0
  }

  /** The range of tail number `k` after `lead`; the first tail of some characters is narrowed. */
  function Lowest(lead: byte, k: nat): byte {
    if k == 0 && lead == 0xE0 then 0xA0 else if k == 0 && lead == 0xF0 then 0x90 else 0x80
  }

  function Highest(lead: byte, k: nat): byte {
    if k == 0 && lead == 0xED then 0x9F else if k == 0 && lead == 0xF4 then 0x8F else 0xBF
  }

  predicate Follows(lead: byte, k: nat, b: byte) {
    Lowest(lead, k) <= b <= Highest(lead, k)
  }

  /** How many acceptable tails follow the lead byte at `pos`, counting on from `k`. */
  function TailsFrom(s: text, pos: nat, k: nat): (n: nat)
    requires pos < |s| && pos + k < |s| && k <= Needed(s[pos])
    ensures k <= n <= Needed(s[pos]) && pos + n < |s|
    ensures forall j :: pos + k < j <= pos + n ==> Follows(s[pos], j - pos - 1, s[j])
    ensures n < Needed(s[pos]) ==> !Follows(s[pos], n, At(s, pos + 1 + n))
    decreases Needed(s[pos]) - k
  {
    if k < Needed(s[pos]) && Follows(s[pos], k, At(s, pos + 1 + k)) then TailsFrom(s, pos, k + 1) else k
  }

  /** The payload collected from the lead byte at `pos` and its first `k` tails. */
  function Collected(s: text, pos: nat, k: nat): int
    requires pos + k < |s|
  {
    if k == 0 then
      LeadPayload(s[pos]) * Pow64(Needed(s[pos]))
    else
      Collected(s, pos, k - 1) + (s[pos + k] - 0x80) * Pow64(if k <= Needed(s[pos]) then Needed(s[pos]) - k else 0)
  }

  /** What a decode at `pos` returns and where it leaves the pointer. */
  function DecodeAt(s: text, pos: nat): (r: (int, nat))
    requires pos <= |s|
  {
    if pos == |s| then (0, pos + 1)
    else if s[pos] <= 0x7F then (s[pos], pos + 1)
    else if Needed(s[pos]) == 0 then (-1, pos + 1)
    else
      var n := TailsFrom(s, pos, 0);
      (if n == Needed(s[pos]) then Collected(s, pos, n) else -1, pos + 1 + n)
  }

  /** `str_utf8_decode`: reads only inside the string and its terminator. */
  method StrUtf8Decode(s: text, pos: nat) returns (code: int, next: nat)
    requires pos <= |s|
    ensures (code, next) == DecodeAt(s, pos)
  {
    var lower, upper := 0x80, 0xBF;
    var codePoint, seen, needed := 0, 0, 0;
    next := pos;
    while true
      invariant needed == 0 ==> next == pos && lower == 0x80 && upper == 0xBF && seen == 0
      invariant needed > 0 ==>
          && pos < |s| && needed == Needed(s[pos]) && seen < needed && next == pos + 1 + seen && next <= |s|
          && lower == Lowest(s[pos], seen) && upper == Highest(s[pos], seen)
          && TailsFrom(s, pos, 0) == TailsFrom(s, pos, seen)
          && codePoint == Collected(s, pos, seen)
      decreases needed == 0, needed - seen
    {
      var byteValue := At(s, next);
      next := next + 1;
      if needed == 0 {
        if byteValue <= 0x7F {
          return byteValue, next;
        } else if 0xC2 <= byteValue <= 0xDF {
          needed := 1;
          codePoint := byteValue - 0xC0;
        } else if 0xE0 <= byteValue <= 0xEF {
          if byteValue == 0xE0 {
            lower := 0xA0;
          }
          if byteValue == 0xED {
            upper := 0x9F;
          }
          needed := 2;
          codePoint := byteValue - 0xE0;
        } else if 0xF0 <= byteValue <= 0xF4 {
          if byteValue == 0xF0 {
            lower := 0x90;
          }
          if byteValue == 0xF4 {
            upper := 0x8F;
          }
          needed := 3;
          codePoint := byteValue - 0xF0;
        } else {
          return -1, next;
        }
        codePoint := codePoint * Pow64(needed);
        continue;
      }
      if !(lower <= byteValue <= upper) {
        next := next - 1;
        return -1, next;
      }
      lower, upper := 0x80, 0xBF;
      seen := seen + 1;
      codePoint := codePoint + (byteValue - 0x80) * Pow64(needed - seen);
      if seen != needed {
        continue;
      }
      return codePoint, next;
    }
  }

  /** On any bytes, a decode that starts before the terminator moves on by at least one byte, stays
      within the string, and does not return zero; it returns zero on the terminator. */
  lemma DecodeProgress(s: text, pos: nat)
    requires pos <= |s|
    ensures pos < |s| ==> pos < DecodeAt(s, pos).1 <= |s| && DecodeAt(s, pos).0 != 0 && DecodeAt(s, pos).0 >= -1
    ensures pos == |s| ==> DecodeAt(s, pos) == (0, |s| + 1)
  {
    if pos < |s| && s[pos] > 0x7F && Needed(s[pos]) > 0 {
      var n := TailsFrom(s, pos, 0);
      if n == Needed(s[pos]) {
        CompleteIsChar(s, pos);
      }
    }
  }

  /** A lead byte with all its tails is a character of the grammar. */
  lemma CompleteIsChar(s: text, pos: nat)
    requires pos < |s| && Needed(s[pos]) > 0 && TailsFrom(s, pos, 0) == Needed(s[pos])
    ensures var n := Needed(s[pos]);
            Utf8Char(s[pos..pos + 1 + n]) && Payload(s[pos..pos + 1 + n]) == Collected(s, pos, n)
  {
    assert Follows(s[pos], 0, s[pos + 1]);
    match Needed(s[pos])
    case 1 =>
      assert s[pos..pos + 2] == [s[pos], s[pos + 1]];
    case 2 =>
      assert Follows(s[pos], 1, s[pos + 2]);
      Complete3(s, pos);
    case _ =>
      assert Follows(s[pos], 1, s[pos + 2]) && Follows(s[pos], 2, s[pos + 3]);
      Complete4(s, pos);
  }

  lemma Complete3(s: text, pos: nat)
    requires pos + 2 < |s| && Needed(s[pos]) == 2
    requires Follows(s[pos], 0, s[pos + 1]) && Follows(s[pos], 1, s[pos + 2])
    ensures Utf8Char(s[pos..pos + 3]) && Payload(s[pos..pos + 3]) == Collected(s, pos, 2)
  {
    assert s[pos..pos + 3] == [s[pos], s[pos + 1], s[pos + 2]];
    assert Collected(s, pos, 2) == Collected(s, pos, 1) + (s[pos + 2] - 0x80);
  }

  lemma Complete4(s: text, pos: nat)
    requires pos + 3 < |s| && Needed(s[pos]) == 3 && Follows(s[pos], 0, s[pos + 1])
    requires Follows(s[pos], 1, s[pos + 2]) && Follows(s[pos], 2, s[pos + 3])
    ensures Utf8Char(s[pos..pos + 4]) && Payload(s[pos..pos + 4]) == Collected(s, pos, 3)
  {
    assert s[pos..pos + 4] == [s[pos], s[pos + 1], s[pos + 2], s[pos + 3]];
    assert Collected(s, pos, 2) == Collected(s, pos, 1) + (s[pos + 2] as int - 0x80) * 64;
    assert Collected(s, pos, 3) == Collected(s, pos, 2) + (s[pos + 3] - 0x80);
  }

  /** A decode that succeeds has read one character of the grammar and returns its number. */
  lemma DecodeIsChar(s: text, pos: nat)
    requires pos < |s| && DecodeAt(s, pos).0 != -1
    ensures pos < DecodeAt(s, pos).1 <= |s|
    ensures var (code, next) := DecodeAt(s, pos);
            Utf8Char(s[pos..next]) && code == Payload(s[pos..next]) && Scalar(code)
  {
    DecodeProgress(s, pos);
    var (code, next) := DecodeAt(s, pos);
    if s[pos] > 0x7F {
      CompleteIsChar(s, pos);
    } else {
      assert s[pos..next] == [s[pos]];
    }
    CharIsEncode(s[pos..next]);
  }

  lemma CharTails(s: text, pos: nat, n: nat, k: nat)
    requires pos + n < |s| && Utf8Char(s[pos..pos + n + 1]) && k <= n
    ensures n == Needed(s[pos]) && TailsFrom(s, pos, k) == n
    decreases n - k
  {
  }

  /** Where a character of the grammar stands, the decode returns it. */
  lemma CharDecodes(s: text, pos: nat, n: nat)
    requires pos + n < |s| && Utf8Char(s[pos..pos + n + 1])
    ensures DecodeAt(s, pos) == (Payload(s[pos..pos + n + 1]), pos + n + 1)
  {
    assert s[pos..pos + n + 1][0] == s[pos];
    CharTails(s, pos, n, 0);
    if n > 0 {
      CompleteIsChar(s, pos);
    }
  }

  lemma CharIffFollows(c: seq<byte>)
    requires |c| > 1
    ensures Utf8Char(c) <==>
              |c| == Needed(c[0]) + 1 && forall j :: 1 <= j < |c| ==> Follows(c[0], j - 1, c[j])
  {
    if Utf8Char(c) {
    } else if |c| == 2 {
      assert Follows(c[0], 0, c[1]) && Needed(c[0]) == 1 ==> Utf8Char(c);
    } else if |c| == 3 {
      assert Follows(c[0], 0, c[1]) && Follows(c[0], 1, c[2]) && Needed(c[0]) == 2 ==> Utf8Char(c);
    } else if |c| == 4 {
      assert Follows(c[0], 0, c[1]) && Follows(c[0], 1, c[2]) && Follows(c[0], 2, c[3]) && Needed(c[0]) == 3
             ==> Utf8Char(c);
    }
  }

  /** Some character of the grammar begins with these bytes. */
  ghost predicate Begins(b: seq<byte>) {
    exists c: seq<byte> :: Utf8Char(c) && b <= c
  }

  /** A lead byte with some acceptable tails, and the lowest that may follow. */
  function Completed(lead: byte, tails: seq<byte>): seq<byte>
    requires |tails| <= Needed(lead)
  {
    [lead] + tails + seq<byte>(Needed(lead) - |tails|, i requires 0 <= i => Lowest(lead, |tails| + i))
  }

  lemma TailsBegin(b: seq<byte>)
    requires b != [] && 0 < |b| <= Needed(b[0])
    requires forall j :: 1 <= j < |b| ==> Follows(b[0], j - 1, b[j])
    ensures Begins(b)
  {
    var c := Completed(b[0], b[1..]);
    assert b == [b[0]] + b[1..];
    assert b == c[..|b|];
    forall j | 1 <= j < |c|
      ensures Follows(c[0], j - 1, c[j])
    {
      assert j < |b| ==> c[j] == b[j];
    }
    CharIffFollows(c);
  }

  /** A decode that fails has read the longest prefix that begins some character of the grammar, or one byte that
      begins none. */
  lemma FailsBehindLongest(s: text, pos: nat)
    requires pos < |s| && DecodeAt(s, pos).0 == -1
    ensures var next := DecodeAt(s, pos).1;
            && pos < next <= |s|
            && (Begins(s[pos..next]) || next == pos + 1)
            && forall k: nat :: next < k <= |s| ==> !Begins(s[pos..k])
  {
    hide Follows, Utf8Char;
    var (_, next) := DecodeAt(s, pos);
    DecodeProgress(s, pos);
    var n := next - pos - 1;
    if Needed(s[pos]) > 0 {
      NotAllTails(s, pos);
      var b := s[pos..next];
      forall j | 1 <= j < |b|
        ensures Follows(b[0], j - 1, b[j])
      {
        assert b[j] == s[pos + j];
      }
      TailsBegin(b);
    }
    forall k: nat | next < k <= |s|
      ensures !Begins(s[pos..k])
    {
      BrokenBegins(s, pos, k);
    }
  }

  lemma NotAllTails(s: text, pos: nat)
    requires pos < |s| && DecodeAt(s, pos).0 == -1 && Needed(s[pos]) > 0
    ensures s[pos] > 0x7F && TailsFrom(s, pos, 0) < Needed(s[pos])
    ensures DecodeAt(s, pos).1 == pos + 1 + TailsFrom(s, pos, 0)
  {
    if TailsFrom(s, pos, 0) == Needed(s[pos]) {
      CompleteIsChar(s, pos);
    }
  }

  lemma NotChar(c: seq<byte>, n: nat)
    requires |c| > n + 1 && (Needed(c[0]) == 0 || !Follows(c[0], n, c[n + 1]))
    ensures !Utf8Char(c)
  {
    CharIffFollows(c);
    hide Utf8Char, Follows;
  }

  lemma BrokenBegins(s: text, pos: nat, k: nat)
    requires pos < |s| && DecodeAt(s, pos).0 == -1 && DecodeAt(s, pos).1 < k <= |s|
    ensures !Begins(s[pos..k])
  {
    hide Follows, Utf8Char;
    DecodeProgress(s, pos);
    var n := DecodeAt(s, pos).1 - pos - 1;
    if Needed(s[pos]) > 0 {
      NotAllTails(s, pos);
    }
    forall c: seq<byte> | s[pos..k] <= c
      ensures !Utf8Char(c)
    {
      assert c[0] == s[pos..k][0] == s[pos] && c[n + 1] == s[pos..k][n + 1] == s[pos + n + 1];
      NotChar(c, n);
    }
  }

  // ---------------------------------------------------------------------------------------------
  // Whole strings
  // ---------------------------------------------------------------------------------------------

  function EncodeAll(cs: seq<int>): seq<byte>
    requires AllScalar(cs)
  {
    if cs == [] then [] else Encode(cs[0]) + EncodeAll(cs[1..])
  }

  /** What the caller's loop `while((code = str_utf8_decode(&ptr)))` sees, errors included. */
  function DecodeFrom(s: text, pos: nat): seq<int>
    requires pos <= |s|
    decreases |s| - pos
  {
    if pos == |s| then []
    else
      DecodeProgress(s, pos);
      [DecodeAt(s, pos).0] + DecodeFrom(s, DecodeAt(s, pos).1)
  }

  /** The grammar: a string is a sequence of characters. */
  ghost predicate WellFormed(b: seq<byte>)
    decreases |b|
  {
    b == [] || exists n: nat :: 1 <= n <= |b| && Utf8Char(b[..n]) && WellFormed(b[n..])
  }

  /** From `pos` on, every decode succeeds up to the terminator. */
  predicate Clean(s: text, pos: nat)
    requires pos <= |s|
    decreases |s| - pos
  {
    pos == |s| || (DecodeProgress(s, pos); DecodeAt(s, pos).0 != -1 && Clean(s, DecodeAt(s, pos).1))
  }

  lemma {:induction false} CleanIsWellFormed(s: text, pos: nat)
    requires pos <= |s| && Clean(s, pos)
    ensures WellFormed(s[pos..])
    decreases |s| - pos
  {
    if pos < |s| {
      DecodeIsChar(s, pos);
      var next := DecodeAt(s, pos).1;
      CleanIsWellFormed(s, next);
      var b := s[pos..];
      assert b[..next - pos] == s[pos..next] && b[next - pos..] == s[next..];
    }
  }

  lemma {:induction false} WellFormedIsClean(s: text, pos: nat)
    requires pos <= |s| && WellFormed(s[pos..])
    ensures Clean(s, pos)
    decreases |s| - pos
  {
    if pos < |s| {
      var b := s[pos..];
      var n: nat :| 1 <= n <= |b| && Utf8Char(b[..n]) && WellFormed(b[n..]);
      assert b[..n] == s[pos..pos + (n - 1) + 1] && b[n..] == s[pos + n..];
      CharDecodes(s, pos, n - 1);
      EncodeIsCharOf(b[..n]);
      WellFormedIsClean(s, pos + n);
    }
  }

  lemma CleanIffWellFormed(s: text)
    ensures Clean(s, 0) <==> WellFormed(s)
  {
    assert s[0..] == s;
    if Clean(s, 0) {
      CleanIsWellFormed(s, 0);
    }
    if WellFormed(s) {
      WellFormedIsClean(s, 0);
    }
  }

  lemma EncodeIsCharOf(b: seq<byte>)
    requires Utf8Char(b)
    ensures Payload(b) > 0
  {
  }

  /** `str_utf8_check` accepts exactly the well-formed strings. */
  method StrUtf8Check(s: text) returns (ok: bool)
    ensures ok <==> WellFormed(s)
  {
    var ptr := 0;
    CleanIffWellFormed(s);
    while true
      invariant ptr <= |s| && (Clean(s, ptr) <==> WellFormed(s))
      decreases |s| - ptr
    {
      DecodeProgress(s, ptr);
      var codepoint, next := StrUtf8Decode(s, ptr);
      if codepoint == 0 {
        return true;
      }
      if codepoint == -1 {
        return false;
      }
      ptr := next;
    }
  }

  /** Decoding a well-formed string gives scalar values that encode back to it. */
  lemma {:induction false} EncodeDecode(s: text, pos: nat)
    requires pos <= |s| && Clean(s, pos)
    ensures AllScalar(DecodeFrom(s, pos))
    ensures EncodeAll(DecodeFrom(s, pos)) == s[pos..]
    decreases |s| - pos
  {
    if pos < |s| {
      DecodeProgress(s, pos);
      var next := DecodeAt(s, pos).1;
      EncodeDecode(s, next);
      OneCharBack(s, pos, DecodeFrom(s, next));
      hide DecodeAt, Encode, EncodeAll, AllScalar;
    }
  }

  lemma OneCharBack(s: text, pos: nat, rest: seq<int>)
    requires pos < |s| && DecodeAt(s, pos).0 != -1 && AllScalar(rest)
    requires pos < DecodeAt(s, pos).1 <= |s| && EncodeAll(rest) == s[DecodeAt(s, pos).1..]
    ensures AllScalar([DecodeAt(s, pos).0] + rest) && EncodeAll([DecodeAt(s, pos).0] + rest) == s[pos..]
  {
    var (code, next) := DecodeAt(s, pos);
    DecodeIsChar(s, pos);
    CharIsEncode(s[pos..next]);
    EncodeAllCons(code, rest);
    assert s[pos..next] + s[next..] == s[pos..];
    hide DecodeAt, Encode, EncodeAll, Payload, Utf8Char;
  }

  lemma EncodeAllCons(c: int, cs: seq<int>)
    requires Scalar(c) && AllScalar(cs)
    ensures AllScalar([c] + cs) && EncodeAll([c] + cs) == Encode(c) + EncodeAll(cs)
  {
    assert ([c] + cs)[1..] == cs;
  }

  /** Encoding scalar values gives a well-formed string that decodes back to them. */
  lemma {:induction false} DecodeEncode(pre: seq<byte>, cs: seq<int>, s: text)
    requires AllScalar(cs)
    requires s == pre + EncodeAll(cs)
    ensures DecodeFrom(s, |pre|) == cs && Clean(s, |pre|)
    decreases |cs|
  {
    if cs != [] {
      hide DecodeAt, Encode, Payload;
      var e, rest := Encode(cs[0]), EncodeAll(cs[1..]);
      EncodeIsChar(cs[0]);
      assert s == pre + e + rest;
      assert s[|pre|..|pre| + (|e| - 1) + 1] == e;
      CharDecodes(s, |pre|, |e| - 1);
      DecodeEncode(pre + e, cs[1..], s);
    }
  }

  lemma {:induction false} EncodeAllIsText(cs: seq<int>)
    requires AllScalar(cs)
    ensures 0 !in EncodeAll(cs)
  {
    if cs != [] {
      EncodeIsChar(cs[0]);
      NoZeroInChar(Encode(cs[0]));
      EncodeAllIsText(cs[1..]);
    }
  }

  lemma NoZeroInChar(b: seq<byte>)
    requires Utf8Char(b)
    ensures 0 !in b
  {
  }

  /** The codec is a bijection between sequences of non-zero scalar values and well-formed strings. */
  lemma CodecBijection(cs: seq<int>, s: text)
    requires AllScalar(cs)
    ensures 0 !in EncodeAll(cs) && WellFormed(EncodeAll(cs)) && DecodeFrom(EncodeAll(cs), 0) == cs
    ensures WellFormed(s) ==> AllScalar(DecodeFrom(s, 0)) && EncodeAll(DecodeFrom(s, 0)) == s
  {
    EncodeAllIsText(cs);
    var e: text := EncodeAll(cs);
    assert e == [] + e && e[0..] == e && s[0..] == s;
    DecodeEncode([], cs, e);
    CleanIffWellFormed(e);
    CleanIffWellFormed(s);
    if WellFormed(s) {
      EncodeDecode(s, 0);
    }
  }
}
