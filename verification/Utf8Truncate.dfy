/** `str_copy`, `str_utf8_truncate` and the helpers that keep a cut from splitting a character. */
module Utf8Truncate {
  import opened Bytes
  import opened Utf8

  /** `str_utf8_isstart`: everything but 10xxxxxx. */
  predicate IsStart(c: byte) {
    c / 64 != 2
  }

  /** `str_utf8_rewind`: back to the nearest start byte before `cursor`. */
  method StrUtf8Rewind(s: text, cursor: nat) returns (r: nat)
    requires cursor <= |s|
    ensures r == RewindFrom(s, cursor)
  {
    r := cursor;
    while r != 0
      invariant r <= cursor && RewindFrom(s, r) == RewindFrom(s, cursor)
    {
      r := r - 1;
      if IsStart(s[r]) {
        break;
      }
    }
  }

  function RewindFrom(s: text, cursor: nat): (r: nat)
    requires cursor <= |s|
    ensures r <= cursor && (cursor > 0 ==> r < cursor)
    ensures r > 0 ==> IsStart(s[r])
    ensures forall i :: r < i < cursor ==> !IsStart(s[i])
  {
    if cursor == 0 then 0
    else if IsStart(s[cursor - 1]) then cursor - 1
    else RewindFrom(s, cursor - 1)
  }

  /** The length `str_utf8_fix_truncation` leaves: a last character that does not decode is dropped. */
  function FixedLength(t: text): (n: nat)
    ensures n <= |t|
  {
    if t == [] then 0
    else
      var last := RewindFrom(t, |t|);
      if DecodeAt(t, last).0 == -1 then last else |t|
  }

  method StrUtf8FixTruncation(str: array<byte>, ghost t: text) returns (n: nat)
    requires |t| < str.Length && str[..|t|] == t && str[|t|] == 0
    modifies str
    ensures n == FixedLength(t)
    ensures str[..n] == t[..n] && str[n] == 0
    ensures forall i :: n < i < str.Length ==> str[i] == old(str[i])
  {
    var len := StrLength(str, t);
    if len > 0 {
      var s: text := str[..len];
      var last := StrUtf8Rewind(s, len);
      var code, _ := StrUtf8Decode(s, last);
      if code == -1 {
        str[last] := 0;
        return last;
      }
    }
    return len;
  }

  function Min(a: nat, b: nat): nat { if a < b then a else b }

  /** The bound `dst_size - 1` that `str_copy` hands to `strncat` as a `size_t`: for size 0 there is none. */
  function CopyBound(src: text, dstSize: nat): nat {
    if dstSize == 0 then |src| else dstSize - 1
  }

  /** `str_copy`: what is left in `dst` is a prefix of `src`. */
  method StrCopy(dst: array<byte>, src: text, dstSize: nat) returns (n: nat)
    requires dstSize <= dst.Length && CopyBound(src, dstSize) < dst.Length
    modifies dst
    ensures n == CopiedLength(src, CopyBound(src, dstSize))
    ensures dst[..n] == src[..n] && dst[n] == 0
    ensures forall i :: CopyBound(src, dstSize) < i < dst.Length ==> dst[i] == old(dst[i])
  {
    var m := Min(|src|, CopyBound(src, dstSize));
    forall i | 0 <= i < m {
      dst[i] := src[i];
    }
    dst[m] := 0;
    assert dst[..m] == src[..m];
    n := StrUtf8FixTruncation(dst, src[..m]);
    assert src[..m][..n] == src[..n];
  }

  function CopiedLength(src: text, limit: nat): (n: nat)
    ensures n <= limit && n <= |src|
  {
    FixedLength(src[..Min(|src|, limit)])
  }

  // ---------------------------------------------------------------------------------------------
  // Character boundaries
  // ---------------------------------------------------------------------------------------------

  /** `k` is the longest cut of `s` that has at most `limit` bytes and ends on a character boundary. */
  ghost predicate LongestCut(s: text, limit: nat, k: nat) {
    && k <= limit && k <= |s| && WellFormed(s[..k])
    && forall j :: 0 <= j <= limit && j <= |s| && WellFormed(s[..j]) ==> j <= k
  }

  /** Decoding `s[..m]` instead of `s` changes nothing for a character that ends by `m`. */
  lemma DecodePrefix(s: text, m: nat, p: nat)
    requires p < m <= |s|
    ensures DecodeAt(s, p).0 != -1 && DecodeAt(s, p).1 <= m ==> DecodeAt(s[..m], p) == DecodeAt(s, p)
    ensures DecodeAt(s[..m], p).0 != -1 ==> DecodeAt(s, p) == DecodeAt(s[..m], p)
  {
    hide DecodeAt, Utf8Char, Payload;
    var t: text := s[..m];
    if DecodeAt(s, p).0 != -1 && DecodeAt(s, p).1 <= m {
      DecodeIsChar(s, p);
      var n := DecodeAt(s, p).1 - p - 1;
      assert t[p..p + n + 1] == s[p..p + n + 1];
      CharDecodes(t, p, n);
    }
    if DecodeAt(t, p).0 != -1 {
      DecodeIsChar(t, p);
      var n := DecodeAt(t, p).1 - p - 1;
      assert t[p..p + n + 1] == s[p..p + n + 1];
      CharDecodes(s, p, n);
    }
  }

  /** In a well-formed rest, exactly the start bytes stand on boundaries. */
  lemma {:induction false} BoundaryIffStart(s: text, p: nat, i: nat)
    requires p <= i < |s| && Clean(s, p)
    ensures Clean(s[..i], p) <==> IsStart(s[i])
    decreases |s| - p
  {
    DecodeIsChar(s, p);
    var next := DecodeAt(s, p).1;
    CharStarts(s[p..next]);
    var t: text := s[..i];
    if i == p {
      assert s[p..next][0] == s[i];
    } else if i < next {
      assert s[p..next][i - p] == s[i];
      DecodePrefix(s, i, p);
      DecodeProgress(t, p);
    } else {
      DecodePrefix(s, i, p);
      BoundaryIffStart(s, next, i);
    }
  }

  lemma CharStarts(b: seq<byte>)
    requires Utf8Char(b)
    ensures IsStart(b[0]) && forall i :: 1 <= i < |b| ==> !IsStart(b[i])
  {
  }

  /** A string that is clean up to `i` is clean exactly if it is clean from `i` on. */
  lemma {:induction false} CleanFrom(s: text, p: nat, i: nat)
    requires p <= i <= |s| && Clean(s[..i], p)
    ensures Clean(s, p) <==> Clean(s, i)
    decreases |s| - p
  {
    if p < i {
      var t: text := s[..i];
      DecodeProgress(t, p);
      DecodePrefix(s, i, p);
      CleanFrom(s, DecodeAt(s, p).1, i);
    }
  }

  /** The end of the character that stands on a boundary is a boundary. */
  lemma NextBoundary(s: text, i: nat)
    requires i < |s| && Clean(s[..i], 0) && DecodeAt(s, i).0 != -1
    ensures i < DecodeAt(s, i).1 <= |s| && Clean(s[..DecodeAt(s, i).1], 0)
  {
    DecodeProgress(s, i);
    var next := DecodeAt(s, i).1;
    var t: text := s[..next];
    DecodePrefix(s, next, i);
    assert t[..i] == s[..i];
    CleanFrom(t, 0, i);
  }

  /** The cut at `m` is a boundary exactly if the character that the rewind finds decodes. */
  lemma LastCharDecodes(s: text, m: nat)
    requires Clean(s, 0) && 0 < m <= |s|
    ensures Clean(s[..RewindFrom(s[..m], m)], 0)
    ensures DecodeAt(s[..m], RewindFrom(s[..m], m)).0 != -1 <==> Clean(s[..m], 0)
  {
    hide DecodeAt;
    var t: text := s[..m];
    var last := RewindFrom(t, m);
    if last > 0 {
      assert t[last] == s[last];
      BoundaryIffStart(s, 0, last);
    }
    CleanFrom(s, 0, last);
    NextBoundary(s, last);
    var next := DecodeAt(s, last).1;
    CharEndsBehind(s, m);
    DecodePrefix(s, m, last);
    DecodeProgress(t, last);
    if m < next {
      InsideChar(s, last, m);
    }
  }

  lemma CharEndsBehind(s: text, m: nat)
    requires Clean(s, 0) && 0 < m <= |s| && Clean(s[..RewindFrom(s[..m], m)], 0)
    requires DecodeAt(s, RewindFrom(s[..m], m)).0 != -1
    ensures DecodeAt(s, RewindFrom(s[..m], m)).1 >= m
  {
    var last := RewindFrom(s[..m], m);
    NextBoundary(s, last);
    var next := DecodeAt(s, last).1;
    assert forall i :: last < i < m ==> s[..m][i] == s[i] && !IsStart(s[i]);
    if next < m {
      BoundaryIffStart(s, 0, next);
    }
  }

  lemma InsideChar(s: text, p: nat, m: nat)
    requires p < m < |s| && Clean(s, 0) && DecodeAt(s, p).0 != -1 && m < DecodeAt(s, p).1
    ensures !Clean(s[..m], 0)
  {
    DecodeIsChar(s, p);
    var b := s[p..DecodeAt(s, p).1];
    CharStarts(b);
    assert b[m - p] == s[m];
    BoundaryIffStart(s, 0, m);
  }

  lemma NoBoundaryBetween(s: text, m: nat, j: nat)
    requires m <= |s| && Clean(s, 0) && RewindFrom(s[..m], m) < j < m
    ensures !WellFormed(s[..j])
  {
    assert s[..m][j] == s[j];
    BoundaryIffStart(s, 0, j);
    CleanIffWellFormed(s[..j]);
  }

  /** For a well-formed source, `str_copy` leaves the longest prefix that fits and splits no character. */
  lemma CopyIsLongestCut(s: text, limit: nat)
    requires WellFormed(s)
    ensures LongestCut(s, limit, CopiedLength(s, limit))
  {
    var m := Min(|s|, limit);
    CleanIffWellFormed(s);
    if m == 0 {
      assert s[..0] == [];
    } else {
      LongestAt(s, m);
    }
  }

  lemma LongestAt(s: text, m: nat)
    requires Clean(s, 0) && 0 < m <= |s|
    ensures LongestCut(s, m, FixedLength(s[..m]))
  {
    hide WellFormed, Clean, DecodeAt, RewindFrom;
    var t: text := s[..m];
    var last := RewindFrom(t, m);
    LastCharDecodes(s, m);
    CleanIffWellFormed(s[..last]);
    CleanIffWellFormed(t);
    forall j | last < j < m
      ensures !WellFormed(s[..j])
    {
      NoBoundaryBetween(s, m, j);
    }
  }

  /** A cut on a boundary is kept whole. */
  lemma CopyKeepsBoundary(s: text, limit: nat)
    requires limit <= |s| && WellFormed(s) && WellFormed(s[..limit])
    ensures CopiedLength(s, limit) == limit
  {
    CopyIsLongestCut(s, limit);
  }

  // ---------------------------------------------------------------------------------------------
  // Truncation by code points
  // ---------------------------------------------------------------------------------------------

  /** How far at most `count` decodes from `p` lead without passing `limit`. */
  function Fitting(s: text, p: nat, limit: nat, count: nat): (r: nat)
    requires p <= |s| && p <= limit
    ensures p <= r <= |s| && r <= limit
    decreases count
  {
    if count == 0 || p == |s| then p
    else
      DecodeProgress(s, p);
      if DecodeAt(s, p).1 > limit then p else Fitting(s, DecodeAt(s, p).1, limit, count - 1)
  }

  /** The measuring loop of `str_utf8_truncate`; it is not entered for a negative length or an empty buffer. */
  method TruncationSize(src: text, dstSize: nat, truncationLen: int) returns (size: int)
    ensures size == if truncationLen < 0 || dstSize == 0 then -1 else Fitting(src, 0, dstSize - 1, truncationLen)
  {
    size := -1;
    var cursor, pos := 0, 0;
    while pos <= truncationLen && cursor < dstSize && size != cursor
      invariant 0 <= pos && (pos == 0 ==> size == -1 && cursor == 0) && cursor <= |src|
      invariant pos > 0 ==>
          && pos <= truncationLen + 1
          && 0 <= size < cursor && size < dstSize && size < |src| && cursor == DecodeAt(src, size).1
          && Fitting(src, 0, dstSize - 1, truncationLen)
             == Fitting(src, size, dstSize - 1, truncationLen - (pos - 1))
      decreases |src| - cursor
    {
      size := cursor;
      DecodeProgress(src, cursor);
      var code, next := StrUtf8Decode(src, cursor);
      if code == 0 {
        break;
      }
      cursor := next;
      pos := pos + 1;
    }
  }

  /** What `str_utf8_truncate` leaves. */
  function TruncatedLength(src: text, dstSize: nat, truncationLen: int): nat {
    if truncationLen < 0 || dstSize == 0 then CopiedLength(src, |src|)
    else CopiedLength(src, Fitting(src, 0, dstSize - 1, truncationLen))
  }

  /** `str_utf8_truncate`, with a buffer of `dstSize` bytes and at most `truncationLen` code points. A negative length
      or an empty buffer turns into a copy without a bound, which needs room for the whole source. */
  method StrUtf8Truncate(dst: array<byte>, dstSize: nat, src: text, truncationLen: int) returns (n: nat)
    requires dstSize <= dst.Length && (truncationLen < 0 || dstSize == 0 ==> |src| < dst.Length)
    modifies dst
    ensures n == TruncatedLength(src, dstSize, truncationLen)
    ensures dst[..n] == src[..n] && dst[n] == 0
    ensures truncationLen >= 0 && dstSize > 0 ==> forall i :: dstSize <= i < dst.Length ==> dst[i] == old(dst[i])
  {
    var size := TruncationSize(src, dstSize, truncationLen);
    n := StrCopy(dst, src, size + 1);
  }

  /** What is left fits the buffer exactly if the length is not negative and the buffer not empty, or the source, less
      a broken last character, is short enough by itself. */
  lemma TruncationFitsIff(src: text, dstSize: nat, truncationLen: int)
    ensures TruncatedLength(src, dstSize, truncationLen) < dstSize <==>
              (truncationLen >= 0 && dstSize > 0) || FixedLength(src) < dstSize
  {
    assert src[..|src|] == src;
  }

  /** `k` is the longest cut of `s` that has at most `limit` bytes and at most `count` code points and
      ends on a character boundary. */
  ghost predicate LongestCutOf(s: text, limit: nat, count: nat, k: nat) {
    && k <= limit && k <= |s| && WellFormed(s[..k]) && |DecodeFrom(s[..k], 0)| <= count
    && forall j :: 0 <= j <= limit && j <= |s| && WellFormed(s[..j]) && |DecodeFrom(s[..j], 0)| <= count ==> j <= k
  }

  lemma {:induction false} FittingIsBoundary(s: text, p: nat, limit: nat, count: nat)
    requires p <= |s| && p <= limit && Clean(s, p)
    ensures var r := Fitting(s, p, limit, count);
            Clean(s[..r], p) && |DecodeFrom(s[..r], p)| <= count
    decreases count
  {
    if count > 0 && p < |s| {
      DecodeProgress(s, p);
      var next := DecodeAt(s, p).1;
      if next <= limit {
        FittingIsBoundary(s, next, limit, count - 1);
        DecodePrefix(s, Fitting(s, p, limit, count), p);
      }
    }
  }

  lemma {:induction false} FittingIsLongest(s: text, p: nat, limit: nat, count: nat, j: nat)
    requires p <= j <= |s| && j <= limit && Clean(s[..j], p) && |DecodeFrom(s[..j], p)| <= count
    ensures j <= Fitting(s, p, limit, count)
    decreases count
  {
    if p < j {
      DecodeProgress(s[..j], p);
      DecodePrefix(s, j, p);
      FittingIsLongest(s, DecodeAt(s, p).1, limit, count - 1, j);
    }
  }

  /** For a well-formed source, `str_utf8_truncate` leaves the longest prefix that fits the buffer, has
      at most the requested number of code points and splits no character. */
  lemma TruncateIsLongestCut(s: text, limit: nat, count: nat)
    requires WellFormed(s)
    ensures LongestCutOf(s, limit, count, CopiedLength(s, Fitting(s, 0, limit, count)))
  {
    hide Clean, WellFormed, Fitting, DecodeFrom, CopiedLength;
    var k := Fitting(s, 0, limit, count);
    CleanIffWellFormed(s);
    FittingIsBoundary(s, 0, limit, count);
    CleanIffWellFormed(s[..k]);
    CopyKeepsBoundary(s, k);
    forall j | 0 <= j <= limit && j <= |s| && WellFormed(s[..j]) && |DecodeFrom(s[..j], 0)| <= count
      ensures j <= k
    {
      CleanIffWellFormed(s[..j]);
      FittingIsLongest(s, 0, limit, count, j);
    }
  }
}
