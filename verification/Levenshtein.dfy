/** The edit distance of src/base/system.cpp: a two-row table in a caller's buffer, proved to be the
    least number of single edits, and its UTF-8 front end. */
module Levenshtein {
  import opened Bytes
  import opened Utf8

  function Min3(a: int, b: int, c: int): int {
    var m := if b < a then b else a;
    if c < m then c else m
  }

  function Differ(x: int, y: int): nat { if x != y then 1 else 0 }

  function Init(s: seq<int>): seq<int>
    requires s != []
  {
    s[..|s| - 1]
  }

  function Last(s: seq<int>): int
    requires s != []
  {
    s[|s| - 1]
  }

  /** The recurrence behind the table, on the prefixes of the two strings. */
  function Dist(a: seq<int>, b: seq<int>): (d: nat)
    decreases |a| + |b|
  {
    if a == [] then |b|
    else if b == [] then |a|
    else Min3(Dist(Init(a), b) + 1, Dist(a, Init(b)) + 1, Dist(Init(a), Init(b)) + Differ(Last(a), Last(b)))
  }

  // ---------------------------------------------------------------------------------------------
  // The distance is a metric
  // ---------------------------------------------------------------------------------------------

  lemma {:induction false} DistSymmetric(a: seq<int>, b: seq<int>)
    ensures Dist(a, b) == Dist(b, a)
    decreases |a| + |b|
  {
    if a != [] && b != [] {
      DistSymmetric(Init(a), b);
      DistSymmetric(a, Init(b));
      DistSymmetric(Init(a), Init(b));
    }
  }

  lemma {:induction false} DistZero(a: seq<int>, b: seq<int>)
    ensures Dist(a, b) == 0 <==> a == b
    decreases |a| + |b|
  {
    if a != [] && b != [] {
      DistZero(Init(a), Init(b));
      assert a == Init(a) + [Last(a)] && b == Init(b) + [Last(b)];
    }
  }

  lemma {:induction false} LengthBounds(a: seq<int>, b: seq<int>)
    ensures |a| <= Dist(a, b) + |b| && |b| <= Dist(a, b) + |a| && Dist(a, b) <= |a| + |b|
    decreases |a| + |b|
  {
    if a != [] && b != [] {
      LengthBounds(Init(a), b);
      LengthBounds(a, Init(b));
      LengthBounds(Init(a), Init(b));
    }
  }

  lemma {:induction false} Triangle(a: seq<int>, b: seq<int>, c: seq<int>)
    ensures Dist(a, c) <= Dist(a, b) + Dist(b, c)
    decreases |a| + |b| + |c|
  {
    LengthBounds(a, b);
    LengthBounds(b, c);
    if a != [] && b != [] && c != [] {
      if Dist(a, b) == Dist(Init(a), b) + 1 {
        Triangle(Init(a), b, c);
      } else if Dist(b, c) == Dist(b, Init(c)) + 1 {
        Triangle(a, b, Init(c));
      } else if Dist(a, b) == Dist(a, Init(b)) + 1 {
        Triangle(a, Init(b), c);
        Triangle(a, Init(b), Init(c));
      } else {
        Triangle(Init(a), Init(b), c);
        Triangle(Init(a), Init(b), Init(c));
      }
    } else {
      LengthBounds(a, c);
    }
  }

  // ---------------------------------------------------------------------------------------------
  // The distance is the least number of edits
  // ---------------------------------------------------------------------------------------------

  /** One edit at any position of a string. */
  datatype Edit = Insert(at: nat, x: int) | Delete(at: nat) | Replace(at: nat, x: int)

  predicate Fits(e: Edit, s: seq<int>) {
    if e.Insert? then e.at <= |s| else e.at < |s|
  }

  function Edited(e: Edit, s: seq<int>): seq<int>
    requires Fits(e, s)
  {
    match e
    case Insert(at, x) => s[..at] + [x] + s[at..]
    case Delete(at) => s[..at] + s[at + 1..]
    case Replace(at, x) => s[..at] + [x] + s[at + 1..]
  }

  /** `script` turns `s` into `t`. */
  predicate Turns(script: seq<Edit>, s: seq<int>, t: seq<int>) {
    if script == [] then s == t
    else Fits(script[0], s) && Turns(script[1..], Edited(script[0], s), t)
  }

  lemma {:induction false} SameSuffix(a: seq<int>, b: seq<int>, q: seq<int>)
    ensures Dist(a + q, b + q) <= Dist(a, b)
    decreases |q|
  {
    if q == [] {
      assert a + q == a && b + q == b;
    } else {
      SameSuffix(a, b, Init(q));
      assert Init(a + q) == a + Init(q) && Init(b + q) == b + Init(q);
    }
  }

  lemma OneInsert(p: seq<int>, x: int)
    ensures Dist(p, p + [x]) <= 1 && Dist(p + [x], p) <= 1
  {
    DistZero(p, p);
    assert Init(p + [x]) == p;
  }

  lemma OneReplace(p: seq<int>, x: int, y: int)
    ensures Dist(p + [x], p + [y]) <= 1
  {
    DistZero(p, p);
    assert Init(p + [x]) == p && Init(p + [y]) == p;
  }

  /** The edited place between a prefix `p` and a suffix `q`. */
  lemma EditBetween(p: seq<int>, x: int, y: int, q: seq<int>)
    ensures Dist(p + q, p + [x] + q) <= 1 && Dist(p + [x] + q, p + q) <= 1
    ensures Dist(p + [x] + q, p + [y] + q) <= 1
  {
    OneInsert(p, x);
    OneReplace(p, x, y);
    SameSuffix(p, p + [x], q);
    SameSuffix(p + [x], p, q);
    SameSuffix(p + [x], p + [y], q);
  }

  lemma OneEdit(e: Edit, s: seq<int>)
    requires Fits(e, s)
    ensures Dist(s, Edited(e, s)) <= 1
  {
    if e.Insert? {
      assert s == s[..e.at] + s[e.at..];
      EditBetween(s[..e.at], e.x, e.x, s[e.at..]);
    } else {
      assert s == s[..e.at] + [s[e.at]] + s[e.at + 1..];
      EditBetween(s[..e.at], s[e.at], if e.Replace? then e.x else 0, s[e.at + 1..]);
    }
  }

  /** No script is shorter than the distance. */
  lemma {:induction false} NoShorterScript(script: seq<Edit>, a: seq<int>, b: seq<int>)
    requires Turns(script, a, b)
    ensures Dist(a, b) <= |script|
    decreases |script|
  {
    if script == [] {
      DistZero(a, b);
    } else {
      var m := Edited(script[0], a);
      OneEdit(script[0], a);
      NoShorterScript(script[1..], m, b);
      Triangle(a, m, b);
    }
  }

  lemma {:induction false} TurnsThen(first: seq<Edit>, e: Edit, s: seq<int>, m: seq<int>)
    requires Turns(first, s, m) && Fits(e, m)
    ensures Turns(first + [e], s, Edited(e, m))
    decreases |first|
  {
    if first == [] {
      assert (first + [e])[1..] == [];
    } else {
      TurnsThen(first[1..], e, Edited(first[0], s), m);
      assert (first + [e])[1..] == first[1..] + [e];
    }
  }

  /** A script works the same in front of a suffix. */
  lemma {:induction false} TurnsInFront(script: seq<Edit>, s: seq<int>, t: seq<int>, q: seq<int>)
    requires Turns(script, s, t)
    ensures Turns(script, s + q, t + q)
    decreases |script|
  {
    if script != [] {
      EditedInFront(script[0], s, q);
      TurnsInFront(script[1..], Edited(script[0], s), t, q);
    }
  }

  lemma EditedInFront(e: Edit, s: seq<int>, q: seq<int>)
    requires Fits(e, s)
    ensures Fits(e, s + q) && Edited(e, s + q) == Edited(e, s) + q
  {
    assert (s + q)[..e.at] == s[..e.at];
    if e.Insert? {
      assert (s + q)[e.at..] == s[e.at..] + q;
    } else {
      assert (s + q)[e.at + 1..] == s[e.at + 1..] + q;
    }
  }

  lemma AppendScript(first: seq<Edit>, a: seq<int>, b: seq<int>) returns (script: seq<Edit>)
    requires b != [] && Turns(first, a, Init(b))
    ensures Turns(script, a, b) && |script| == |first| + 1
  {
    var e := Insert(|Init(b)|, Last(b));
    TurnsThen(first, e, a, Init(b));
    assert Edited(e, Init(b)) == b;
    script := first + [e];
  }

  lemma DropScript(rest: seq<Edit>, a: seq<int>, b: seq<int>) returns (script: seq<Edit>)
    requires a != [] && Turns(rest, Init(a), b)
    ensures Turns(script, a, b) && |script| == |rest| + 1
  {
    var e := Delete(|a| - 1);
    assert Edited(e, a) == Init(a);
    script := [e] + rest;
    assert script[1..] == rest;
  }

  lemma ReplaceScript(first: seq<Edit>, a: seq<int>, b: seq<int>) returns (script: seq<Edit>)
    requires a != [] && b != [] && Turns(first, Init(a), Init(b))
    ensures Turns(script, a, b) && |script| == |first| + Differ(Last(a), Last(b))
  {
    hide Turns;
    var x, y := Last(a), Last(b);
    TurnsInFront(first, Init(a), Init(b), [x]);
    assert Init(a) + [x] == a && Init(b) + [y] == b;
    if x == y {
      return first;
    }
    var e := Replace(|Init(b)|, y);
    TurnsThen(first, e, a, Init(b) + [x]);
    assert Edited(e, Init(b) + [x]) == b;
    script := first + [e];
  }

  /** Some script is as short as the distance. */
  lemma {:induction false} ShortestScript(a: seq<int>, b: seq<int>) returns (script: seq<Edit>)
    ensures Turns(script, a, b) && |script| == Dist(a, b)
    decreases |a| + |b|
  {
    if a == [] && b == [] {
      script := [];
    } else if b != [] && (a == [] || Dist(a, b) == Dist(a, Init(b)) + 1) {
      var first := ShortestScript(a, Init(b));
      script := AppendScript(first, a, b);
    } else if b == [] || Dist(a, b) == Dist(Init(a), b) + 1 {
      var rest := ShortestScript(Init(a), b);
      script := DropScript(rest, a, b);
    } else {
      var first := ShortestScript(Init(a), Init(b));
      script := ReplaceScript(first, a, b);
    }
  }

  // ---------------------------------------------------------------------------------------------
  // The table in the buffer
  // ---------------------------------------------------------------------------------------------

  /** The table's entry for the prefixes of length `i` and `j`. */
  ghost function Cell(s: seq<int>, t: seq<int>, i: nat, j: nat): nat
    requires i <= |s| && j <= |t|
  {
    Dist(s[..i], t[..j])
  }

  lemma CellStep(s: seq<int>, t: seq<int>, i: nat, j: nat)
    requires i <= |s| && j <= |t|
    ensures i == 0 ==> Cell(s, t, i, j) == j
    ensures j == 0 ==> Cell(s, t, i, j) == i
    ensures i > 0 && j > 0 ==>
              Cell(s, t, i, j) == Min3(Cell(s, t, i - 1, j) + 1, Cell(s, t, i, j - 1) + 1,
                                       Cell(s, t, i - 1, j - 1) + Differ(s[i - 1], t[j - 1]))
  {
    if i > 0 && j > 0 {
      assert Init(s[..i]) == s[..i - 1] && Init(t[..j]) == t[..j - 1];
    }
  }

  lemma CellWhole(s: seq<int>, t: seq<int>)
    ensures Cell(s, t, |s|, |t|) == Dist(s, t)
  {
    assert s[..|s|] == s && t[..|t|] == t;
  }

  /** The row of the table that starts at `row` holds row `j`, up to column `n`. */
  ghost predicate RowDone(buf: array<int>, row: nat, s: seq<int>, t: seq<int>, j: nat, n: nat)
    reads buf
    requires row + |s| < buf.Length && j <= |t| && n <= |s| + 1
  {
    forall i :: 0 <= i < n ==> buf[row + i] == Cell(s, t, i, j)
  }

  /** A string lies in memory before the working area, if in the same array. */
  ghost predicate StringAt(src: array<int>, at: nat, s: seq<int>, buf: array<int>, off: nat)
    reads src
  {
    at + |s| <= src.Length && src[at..at + |s|] == s && (src == buf ==> at + |s| <= off)
  }

  twostate predicate OnlyRow(buf: array<int>, row: nat, len: nat)
    reads buf
  {
    forall k :: 0 <= k < buf.Length && !(row <= k < row + len) ==> buf[k] == old(buf[k])
  }

  /** `(j & 1) * (a_len + 1)`: the parity of `j` selects one of the two rows. */
  function RowAt(off: nat, aLen: nat, j: nat): nat {
    if j % 2 == 0 then off else off + (aLen + 1)
  }

  lemma RowsApart(off: nat, aLen: nat, j: nat)
    requires j > 0
    ensures RowAt(off, aLen, j) + aLen < RowAt(off, aLen, j - 1) || RowAt(off, aLen, j - 1) + aLen < RowAt(off, aLen, j)
    ensures off <= RowAt(off, aLen, j) <= off + aLen + 1
  {
  }

  /** `B(i, 0) = i` */
  method FillFirstRow(src: array<int>, a: nat, aLen: nat, b: nat, ghost s: seq<int>, ghost t: seq<int>,
                      buf: array<int>, off: nat)
    requires aLen == |s| && off + aLen < buf.Length
    requires StringAt(src, a, s, buf, off) && StringAt(src, b, t, buf, off)
    modifies buf
    ensures RowDone(buf, off, s, t, 0, aLen + 1) && OnlyRow(buf, off, aLen + 1)
    ensures StringAt(src, a, s, buf, off) && StringAt(src, b, t, buf, off)
  {
    hide Cell;
    var i := 0;
    while i <= aLen
      invariant i <= aLen + 1
      invariant RowDone(buf, off, s, t, 0, i) && OnlyRow(buf, off, aLen + 1)
    {
      buf[off + i] := i;
      CellStep(s, t, i, 0);
      i := i + 1;
    }
    assert src[a..a + |s|] == old(src[a..a + |s|]) && src[b..b + |t|] == old(src[b..b + |t|]);
  }

  lemma CharAt(src: array<int>, at: nat, s: seq<int>, buf: array<int>, off: nat, i: nat)
    requires StringAt(src, at, s, buf, off) && i < |s|
    ensures at + i < src.Length && src[at + i] == s[i]
  {
    assert src[at..at + |s|][i] == src[at + i];
  }

  /** One entry of row `j` from its three neighbours. */
  method FillEntry(src: array<int>, a: nat, b: nat, i: nat, j: nat, ghost s: seq<int>, ghost t: seq<int>,
                   buf: array<int>, off: nat, row: nat, above: nat)
    requires 0 < i <= |s| && 0 < j <= |t|
    requires StringAt(src, a, s, buf, off) && StringAt(src, b, t, buf, off)
    requires off <= row && off <= above && row + |s| < buf.Length && above + |s| < buf.Length
    requires row + |s| < above || above + |s| < row
    requires RowDone(buf, row, s, t, j, i) && RowDone(buf, above, s, t, j - 1, |s| + 1)
    modifies buf
    ensures RowDone(buf, row, s, t, j, i + 1) && OnlyRow(buf, row + i, 1)
    ensures RowDone(buf, above, s, t, j - 1, |s| + 1)
    ensures StringAt(src, a, s, buf, off) && StringAt(src, b, t, buf, off)
  {
    CharAt(src, a, s, buf, off, i - 1);
    CharAt(src, b, t, buf, off, j - 1);
    CellStep(s, t, i, j);
    hide Cell, Dist, Min3, Differ;
    var subst := Differ(src[a + i - 1], src[b + j - 1]);
    buf[row + i] := Min3(buf[row + i - 1] + 1, buf[above + i] + 1, buf[above + i - 1] + subst);
    assert src[a..a + |s|] == old(src[a..a + |s|]) && src[b..b + |t|] == old(src[b..b + |t|]);
  }

  /** One pass of the inner loop: row `j` from the row above it. */
  method FillRow(src: array<int>, a: nat, aLen: nat, b: nat, j: nat, ghost s: seq<int>, ghost t: seq<int>,
                 buf: array<int>, off: nat, row: nat, above: nat)
    requires aLen == |s| && 0 < j <= |t|
    requires StringAt(src, a, s, buf, off) && StringAt(src, b, t, buf, off)
    requires off <= row && off <= above && row + aLen < buf.Length && above + aLen < buf.Length
    requires row + aLen < above || above + aLen < row
    requires RowDone(buf, above, s, t, j - 1, aLen + 1)
    modifies buf
    ensures RowDone(buf, row, s, t, j, aLen + 1) && OnlyRow(buf, row, aLen + 1)
    ensures StringAt(src, a, s, buf, off) && StringAt(src, b, t, buf, off)
  {
    FirstEntry(src, a, b, j, s, t, buf, off, row, above);
    hide RowDone, StringAt;
    var i := 1;
    while i <= aLen
      invariant 1 <= i <= aLen + 1
      invariant RowDone(buf, row, s, t, j, i) && OnlyRow(buf, row, aLen + 1)
      invariant RowDone(buf, above, s, t, j - 1, aLen + 1)
      invariant StringAt(src, a, s, buf, off) && StringAt(src, b, t, buf, off)
    {
      FillEntry(src, a, b, i, j, s, t, buf, off, row, above);
      i := i + 1;
    }
  }

  /** `B(0, j) = j` */
  method FirstEntry(src: array<int>, a: nat, b: nat, j: nat, ghost s: seq<int>, ghost t: seq<int>,
                    buf: array<int>, off: nat, row: nat, above: nat)
    requires 0 < j <= |t|
    requires StringAt(src, a, s, buf, off) && StringAt(src, b, t, buf, off)
    requires off <= row && off <= above && row + |s| < buf.Length && above + |s| < buf.Length
    requires row + |s| < above || above + |s| < row
    requires RowDone(buf, above, s, t, j - 1, |s| + 1)
    modifies buf
    ensures RowDone(buf, row, s, t, j, 1) && OnlyRow(buf, row, 1) && RowDone(buf, above, s, t, j - 1, |s| + 1)
    ensures StringAt(src, a, s, buf, off) && StringAt(src, b, t, buf, off)
  {
    CellStep(s, t, 0, j);
    hide Cell, Dist;
    buf[row] := j;
    assert src[a..a + |s|] == old(src[a..a + |s|]) && src[b..b + |t|] == old(src[b..b + |t|]);
  }

  lemma LastEntry(buf: array<int>, row: nat, s: seq<int>, t: seq<int>)
    requires row + |s| < buf.Length && RowDone(buf, row, s, t, |t|, |s| + 1)
    ensures buf[row + |s|] == Dist(s, t)
  {
    CellWhole(s, t);
  }

  /** The table for a first string that is not the longer one: its two rows fit the buffer. */
  method FillTable(src: array<int>, a: nat, aLen: nat, b: nat, bLen: nat, ghost s: seq<int>, ghost t: seq<int>,
                   buf: array<int>, off: nat, bufLen: nat)
    returns (r: int)
    requires aLen == |s| <= |t| == bLen && StringAt(src, a, s, buf, off) && StringAt(src, b, t, buf, off)
    requires bufLen >= (aLen + 1) + (bLen + 1) && off + bufLen <= buf.Length
    modifies buf
    ensures r == Dist(s, t) && OnlyRow(buf, off, bufLen)
  {
    hide RowDone, StringAt, Dist;
    FillFirstRow(src, a, aLen, b, s, t, buf, off);
    var j := 1;
    while j <= bLen
      invariant 1 <= j <= bLen + 1
      invariant RowDone(buf, RowAt(off, aLen, j - 1), s, t, j - 1, aLen + 1)
      invariant StringAt(src, a, s, buf, off) && StringAt(src, b, t, buf, off)
      invariant OnlyRow(buf, off, bufLen)
    {
      RowsApart(off, aLen, j);
      FillRow(src, a, aLen, b, j, s, t, buf, off, RowAt(off, aLen, j), RowAt(off, aLen, j - 1));
      j := j + 1;
    }
    LastEntry(buf, RowAt(off, aLen, bLen), s, t);
    r := buf[RowAt(off, aLen, bLen) + aLen];
  }

  /** `str_utf32_dist_buffer`. The strings are slices of `src`, which may be the buffer's own array in
      front of the working area that starts at `off`. */
  method StrUtf32DistBuffer(src: array<int>, a0: nat, aLen0: nat, b0: nat, bLen0: nat,
                            buf: array<int>, off: nat, bufLen: nat)
    returns (r: int)
    requires a0 + aLen0 <= src.Length && b0 + bLen0 <= src.Length && off + bufLen <= buf.Length
    requires bufLen >= (aLen0 + 1) + (bLen0 + 1)
    requires src == buf ==> a0 + aLen0 <= off && b0 + bLen0 <= off
    modifies buf
    ensures r == Dist(old(src[a0..a0 + aLen0]), old(src[b0..b0 + bLen0]))
    ensures OnlyRow(buf, off, bufLen)
  {
    hide Dist;
    ghost var s0, t0 := src[a0..a0 + aLen0], src[b0..b0 + bLen0];
    var a, aLen, b, bLen := a0, aLen0, b0, bLen0;
    ghost var s, t := s0, t0;
    if aLen > bLen {
      a, aLen, b, bLen := b, bLen, a, aLen;
      s, t := t, s;
    }
    assert StringAt(src, a, s, buf, off) && StringAt(src, b, t, buf, off);
    hide StringAt;
    r := FillTable(src, a, aLen, b, bLen, s, t, buf, off, bufLen);
    DistSymmetric(s0, t0);
  }

  // ---------------------------------------------------------------------------------------------
  // The UTF-8 front end
  // ---------------------------------------------------------------------------------------------

  /** `str_to_utf32_unchecked`: the decoded string and a zero behind it, from `at` on. */
  method StrToUtf32Unchecked(s: text, out: array<int>, at: nat) returns (n: nat)
    requires at + |s| < out.Length
    modifies out
    ensures n <= |s| && n == |DecodeFrom(s, 0)|
    ensures out[at..at + n] == DecodeFrom(s, 0)
    ensures out[..at] == old(out[..at])
  {
    hide DecodeFrom, DecodeAt;
    var ptr := 0;
    n := 0;
    assert out[at..at + n] + DecodeFrom(s, ptr) == DecodeFrom(s, 0);
    while true
      invariant ptr <= |s| && n <= ptr
      invariant DecodeFrom(s, 0) == out[at..at + n] + DecodeFrom(s, ptr)
      invariant out[..at] == old(out[..at])
      decreases |s| - ptr
    {
      DecodeProgress(s, ptr);
      DecodeNext(s, ptr);
      var code, next := StrUtf8Decode(s, ptr);
      ghost var before := out[at..at + n];
      out[at + n] := code;
      assert out[at..at + n] == before;
      if code == 0 {
        break;
      }
      assert out[at..at + n + 1] == before + [code];
      Regrouped(before, code, DecodeFrom(s, next));
      ptr := next;
      n := n + 1;
    }
    assert out[at..at + n] + [] == out[at..at + n];
  }

  lemma DecodeNext(s: text, ptr: nat)
    requires ptr <= |s|
    ensures var (code, next) := DecodeAt(s, ptr);
            && (code == 0 ==> DecodeFrom(s, ptr) == [])
            && (code != 0 ==> next <= |s| && DecodeFrom(s, ptr) == [code] + DecodeFrom(s, next))
  {
    DecodeProgress(s, ptr);
    hide DecodeAt;
  }

  lemma Regrouped(a: seq<int>, x: int, b: seq<int>)
    ensures a + ([x] + b) == (a + [x]) + b
  {
  }

  /** `str_utf8_dist_buffer`: both decoded strings and the table share one buffer without overlap. The
      distance counts code points, each undecodable stretch as one. */
  method StrUtf8DistBuffer(aUtf8: text, bUtf8: text, buf: array<int>) returns (r: int)
    requires buf.Length >= 2 * (|aUtf8| + 1 + |bUtf8| + 1)
    modifies buf
    ensures r == Dist(DecodeFrom(aUtf8, 0), DecodeFrom(bUtf8, 0))
  {
    hide Dist, DecodeFrom;
    var a, b := aUtf8, bUtf8;
    if |a| > |b| {
      a, b := b, a;
    }
    DistSymmetric(DecodeFrom(aUtf8, 0), DecodeFrom(bUtf8, 0));
    var aLen := StrToUtf32Unchecked(a, buf, 0);
    ghost var first := buf[..aLen];
    var bLen := StrToUtf32Unchecked(b, buf, aLen);
    var off := aLen + bLen;
    assert buf[0..aLen] == first;
    r := StrUtf32DistBuffer(buf, 0, aLen, aLen, bLen, buf, off, buf.Length - bLen - aLen);
  }

  /** `str_utf8_dist` */
  method StrUtf8Dist(a: text, b: text) returns (r: int)
    ensures r == Dist(DecodeFrom(a, 0), DecodeFrom(b, 0))
  {
    var buf := new int[2 * (|a| + 1 + |b| + 1)](_ => 0);
    r := StrUtf8DistBuffer(a, b, buf);
  }
}
