/** The text of an IPv6 address: `net_addr_str_v6` of src/base/system.cpp. */
module NetAddrV6 {
  import opened Bytes
  import opened NetAddr

  type group = g: int | 0 <= g < 65536
  type groups = s: seq<group> | |s| == 8 witness seq(8, _ => 0)

  // ---------------------------------------------------------------------------------------------
  // The run of zeros that is left out
  // ---------------------------------------------------------------------------------------------

  /** `len` zero groups from group `start` on. */
  predicate Zeros(ip: groups, start: int, len: int) {
    0 <= start && 0 <= len && start + len <= 8 && forall k :: start <= k < start + len ==> ip[k] == 0
  }

  function ZerosAt(ip: groups, i: nat): (n: nat)
    requires i <= 8
    ensures Zeros(ip, i, n) && (i + n < 8 ==> ip[i + n] != 0)
    decreases 8 - i
  {
    if i == 8 || ip[i] != 0 then 0 else 1 + ZerosAt(ip, i + 1)
  }

  datatype Run = Run(start: int, len: nat)

  /** The first of the longest runs of at least two zeros from group `i` on; (-1, 0) when there is none. */
  function GapFrom(ip: groups, i: nat): Run
    requires i <= 8
    decreases 8 - i
  {
    if i == 8 then Run(-1, 0)
    else
      var later, here := GapFrom(ip, i + 1), ZerosAt(ip, i);
      if here >= 2 && here >= later.len then Run(i, here) else later
  }

  function Gap(ip: groups): Run { GapFrom(ip, 0) }

  /** What section 4.2 of RFC 5952 asks for. */
  ghost predicate LeftmostLongest(ip: groups, i: int, r: Run) {
    && (r.len == 0 ==> r.start == -1 && forall s, n :: i <= s && Zeros(ip, s, n) ==> n <= 1)
    && (r.len != 0 ==> r.len >= 2 && i <= r.start && Zeros(ip, r.start, r.len))
    && (r.len != 0 ==> forall s, n :: i <= s && Zeros(ip, s, n) ==> n < r.len || (n == r.len && r.start <= s))
  }

  lemma ZerosFrom(ip: groups, i: nat, s: int, n: int)
    requires i <= s && Zeros(ip, s, n) && n > 0 && i < 8
    ensures s > i || n <= ZerosAt(ip, i)
  {
  }

  lemma {:induction false} GapFromIsLongest(ip: groups, i: nat)
    requires i <= 8
    ensures LeftmostLongest(ip, i, GapFrom(ip, i))
    decreases 8 - i
  {
    if i < 8 {
      GapFromIsLongest(ip, i + 1);
      var r := GapFrom(ip, i);
      forall s, n | i <= s && Zeros(ip, s, n) && n > 0
        ensures s > i || n <= ZerosAt(ip, i)
      {
        ZerosFrom(ip, i, s, n);
      }
    }
  }

  /** The gap is the leftmost of the longest runs of at least two zero groups. */
  lemma GapIsLeftmostLongest(ip: groups)
    ensures LeftmostLongest(ip, 0, Gap(ip))
  {
    GapFromIsLongest(ip, 0);
  }

  lemma LeftmostLongestUnique(ip: groups, r: Run, q: Run)
    requires LeftmostLongest(ip, 0, r) && LeftmostLongest(ip, 0, q)
    ensures r == q
  {
  }

  /** The longest run that lies before group `limit`. */
  ghost predicate BestBefore(ip: groups, limit: int, start: int, len: int) {
    && (len == 0 ==> start == -1)
    && len >= 0
    && (len > 0 ==> Zeros(ip, start, len) && start + len <= limit)
    && forall s, n :: Zeros(ip, s, n) && n > 0 && s + n <= limit ==> n < len || (n == len && start <= s)
  }

  lemma RunEnds(ip: groups, from: int, i: int, start: int, len: int)
    requires Zeros(ip, from, i - from) && from < i && (from == 0 || ip[from - 1] != 0)
    requires BestBefore(ip, from, start, len)
    ensures len < i - from ==> BestBefore(ip, i, from, i - from)
    ensures len >= i - from ==> BestBefore(ip, i, start, len)
  {
  }

  /** The scan of `net_addr_str_v6`. */
  method LongestZeros(ip: groups) returns (start: int, len: nat)
    ensures Run(start, len) == Gap(ip)
  {
    len, start := 0, -1;
    var seqLen: nat, seqStart := 0, -1;
    var i := 0;
    while i < 8 + 1
      invariant 0 <= i <= 9 && (i == 9 ==> seqStart == -1)
      invariant seqStart == -1 ==> (0 < i < 9 ==> ip[i - 1] != 0) && BestBefore(ip, if i < 8 then i else 8, start, len)
      invariant seqStart != -1 ==> 0 <= seqStart < i && seqLen == i - seqStart && Zeros(ip, seqStart, seqLen)
      invariant seqStart != -1 ==> (seqStart == 0 || ip[seqStart - 1] != 0) && BestBefore(ip, seqStart, start, len)
    {
      if seqStart != -1 {
        if i == 8 || ip[i] != 0 {
          RunEnds(ip, seqStart, i, start, len);
          if len < seqLen {
            len := seqLen;
            start := seqStart;
          }
          seqLen := 0;
          seqStart := -1;
        } else {
          seqLen := seqLen + 1;
        }
      } else {
        if i != 8 && ip[i] == 0 {
          seqStart := i;
          seqLen := 1;
        }
      }
      i := i + 1;
    }
    if len <= 1 {
      len := 0;
      start := -1;
    }
    GapIsLeftmostLongest(ip);
    LeftmostLongestUnique(ip, Run(start, len), Gap(ip));
  }

  // ---------------------------------------------------------------------------------------------
  // Printing
  // ---------------------------------------------------------------------------------------------

  function HexDigit(v: nat): byte
    requires v < 16
  {
    if v < 10 then ZERO + v else 97 + v - 10
  }

  predicate IsHexDigit(c: byte) {
    IsDigit(c) || 97 <= c <= 102
  }

  /** `%x` */
  function Hex(n: nat): (h: text)
    ensures |h| > 0 && forall i :: 0 <= i < |h| ==> IsHexDigit(h[i])
  {
    if n < 16 then [HexDigit(n)] else Hex(n / 16) + [HexDigit(n % 16)]
  }

  /** The groups with colons between them. */
  function Joined(g: seq<group>): text {
    if g == [] then []
    else if |g| == 1 then Hex(g[0])
    else Joined(g[..|g| - 1]) + [COLON] + Hex(g[|g| - 1])
  }

  /** The address without brackets: the groups before and behind the gap, and `::` for the gap. */
  function Body(ip: groups): text {
    var gap := Gap(ip);
    GapIsLeftmostLongest(ip);
    if gap.len == 0 then Joined(ip)
    else Joined(ip[..gap.start]) + [COLON, COLON] + Joined(ip[gap.start + gap.len..])
  }

  function PortSuffix(port: int): text {
    if port >= 0 then [COLON] + Decimal(port) else []
  }

  function V6Text(ip: groups, port: int): text {
    [OPENING] + Body(ip) + [CLOSING] + PortSuffix(port)
  }

  /** What is printed once group `i` is reached. */
  function Partial(ip: groups, gap: Run, i: nat): text
    requires i <= 8 && (gap.len != 0 ==> 0 <= gap.start && gap.start + gap.len <= 8)
  {
    if gap.len == 0 || i <= gap.start then Joined(ip[..i])
    else if i <= gap.start + gap.len then Joined(ip[..gap.start]) + [COLON, COLON]
    else Joined(ip[..gap.start]) + [COLON, COLON] + Joined(ip[gap.start + gap.len..i])
  }

  lemma PartialStep(ip: groups, gap: Run, i: nat)
    requires i < 8 && gap.start + gap.len <= 8
    requires (gap.len == 0 ==> gap.start == -1) && (gap.len != 0 ==> gap.start >= 0)
    ensures Partial(ip, gap, i + 1) ==
            if gap.start <= i < gap.start + gap.len then
              Partial(ip, gap, i) + if i == gap.start then [COLON, COLON] else []
            else Partial(ip, gap, i) + (if i == 0 || i == gap.start + gap.len then [] else [COLON]) + Hex(ip[i])
  {
    hide Hex, Joined;
    if gap.len == 0 || i < gap.start {
      assert ip[..i] == ip[0..i] && ip[..i + 1] == ip[0..i + 1];
      JoinedGrows(ip, 0, i);
    } else if i >= gap.start + gap.len {
      JoinedGrows(ip, gap.start + gap.len, i);
      EmptyJoined(ip, i);
    }
  }

  lemma EmptyJoined(ip: groups, i: nat)
    requires i <= 8
    ensures Joined(ip[i..i]) == []
  {
  }

  lemma JoinedGrows(ip: groups, from: nat, i: nat)
    requires from <= i < 8
    ensures Joined(ip[from..i + 1]) == Joined(ip[from..i]) + (if i == from then [] else [COLON]) + Hex(ip[i])
  {
    hide Hex;
    assert ip[from..i + 1][..i - from] == ip[from..i];
  }

  /** What fits a buffer of `size` bytes with its terminator. */
  function Cut(s: text, size: nat): text
    requires size > 0
  {
    if |s| < size then s else s[..size - 1]
  }

  /** `str_copy` or `str_format` behind what the buffer already holds. */
  function Append(out: text, piece: text, size: nat): text
    requires |out| < size
  {
    out + Cut(piece, size - |out|)
  }

  /** Cutting piece by piece cuts the whole. */
  lemma AppendCut(s: text, piece: text, size: nat)
    requires size > 0
    ensures |Cut(s, size)| < size && Append(Cut(s, size), piece, size) == Cut(s + piece, size)
  {
  }

  lemma EmptyCut(size: nat)
    requires size > 0
    ensures Cut([], size) == []
  {
  }

  /** The printing loop, behind the opening bracket. */
  method PutBody(ip: groups, start: int, len: nat, size: nat) returns (out: text)
    requires size > 0 && Run(start, len) == Gap(ip)
    ensures out == Cut([OPENING] + Body(ip), size)
  {
    hide Hex, Joined, Gap, Partial, Cut;
    GapIsLeftmostLongest(ip);
    PartialEnds(ip);
    EmptyCut(size);
    out := Put([], [], [OPENING], size);
    ghost var whole: text := [OPENING];
    assert [] + whole == whole && whole + [] == whole;
    var i := 0;
    while i < 8
      invariant 0 <= i <= 8 && whole == [OPENING] + Partial(ip, Run(start, len), i) && out == Cut(whole, size)
    {
      PartialStep(ip, Run(start, len), i);
      if start <= i && i < start + len {
        if i == start {
          out := Put(out, whole, [COLON, COLON], size);
          whole := whole + [COLON, COLON];
        }
      } else {
        var colon := if i == 0 || i == start + len then [] else [COLON];
        out := Put(out, whole, colon + Hex(ip[i]), size);
        whole := whole + (colon + Hex(ip[i]));
      }
      i := i + 1;
    }
  }

  /** `net_addr_str_v6` with a buffer of `size` bytes. */
  method NetAddrStrV6(ip: groups, port: int, size: nat) returns (out: text)
    requires size > 0
    ensures out == Cut(V6Text(ip, port), size)
  {
    hide Body, Cut;
    var start, len := LongestZeros(ip);
    out := PutBody(ip, start, len, size);
    ghost var body := [OPENING] + Body(ip);
    out := Put(out, body, [CLOSING], size);
    if port >= 0 {
      out := Put(out, body + [CLOSING], [COLON] + Decimal(port), size);
    } else {
      assert V6Text(ip, port) == body + [CLOSING];
    }
  }

  method Put(out: text, ghost whole: text, piece: text, size: nat) returns (r: text)
    requires size > 0 && out == Cut(whole, size)
    ensures r == Cut(whole + piece, size)
  {
    AppendCut(whole, piece, size);
    r := Append(out, piece, size);
  }

  lemma PartialEnds(ip: groups)
    ensures Gap(ip).start + Gap(ip).len <= 8 && -1 <= Gap(ip).start
    ensures Partial(ip, Gap(ip), 0) == [] && Partial(ip, Gap(ip), 8) == Body(ip)
  {
    GapIsLeftmostLongest(ip);
    hide Gap;
    assert ip[..8] == ip;
  }

  // ---------------------------------------------------------------------------------------------
  // A reader, to show that the text determines the address
  // ---------------------------------------------------------------------------------------------

  predicate NoColon(w: seq<byte>) { COLON !in w }

  /** The fields between the colons. */
  function Split(s: seq<byte>): (f: seq<seq<byte>>)
    ensures |f| > 0
  {
    if s == [] then [[]]
    else
      var f := Split(s[..|s| - 1]);
      if s[|s| - 1] == COLON then f + [[]]
      else f[..|f| - 1] + [f[|f| - 1] + [s[|s| - 1]]]
  }

  function Interspersed(f: seq<seq<byte>>): seq<byte>
    requires |f| > 0
  {
    if |f| == 1 then f[0] else Interspersed(f[..|f| - 1]) + [COLON] + f[|f| - 1]
  }

  lemma SplitByte(s: seq<byte>, c: byte)
    requires c != COLON
    ensures var f := Split(s); Split(s + [c]) == f[..|f| - 1] + [f[|f| - 1] + [c]]
  {
  }

  lemma {:induction false} SplitBehind(s: seq<byte>, w: seq<byte>)
    requires NoColon(w)
    ensures var f := Split(s); Split(s + w) == f[..|f| - 1] + [f[|f| - 1] + w]
    decreases |w|
  {
    hide Split;
    var f := Split(s);
    var last := f[|f| - 1];
    if w == [] {
      assert s + w == s && last + w == last;
      assert f == f[..|f| - 1] + [last];
    } else {
      var front, c := w[..|w| - 1], w[|w| - 1];
      SplitBehind(s, front);
      SplitByte(s + front, c);
      assert s + w == s + front + [c] && last + w == last + front + [c];
      assert (f[..|f| - 1] + [last + front])[..|f| - 1] == f[..|f| - 1];
    }
  }

  lemma SplitColon(s: seq<byte>)
    ensures Split(s + [COLON]) == Split(s) + [[]]
  {
  }

  lemma SplitField(s: seq<byte>, f: seq<seq<byte>>, w: seq<byte>)
    requires Split(s) == f && NoColon(w)
    ensures Split(s + [COLON] + w) == f + [w]
  {
    hide Split;
    SplitColon(s);
    SplitBehind(s + [COLON], w);
    assert [] + w == w;
    assert (f + [[]])[..|f|] == f;
  }

  lemma SplitAlone(w: seq<byte>)
    requires NoColon(w)
    ensures Split(w) == [w]
  {
    SplitBehind([], w);
    assert Split([]) == [[]];
    assert [] + w == w;
  }

  lemma {:induction false} SplitInterspersed(f: seq<seq<byte>>)
    requires |f| > 0 && forall i :: 0 <= i < |f| ==> NoColon(f[i])
    ensures Split(Interspersed(f)) == f
    decreases |f|
  {
    hide Split, NoColon;
    var n := |f| - 1;
    if n == 0 {
      SplitAlone(f[0]);
    } else {
      SplitInterspersed(f[..n]);
      SplitField(Interspersed(f[..n]), f[..n], f[n]);
    }
  }

  function HexValueOf(c: byte): int {
    if IsDigit(c) then c - ZERO else c - 97 + 10
  }

  function HexValue(h: seq<byte>): int {
    if h == [] then 0 else 16 * HexValue(h[..|h| - 1]) + HexValueOf(h[|h| - 1])
  }

  lemma {:induction false} HexValueOfHex(n: nat)
    ensures HexValue(Hex(n)) == n
  {
    var h := Hex(n);
    if n >= 16 {
      HexValueOfHex(n / 16);
      assert h[..|h| - 1] == Hex(n / 16);
    } else {
      assert h[..0] == [] && HexValue([]) == 0;
    }
  }

  function Hexes(g: seq<group>): (f: seq<seq<byte>>)
    ensures |f| == |g|
  {
    seq(|g|, i requires 0 <= i < |g| => Hex(g[i]))
  }

  function OrEmpty(f: seq<seq<byte>>): (r: seq<seq<byte>>)
    ensures |r| > 0
  {
    if f == [] then [[]] else f
  }

  function Fields(ip: groups): seq<seq<byte>> {
    var gap := Gap(ip);
    GapIsLeftmostLongest(ip);
    if gap.len == 0 then Hexes(ip)
    else OrEmpty(Hexes(ip[..gap.start])) + [[]] + OrEmpty(Hexes(ip[gap.start + gap.len..]))
  }

  lemma {:induction false} JoinedIsInterspersed(g: seq<group>)
    ensures Joined(g) == Interspersed(OrEmpty(Hexes(g)))
    decreases |g|
  {
    if |g| > 1 {
      var n := |g| - 1;
      JoinedIsInterspersed(g[..n]);
      assert Hexes(g)[..n] == Hexes(g[..n]);
    }
  }

  lemma {:induction false} InterspersedBehind(a: seq<seq<byte>>, b: seq<seq<byte>>)
    requires |a| > 0 && |b| > 0
    ensures Interspersed(a + b) == Interspersed(a) + [COLON] + Interspersed(b)
    decreases |b|
  {
    var n := |b| - 1;
    assert (a + b)[..|a + b| - 1] == a + b[..n];
    if n == 0 {
      assert a + b[..n] == a;
    } else {
      InterspersedBehind(a, b[..n]);
    }
  }

  lemma BodyIsInterspersed(ip: groups)
    ensures |Fields(ip)| > 0 && Body(ip) == Interspersed(Fields(ip))
  {
    var gap := Gap(ip);
    GapIsLeftmostLongest(ip);
    hide Gap, Joined, Hexes, Interspersed;
    if gap.len == 0 {
      JoinedIsInterspersed(ip);
    } else {
      var a, b := ip[..gap.start], ip[gap.start + gap.len..];
      JoinedIsInterspersed(a);
      JoinedIsInterspersed(b);
      AroundGap(OrEmpty(Hexes(a)), OrEmpty(Hexes(b)));
    }
  }

  lemma AroundGap(a: seq<seq<byte>>, b: seq<seq<byte>>)
    requires |a| > 0 && |b| > 0
    ensures Interspersed(a + [[]] + b) == Interspersed(a) + [COLON, COLON] + Interspersed(b)
  {
    EmptyField();
    hide Interspersed;
    InterspersedBehind(a + [[]], b);
    InterspersedBehind(a, [[]]);
    TwoColons(Interspersed(a), Interspersed(b));
  }

  lemma EmptyField()
    ensures Interspersed([[]]) == []
  {
  }

  lemma TwoColons(x: seq<byte>, y: seq<byte>)
    ensures x + [COLON] + [] + [COLON] + y == x + [COLON, COLON] + y
  {
  }

  lemma HexesColonFree(g: seq<group>)
    ensures forall i :: 0 <= i < |OrEmpty(Hexes(g))| ==> NoColon(OrEmpty(Hexes(g))[i])
  {
  }

  lemma EmptyColonFree()
    ensures NoColon([])
    ensures forall g: seq<group> :: g != [] ==> OrEmpty(Hexes(g)) == Hexes(g)
  {
  }

  lemma ColonFreeFields(ip: groups)
    ensures forall i :: 0 <= i < |Fields(ip)| ==> NoColon(Fields(ip)[i])
  {
    var gap := Gap(ip);
    GapIsLeftmostLongest(ip);
    HexesColonFree(ip);
    if gap.len != 0 {
      HexesColonFree(ip[..gap.start]);
      HexesColonFree(ip[gap.start + gap.len..]);
    }
    EmptyColonFree();
    hide Gap, Hexes, NoColon, OrEmpty, LeftmostLongest;
  }

  function LeadingFilled(f: seq<seq<byte>>): (n: nat)
    ensures n <= |f|
  {
    if f == [] || f[0] == [] then 0 else 1 + LeadingFilled(f[1..])
  }

  function TrailingFilled(f: seq<seq<byte>>): (n: nat)
    ensures n <= |f|
  {
    if f == [] || f[|f| - 1] == [] then 0 else 1 + TrailingFilled(f[..|f| - 1])
  }

  function Values(f: seq<seq<byte>>): seq<int> {
    seq(|f|, i requires 0 <= i < |f| => HexValue(f[i]))
  }

  function ZeroSeq(n: int): (z: seq<int>)
    ensures |z| == if n > 0 then n else 0
    ensures forall i :: 0 <= i < |z| ==> z[i] == 0
  {
    if n <= 0 then [] else [0] + ZeroSeq(n - 1)
  }

  /** The groups of an address without brackets: as many zeros for `::` as eight groups leave room for. */
  function ReadGroups(body: seq<byte>): seq<int> {
    var f := Split(body);
    var before, behind := LeadingFilled(f), TrailingFilled(f);
    if before == |f| then Values(f)
    else Values(f[..before]) + ZeroSeq(8 - before - behind) + Values(f[|f| - behind..])
  }

  lemma {:induction false} LeadingOf(a: seq<seq<byte>>, rest: seq<seq<byte>>)
    requires (forall i :: 0 <= i < |a| ==> a[i] != []) && (rest == [] || rest[0] == [])
    ensures LeadingFilled(a + rest) == |a|
    decreases |a|
  {
    if a == [] {
      assert a + rest == rest;
    } else {
      LeadingOf(a[1..], rest);
      assert (a + rest)[1..] == a[1..] + rest;
    }
  }

  lemma {:induction false} TrailingOf(rest: seq<seq<byte>>, b: seq<seq<byte>>)
    requires (forall i :: 0 <= i < |b| ==> b[i] != []) && (rest == [] || rest[|rest| - 1] == [])
    ensures TrailingFilled(rest + b) == |b|
    decreases |b|
  {
    if b == [] {
      assert rest + b == rest;
    } else {
      TrailingOf(rest, b[..|b| - 1]);
      assert (rest + b)[..|rest + b| - 1] == rest + b[..|b| - 1];
    }
  }

  lemma HexesFilled(g: seq<group>)
    ensures (forall i :: 0 <= i < |g| ==> Hexes(g)[i] != []) && Values(Hexes(g)) == g
  {
    forall i | 0 <= i < |g|
      ensures HexValue(Hexes(g)[i]) == g[i]
    {
      HexValueOfHex(g[i]);
    }
    hide Hex, HexValue;
  }

  /** Reading the body of a printed address gives its groups. */
  lemma ReadGroupsOfBody(ip: groups)
    ensures ReadGroups(Body(ip)) == ip
  {
    var gap := Gap(ip);
    GapIsLeftmostLongest(ip);
    BodyIsInterspersed(ip);
    ColonFreeFields(ip);
    hide Gap, Body, NoColon, Hexes, Interspersed, Split, Values, LeadingFilled, TrailingFilled;
    SplitInterspersed(Fields(ip));
    if gap.len == 0 {
      HexesFilled(ip);
      assert Hexes(ip) + [] == Hexes(ip);
      LeadingOf(Hexes(ip), []);
    } else {
      var a, b := ip[..gap.start], ip[gap.start + gap.len..];
      HexesFilled(a);
      HexesFilled(b);
      FieldsAroundGap(Hexes(a), Hexes(b));
      Refilled(ip, gap);
    }
  }

  lemma Refilled(ip: groups, gap: Run)
    requires Zeros(ip, gap.start, gap.len)
    ensures ip[..gap.start] + ZeroSeq(gap.len) + ip[gap.start + gap.len..] == ip
  {
  }

  lemma FieldsAroundGap(a: seq<seq<byte>>, b: seq<seq<byte>>)
    requires (forall i :: 0 <= i < |a| ==> a[i] != []) && (forall i :: 0 <= i < |b| ==> b[i] != [])
    ensures var f := OrEmpty(a) + [[]] + OrEmpty(b);
            && LeadingFilled(f) == |a| < |f| && TrailingFilled(f) == |b|
            && f[..|a|] == a && f[|f| - |b|..] == b
  {
    hide LeadingFilled, TrailingFilled;
    var f := OrEmpty(a) + [[]] + OrEmpty(b);
    assert f == a + f[|a|..];
    assert f == f[..|f| - |b|] + b;
    LeadingOf(a, f[|a|..]);
    TrailingOf(f[..|f| - |b|], b);
  }

  lemma HexLength(n: nat)
    ensures n < 16 ==> |Hex(n)| == 1
    ensures n < 256 ==> |Hex(n)| <= 2
    ensures n < 4096 ==> |Hex(n)| <= 3
    ensures n < 65536 ==> |Hex(n)| <= 4
  {
  }

  lemma {:induction false} JoinedLength(g: seq<group>)
    ensures |Joined(g)| <= if g == [] then 0 else 5 * |g| - 1
    decreases |g|
  {
    if g != [] {
      HexLength(g[|g| - 1]);
      JoinedLength(g[..|g| - 1]);
    }
  }

  /** The body is free of brackets and short enough for the buffers of the source. */
  lemma BodyShape(ip: groups)
    ensures |Body(ip)| <= 39 && CLOSING !in Body(ip)
  {
    var gap := Gap(ip);
    GapIsLeftmostLongest(ip);
    hide Gap, Joined;
    if gap.len == 0 {
      JoinedLength(ip);
      JoinedChars(ip);
    } else {
      JoinedLength(ip[..gap.start]);
      JoinedLength(ip[gap.start + gap.len..]);
      JoinedChars(ip[..gap.start]);
      JoinedChars(ip[gap.start + gap.len..]);
    }
  }

  lemma {:induction false} JoinedChars(g: seq<group>)
    ensures CLOSING !in Joined(g)
    decreases |g|
  {
    if |g| > 1 {
      JoinedChars(g[..|g| - 1]);
    }
  }
}
