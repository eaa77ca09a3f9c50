/** How often the generator of src/game/prng.cpp returns each number within one period. */
module PrngOutput {
  import opened Numbers
  import opened Prng

  const TWO32: nat := 0x1_0000_0000

  // ---------------------------------------------------------------------------------------------
  // Numbers as words, byte by byte
  // ---------------------------------------------------------------------------------------------

  function Byte3(h: bv32): bv8 { (h >> 24) as bv8 }
  function Byte2(h: bv32): bv8 { ((h >> 16) & 0xFF) as bv8 }
  function Byte1(h: bv32): bv8 { ((h >> 8) & 0xFF) as bv8 }
  function Byte0(h: bv32): bv8 { (h & 0xFF) as bv8 }

  function Join(b3: bv8, b2: bv8, b1: bv8, b0: bv8): bv32 {
    (b3 as bv32 << 24) | (b2 as bv32 << 16) | (b1 as bv32 << 8) | b0 as bv32
  }

  lemma BytesOfJoin(b3: bv8, b2: bv8, b1: bv8, b0: bv8)
    ensures var h := Join(b3, b2, b1, b0);
            Byte3(h) == b3 && Byte2(h) == b2 && Byte1(h) == b1 && Byte0(h) == b0
  {
  }

  lemma JoinOfBytes(h: bv32)
    ensures Join(Byte3(h), Byte2(h), Byte1(h), Byte0(h)) == h
  {
  }

  /** The number whose last byte is `r` and whose other bytes make up `q`. */
  function Push(q: nat, r: nat): nat { q * 256 + r }

  lemma Popped(q: nat, r: nat)
    requires r < 256
    ensures Push(q, r) / 256 == q && Push(q, r) % 256 == r
  {
  }

  lemma PushedBack(k: nat)
    ensures Push(k / 256, k % 256) == k
  {
  }

  /** The number made up of four bytes. */
  function FromBytes(a: nat, b: nat, c: nat, d: nat): nat {
    Push(Push(Push(a, b), c), d)
  }

  lemma BelowTwo32(a: nat, b: nat, c: nat, d: nat)
    requires b < 256 && c < 256 && d < 256
    ensures FromBytes(a, b, c, d) < TWO32 <==> a < 256
  {
  }

  lemma BytesMakeNumber(k: nat)
    ensures FromBytes(k / 256 / 256 / 256, k / 256 / 256 % 256, k / 256 % 256, k % 256) == k
  {
    PushedBack(k);
    PushedBack(k / 256);
    PushedBack(k / 256 / 256);
    hide Push;
  }

  /** The word of a number below 2^32. */
  function Word(k: nat): bv32
    requires k < TWO32
  {
    BytesMakeNumber(k);
    BelowTwo32(k / 256 / 256 / 256, k / 256 / 256 % 256, k / 256 % 256, k % 256);
    Join(ToByte(k / 256 / 256 / 256), ToByte(k / 256 / 256 % 256), ToByte(k / 256 % 256), ToByte(k % 256))
  }

  /** The number of a word. */
  function NumberOf(h: bv32): (k: nat)
    ensures k < TWO32
  {
    ByteBelow(Byte3(h));
    ByteBelow(Byte2(h));
    ByteBelow(Byte1(h));
    ByteBelow(Byte0(h));
    BelowTwo32(Byte3(h) as nat, Byte2(h) as nat, Byte1(h) as nat, Byte0(h) as nat);
    FromBytes(Byte3(h) as nat, Byte2(h) as nat, Byte1(h) as nat, Byte0(h) as nat)
  }

  lemma ByteBelow(b: bv8)
    ensures b as nat < 256
  {
  }

  lemma NumberOfWord(k: nat)
    requires k < TWO32
    ensures NumberOf(Word(k)) == k
  {
    hide Join, ToByte, Byte0, Byte1, Byte2, Byte3, FromBytes;
    BytesMakeNumber(k);
    var a, b, c, d := k / 256 / 256 / 256, k / 256 / 256 % 256, k / 256 % 256, k % 256;
    BelowTwo32(a, b, c, d);
    BytesOfJoin(ToByte(a), ToByte(b), ToByte(c), ToByte(d));
    ByteBack(a);
    ByteBack(b);
    ByteBack(c);
    ByteBack(d);
  }

  lemma WordByte(b: bv8)
    ensures b as nat < 256 && ToByte(b as nat) == b
  {
    hide ToByte;
    ConvertedBack(b);
    ConvertedBack(ToByte(b as nat));
    ByteBack(b as nat);
  }

  lemma WordOfBytes(a: nat, b: nat, c: nat, d: nat)
    requires a < 256 && b < 256 && c < 256 && d < 256
    ensures FromBytes(a, b, c, d) < TWO32
    ensures Word(FromBytes(a, b, c, d)) == Join(ToByte(a), ToByte(b), ToByte(c), ToByte(d))
  {
    BelowTwo32(a, b, c, d);
    Popped(a, b);
    Popped(Push(a, b), c);
    Popped(Push(Push(a, b), c), d);
    hide Join, ToByte, Push;
  }

  lemma WordOfNumber(h: bv32)
    ensures Word(NumberOf(h)) == h
  {
    hide Join, ToByte, Byte0, Byte1, Byte2, Byte3, Word, FromBytes;
    ByteBelow(Byte3(h));
    ByteBelow(Byte2(h));
    ByteBelow(Byte1(h));
    ByteBelow(Byte0(h));
    WordOfBytes(Byte3(h) as nat, Byte2(h) as nat, Byte1(h) as nat, Byte0(h) as nat);
    WordByte(Byte3(h));
    WordByte(Byte2(h));
    WordByte(Byte1(h));
    WordByte(Byte0(h));
    JoinOfBytes(h);
  }

  function Join64(hi: bv32, lo: bv32): bv64 { (hi as bv64 << 32) | lo as bv64 }

  lemma Join64Injective(a: bv32, b: bv32, c: bv32, d: bv32)
    requires Join64(a, b) == Join64(c, d)
    ensures a == c && b == d
  {
  }

  /** The double word of a number below 2^64. */
  function DoubleWord(x: uint64): bv64 {
    Join64(Word(x / TWO32), Word(x % TWO32))
  }

  lemma DoubleWordInjective(x: uint64, y: uint64)
    requires DoubleWord(x) == DoubleWord(y)
    ensures x == y
  {
    hide Join64, Word;
    Join64Injective(Word(x / TWO32), Word(x % TWO32), Word(y / TWO32), Word(y % TWO32));
    NumberOfWord(x / TWO32);
    NumberOfWord(x % TWO32);
    NumberOfWord(y / TWO32);
    NumberOfWord(y % TWO32);
  }

  lemma WordBack(w: bv64)
    ensures w as nat < TWO64 && (w as nat) as bv64 == w
  {
  }

  /** Conversion to a word and back changes no number: both directions are injective, hence onto. */
  lemma NumberBack(x: uint64)
    ensures (x as bv64) as nat == x
  {
    hide DoubleWord;
    var f: nat -> nat := (n: nat) => if n < TWO64 then DoubleWord(n) as nat else 0;
    forall i: nat, j: nat | i < j < TWO64
      ensures f(i) != f(j)
    {
      WordBack(DoubleWord(i));
      WordBack(DoubleWord(j));
      if f(i) == f(j) {
        DoubleWordInjective(i, j);
      }
    }
    forall i: nat | i < TWO64
      ensures f(i) < TWO64
    {
      WordBack(DoubleWord(i));
    }
    var z := Pigeonhole(f, TWO64, x);
    WordBack(DoubleWord(z));
  }

  // ---------------------------------------------------------------------------------------------
  // The state with a given output
  // ---------------------------------------------------------------------------------------------

  /** The hidden bits of a state in one word: its top five bits and the low 27 of the xor-shifted state. */
  function HiddenWord(x: bv64): bv32 {
    HideIn(Top(x), Low(XorShift(x)))
  }

  function HideIn(top: bv32, low: bv64): bv32 {
    (top << 27) | (low & 0x7FF_FFFF) as bv32
  }

  /** The middle field that comes out as `r` when rotated by `shift`. */
  function Unrotated(r: bv32, shift: bv32): (m: bv32)
    requires shift < 32
    ensures RotateRight32(m, shift) == r
  {
    RotateBack(r, Opposite(shift));
    OppositeTwice(shift);
    RotateRight32(r, Opposite(shift))
  }

  lemma OppositeTwice(shift: bv32)
    requires shift < 32
    ensures Opposite(Opposite(shift)) == shift
  {
  }

  /** The xor-shifted state made up of its three fields. */
  function Compose(top: bv32, middle: bv32, low: bv64): bv64 {
    (top as bv64 << 59) | (middle as bv64 << 27) | (low & 0x7FF_FFFF)
  }

  lemma ComposeTop(top: bv32, middle: bv32, low: bv64)
    requires top < 32
    ensures Top(Compose(top, middle, low)) == top
  {
  }

  lemma ComposeMiddle(top: bv32, middle: bv32, low: bv64)
    requires top < 32
    ensures Middle(Compose(top, middle, low)) == middle
  {
  }

  lemma ComposeLow(top: bv32, middle: bv32, low: bv64)
    requires top < 32
    ensures Low(Compose(top, middle, low)) == low & 0x7FF_FFFF
  {
  }

  lemma HiddenFields(h: bv32)
    ensures h >> 27 < 32 && HideIn(h >> 27, (h & 0x7FF_FFFF) as bv64) == h
    ensures (h & 0x7FF_FFFF) as bv64 & 0x7FF_FFFF == (h & 0x7FF_FFFF) as bv64
  {
  }

  /** The state that returns `r` and hides `h`. */
  function StateOf(r: bv32, h: bv32): bv64 {
    HiddenFields(h);
    UnXorShift(Compose(h >> 27, Unrotated(r, h >> 27), (h & 0x7FF_FFFF) as bv64))
  }

  lemma ShiftBack(y: bv64)
    ensures XorShift(y ^ (y >> 18) ^ (y >> 36) ^ (y >> 54)) == y
  {
  }

  lemma XorShiftOfUn(y: bv64)
    ensures XorShift(UnXorShift(y)) == y
  {
    hide XorShift;
    ShiftBack(y);
  }

  lemma StateOfReturns(r: bv32, h: bv32)
    ensures Output(StateOf(r, h)) == r && HiddenWord(StateOf(r, h)) == h
  {
    HiddenFields(h);
    var top, low := h >> 27, (h & 0x7FF_FFFF) as bv64;
    hide UnXorShift, XorShift, Compose, Unrotated, RotateRight32, Top, Middle, Low, HideIn;
    var u := Compose(top, Unrotated(r, top), low);
    XorShiftOfUn(u);
    TopBitsKept(UnXorShift(u));
    ComposeTop(top, Unrotated(r, top), low);
    ComposeMiddle(top, Unrotated(r, top), low);
    ComposeLow(top, Unrotated(r, top), low);
  }

  lemma HideInInjective(t: bv32, l: bv64, u: bv32, m: bv64)
    requires t < 32 && u < 32 && l & 0x7FF_FFFF == l && m & 0x7FF_FFFF == m && HideIn(t, l) == HideIn(u, m)
    ensures t == u && l == m
  {
  }

  lemma LowBits(u: bv64)
    ensures Low(u) & 0x7FF_FFFF == Low(u)
  {
  }

  lemma OnlyStateOf(x: bv64)
    ensures StateOf(Output(x), HiddenWord(x)) == x
  {
    hide XorShift, Low, HideIn, StateOf, Output;
    var z := StateOf(Output(x), HiddenWord(x));
    StateOfReturns(Output(x), HiddenWord(x));
    TopBitsKept(x);
    TopBitsKept(z);
    LowBits(XorShift(x));
    LowBits(XorShift(z));
    hide Top;
    HideInInjective(Top(x), Low(XorShift(x)), Top(z), Low(XorShift(z)));
    OutputDeterminesState(x, z);
  }

  // ---------------------------------------------------------------------------------------------
  // Counting the draws
  // ---------------------------------------------------------------------------------------------

  /** The draws of one period, from state `x` on with increment `c`, that return `r`. */
  ghost function Draws(x: uint64, c: uint64, r: bv32): set<nat> {
    set j: nat | j < TWO64 && OutputOf(Iterate(j, x, c)) == r
  }

  ghost predicate IsDraw(x: uint64, c: uint64, y: uint64, j: nat) {
    j < TWO64 && Iterate(j, x, c) == y
  }

  /** The draw that finds the generator in state `y`. */
  ghost function DrawOf(x: uint64, c: uint64, y: uint64): (j: nat)
    requires c % 2 == 1
    ensures j < TWO64 && Iterate(j, x, c) == y
  {
    assert exists j: nat :: IsDraw(x, c, y, j) by {
      var i := EveryStateVisited(x, c, y);
      assert IsDraw(x, c, y, i);
    }
    var j: nat :| IsDraw(x, c, y, j);
    j
  }

  lemma SameDraw(x: uint64, c: uint64, i: nat, j: nat)
    requires c % 2 == 1 && i < TWO64 && j < TWO64 && Iterate(i, x, c) == Iterate(j, x, c)
    ensures i == j
  {
    if i < j {
      StatesDistinct(i, j, x, c);
    } else if j < i {
      StatesDistinct(j, i, x, c);
    }
  }

  /** The draw that returns `r` and hides the bits of the number `k`. */
  ghost function DrawFor(x: uint64, c: uint64, r: bv32, k: nat): (j: nat)
    requires c % 2 == 1 && k < TWO32
  {
    WordBack(StateOf(r, Word(k)));
    DrawOf(x, c, StateOf(r, Word(k)) as nat)
  }

  lemma DrawForReturns(x: uint64, c: uint64, r: bv32, k: nat)
    requires c % 2 == 1 && k < TWO32
    ensures DrawFor(x, c, r, k) in Draws(x, c, r)
  {
    hide StateOf, Word, HiddenWord, Output, Iterate;
    WordBack(StateOf(r, Word(k)));
    StateOfReturns(r, Word(k));
  }

  lemma DrawForInjective(x: uint64, c: uint64, r: bv32, i: nat, k: nat)
    requires c % 2 == 1 && i < TWO32 && k < TWO32 && DrawFor(x, c, r, i) == DrawFor(x, c, r, k)
    ensures i == k
  {
    hide Draws, StateOf, Word, HiddenWord, Output, Iterate;
    WordBack(StateOf(r, Word(i)));
    WordBack(StateOf(r, Word(k)));
    StateOfReturns(r, Word(i));
    StateOfReturns(r, Word(k));
    NumberOfWord(i);
    NumberOfWord(k);
  }

  /** Every draw that returns `r` is one of these. */
  lemma DrawForOnto(x: uint64, c: uint64, r: bv32, j: nat) returns (k: nat)
    requires c % 2 == 1 && j in Draws(x, c, r)
    ensures k < TWO32 && DrawFor(x, c, r, k) == j
  {
    var y := Iterate(j, x, c);
    var w := y as bv64;
    hide StateOf, Word, HiddenWord, Output, NumberOf;
    NumberBack(y);
    OnlyStateOf(w);
    k := NumberOf(HiddenWord(w));
    WordOfNumber(HiddenWord(w));
    SameDraw(x, c, j, DrawOf(x, c, y));
  }

  /** Within one period every 32-bit number is returned exactly 2^32 times. */
  lemma EveryOutputEquallyOften(x: uint64, c: uint64, r: bv32)
    requires c % 2 == 1
    ensures |Draws(x, c, r)| == TWO32
  {
    hide Draws, DrawFor, Values;
    var f: nat -> nat := (k: nat) => if k < TWO32 then DrawFor(x, c, r, k) else 0;
    forall i: nat, k: nat | i < k < TWO32
      ensures f(i) != f(k)
    {
      if f(i) == f(k) {
        DrawForInjective(x, c, r, i, k);
      }
    }
    forall j | j in Draws(x, c, r)
      ensures j in Values(f, TWO32)
    {
      var k := DrawForOnto(x, c, r, j);
      ValueIn(f, TWO32, k);
    }
    forall j | j in Values(f, TWO32)
      ensures j in Draws(x, c, r)
    {
      var k := ValueOf(f, TWO32, j);
      DrawForReturns(x, c, r, k);
    }
    SetSize(f, TWO32, Draws(x, c, r));
  }

  lemma SetSize(f: nat -> nat, n: nat, s: set<nat>)
    requires forall i: nat, k: nat :: i < k < n ==> f(i) != f(k)
    requires forall j :: j in s <==> j in Values(f, n)
    ensures |s| == n
  {
    hide Values;
    ValuesSize(f, n);
    assert s == Values(f, n);
  }

  lemma {:induction false} ValueIn(f: nat -> nat, n: nat, i: nat)
    requires i < n
    ensures f(i) in Values(f, n)
  {
    if i < n - 1 {
      ValueIn(f, n - 1, i);
    }
  }

  /** `n` calls of `RandomBits`, one after the other: what `Iterate`, `Draws` and the period speak of. */
  method DrawMany(g: CPrng, n: nat) returns (out: seq<bv32>)
    requires g.m_Seeded
    modifies g`m_State
    ensures g.m_State == Iterate(n, old(g.m_State), g.m_Increment)
    ensures |out| == n && forall k: nat :: k < n ==> out[k] == OutputOf(Iterate(k, old(g.m_State), g.m_Increment))
  {
    hide OutputOf, Next;
    out := [];
    while |out| < n
      invariant |out| <= n && g.m_State == Iterate(|out|, old(g.m_State), g.m_Increment)
      invariant forall k: nat :: k < |out| ==> out[k] == OutputOf(Iterate(k, old(g.m_State), g.m_Increment))
    {
      var r := g.RandomBits();
      out := out + [r];
    }
  }

  // ---------------------------------------------------------------------------------------------
  // The numbers of the generator's reference implementation
  // ---------------------------------------------------------------------------------------------

  const DEMO_STATES: seq<nat> := [
    0x185706b82c2e03f8, 0x2b47fed88766bb05, 0x8b33296d19bf5b4e,
    0xf7079824c154bf23, 0xebbf9e97aa16f694, 0x8303569fbe80c471]

  const DEMO: seq<bv32> := [0xa15c02b7, 0x7b47f409, 0xba1d3330, 0x83d2f293, 0xbfa4784b, 0xcbed606e]

  lemma DemoState(k: nat)
    requires k < 6
    ensures DEMO_STATES[k] < TWO64 && Iterate(k, DEMO_STATES[0], 109) == DEMO_STATES[k]
  {
    if k > 0 {
      DemoState(k - 1);
      DemoStep(k - 1);
      hide Next;
    }
  }

  lemma DemoStep(k: nat)
    requires k < 5
    ensures DEMO_STATES[k] < TWO64 && Next(DEMO_STATES[k], 109) == DEMO_STATES[k + 1]
  {
    assert Next(0x185706b82c2e03f8, 109) == 0x2b47fed88766bb05;
    assert Next(0x2b47fed88766bb05, 109) == 0x8b33296d19bf5b4e;
    assert Next(0x8b33296d19bf5b4e, 109) == 0xf7079824c154bf23;
    assert Next(0xf7079824c154bf23, 109) == 0xebbf9e97aa16f694;
    assert Next(0xebbf9e97aa16f694, 109) == 0x8303569fbe80c471;
  }

  lemma DemoOutput0(k: nat)
    requires k < 2
    ensures DEMO_STATES[k] < TWO64 && OutputOf(DEMO_STATES[k]) == DEMO[k]
  {
    assert OutputOf(0x185706b82c2e03f8) == 0xa15c02b7;
    assert OutputOf(0x2b47fed88766bb05) == 0x7b47f409;
  }

  lemma DemoOutput1(k: nat)
    requires 2 <= k < 4
    ensures DEMO_STATES[k] < TWO64 && OutputOf(DEMO_STATES[k]) == DEMO[k]
  {
    assert OutputOf(0x8b33296d19bf5b4e) == 0xba1d3330;
    assert OutputOf(0xf7079824c154bf23) == 0x83d2f293;
  }

  lemma DemoOutput2(k: nat)
    requires 4 <= k < 6
    ensures DEMO_STATES[k] < TWO64 && OutputOf(DEMO_STATES[k]) == DEMO[k]
  {
    assert OutputOf(0xebbf9e97aa16f694) == 0xbfa4784b;
    assert OutputOf(0x8303569fbe80c471) == 0xcbed606e;
  }

  lemma DemoOutput(k: nat)
    requires k < 6
    ensures DEMO_STATES[k] < TWO64 && OutputOf(DEMO_STATES[k]) == DEMO[k]
  {
    hide OutputOf;
    if k < 2 {
      DemoOutput0(k);
    } else if k < 4 {
      DemoOutput1(k);
    } else {
      DemoOutput2(k);
    }
  }

  /** Seeded with 42 and 54 the generator returns the numbers of its reference implementation. */
  method DemoNumbers() returns (out: seq<bv32>)
    ensures out == [0xa15c02b7, 0x7b47f409, 0xba1d3330, 0x83d2f293, 0xbfa4784b, 0xcbed606e]
  {
    hide Next, OutputOf;
    var g := new CPrng();
    g.Seed(42, 54);
    DemoSeed();
    assert g.m_State == DEMO_STATES[0] && g.m_Increment == 109;
    out := DrawMany(g, 6);
    forall k: nat | k < 6
      ensures out[k] == DEMO[k]
    {
      DemoState(k);
      DemoOutput(k);
    }
    assert out == DEMO;
  }

  lemma DemoSeed()
    ensures (2 * 54) % TWO64 + 1 == 109 && (42 + 109) % TWO64 == 151 && Next(151, 109) == DEMO_STATES[0]
  {
  }
}
