/** The PCG generator of src/game/prng.cpp: the generator as a class, and the period of its state. */
module Prng {
  import opened Numbers

  const TWO64: nat := 0x1_0000_0000_0000_0000
  const MULTIPLIER: nat := 6364136223846793005

  type uint64 = x: nat | x < 0x1_0000_0000_0000_0000

  /** The state update, modulo 2^64. */
  function Next(state: uint64, increment: uint64): uint64 {
    (state * MULTIPLIER + increment) % TWO64
  }

  function Iterate(n: nat, state: uint64, increment: uint64): uint64 {
    if n == 0 then state else Next(Iterate(n - 1, state, increment), increment)
  }

  function RotateRight32(x: bv32, shift: bv32): bv32
    requires shift < 32
  {
    (x >> shift) | (x << ((0 - shift) & 31))
  }

  /** The 64-bit state after the xor with its own top bits. */
  function XorShift(x: bv64): bv64 { x ^ (x >> 18) }

  /** The top five bits. */
  function Top(x: bv64): bv32 { (x >> 59) as bv32 }

  /** Bits 27 to 58. */
  function Middle(u: bv64): bv32 { ((u >> 27) & 0xFFFF_FFFF) as bv32 }

  /** The low 27 bits. */
  function Low(u: bv64): bv64 { u & 0x7FF_FFFF }

  /** The output permutation: bits 27 to 58 of the xor-shifted state, rotated by the top five bits. */
  function Output(x: bv64): bv32 {
    RotateRight32(Middle(XorShift(x)), Top(x))
  }

  /** What `RandomBits` returns in state `x`. */
  function OutputOf(x: uint64): bv32 {
    Output(x as bv64)
  }

  class CPrng {
    var m_Seeded: bool
    var m_State: uint64
    var m_Increment: uint64

    constructor ()
      ensures !m_Seeded
    {
      m_Seeded := false;
    }

    method Seed(seed0: uint64, seed1: uint64)
      modifies this
      ensures m_Seeded && m_Increment % 2 == 1
      ensures m_Increment == (2 * seed1) % TWO64 + 1
      ensures m_State == Next((seed0 + m_Increment) % TWO64, m_Increment)
    {
      m_Seeded := true;
      // (seed1 << 1) | 1: the shift leaves bit 0 clear
      OddIncrement(seed1);
      m_Increment := (2 * seed1) % TWO64 + 1;
      m_State := (seed0 + m_Increment) % TWO64;
      var _ := RandomBits();
    }

    method RandomBits() returns (r: bv32)
      requires m_Seeded
      modifies this`m_State
      ensures m_State == Next(old(m_State), m_Increment)
      ensures r == OutputOf(old(m_State))
    {
      hide OutputOf;
      var x := m_State;
      m_State := (x * MULTIPLIER + m_Increment) % TWO64;
      r := OutputOf(x);
    }
  }

  lemma OddIncrement(seed1: uint64)
    ensures (2 * seed1) % TWO64 + 1 < TWO64 && ((2 * seed1) % TWO64 + 1) % 2 == 1
  {
  }

  // ---------------------------------------------------------------------------------------------
  // Powers, geometric sums and the exponent of two
  // ---------------------------------------------------------------------------------------------

  function Pow(a: nat, n: nat): nat { if n == 0 then 1 else a * Pow(a, n - 1) }

  /** 1 + a + ... + a^(n-1) */
  function Geo(a: nat, n: nat): nat { if n == 0 then 0 else 1 + a * Geo(a, n - 1) }

  /** The exponent of two in `n`. */
  function V2(n: nat): nat
    requires n > 0
  {
    if n % 2 == 1 then 0 else 1 + V2(n / 2)
  }

  lemma {:induction false} PowAsGeo(a: nat, n: nat)
    requires a >= 1
    ensures Pow(a, n) == 1 + (a - 1) * Geo(a, n)
  {
    if n > 0 {
      PowAsGeo(a, n - 1);
      PowAsGeoStep(a, a - 1, Geo(a, n - 1));
    }
  }

  lemma PowAsGeoStep(a: nat, b: nat, g: nat)
    requires a == b + 1
    ensures a * (1 + b * g) == 1 + b * (1 + a * g)
  {
    var p := b * g;
    assert b * (a * g) == a * p;
  }

  lemma {:induction false} GeoAdd(a: nat, m: nat, n: nat)
    ensures Geo(a, m + n) == Geo(a, m) + Pow(a, m) * Geo(a, n)
  {
    if m > 0 {
      GeoAdd(a, m - 1, n);
      GeoAddStep(a, Geo(a, m - 1), Pow(a, m - 1), Geo(a, n));
    }
  }

  lemma GeoAddStep(a: nat, g: nat, p: nat, h: nat)
    ensures 1 + a * (g + p * h) == (1 + a * g) + a * p * h
  {
    assert a * (p * h) == a * p * h;
  }

  lemma {:induction false} PowModFour(a: nat, n: nat)
    requires a % 4 == 1
    ensures Pow(a, n) % 4 == 1
  {
    if n > 0 {
      PowModFour(a, n - 1);
      ModFourTimes(a, Pow(a, n - 1));
    }
  }

  lemma ModFourTimes(u: nat, v: nat)
    requires u % 4 == 1 && v % 4 == 1
    ensures (u * v) % 4 == 1
  {
    var p := u / 4;
    assert u * v == 4 * (p * v) + v by { assert u == 4 * p + 1; }
  }

  lemma {:induction false} GeoParity(a: nat, n: nat)
    requires a % 2 == 1
    ensures Geo(a, n) % 2 == n % 2
  {
    if n > 0 {
      GeoParity(a, n - 1);
      ParityStep(a, Geo(a, n - 1), n - 1);
    }
  }

  lemma ParityStep(u: nat, v: nat, n: nat)
    requires u % 2 == 1 && v % 2 == n % 2
    ensures (1 + u * v) % 2 == (n + 1) % 2
  {
    OddTimes(u, v);
    SuccParity(u * v, n);
  }

  lemma SuccParity(t: nat, n: nat)
    requires t % 2 == n % 2
    ensures (1 + t) % 2 == (n + 1) % 2
  {
  }

  lemma OddTimes(u: nat, v: nat)
    requires u % 2 == 1
    ensures (u * v) % 2 == v % 2
  {
    var p := u / 2;
    assert u * v == 2 * (p * v) + v by { assert u == 2 * p + 1; }
  }

  lemma {:induction false} V2OddTimes(u: nat, v: nat)
    requires u % 2 == 1 && v > 0
    ensures u * v > 0 && V2(u * v) == V2(v)
  {
    OddTimes(u, v);
    if v % 2 == 0 {
      V2OddTimes(u, v / 2);
      assert u * v == 2 * (u * (v / 2));
    }
  }

  lemma V2OfDouble(x: nat, p: nat)
    requires p > 0 && x == 2 * p
    ensures V2(x) == 1 + V2(p)
  {
    assert x % 2 == 0 && x / 2 == p;
  }

  lemma DoubleProduct(h: nat, v: nat, u: nat)
    requires u == 2 * h
    ensures u * v == 2 * (h * v)
  {
    assert u * v == (h + h) * v;
  }

  lemma {:induction false} V2Times(u: nat, v: nat)
    requires u > 0 && v > 0
    ensures u * v > 0 && V2(u * v) == V2(u) + V2(v)
  {
    if u % 2 == 1 {
      V2OddTimes(u, v);
    } else {
      hide V2;
      var p := u / 2 * v;
      V2Times(u / 2, v);
      V2OfDouble(u, u / 2);
      DoubleProduct(u / 2, v, u);
      V2OfDouble(u * v, p);
    }
  }

  lemma GeoPositive(a: nat, n: nat)
    requires n > 0
    ensures Geo(a, n) > 0
  {
  }

  lemma OneMoreTimes(p: nat, g: nat)
    ensures g + p * g == (1 + p) * g
  {
  }

  lemma GeoDouble(a: nat, m: nat)
    ensures Geo(a, 2 * m) == (1 + Pow(a, m)) * Geo(a, m)
  {
    hide Pow, Geo;
    GeoAdd(a, m, m);
    OneMoreTimes(Pow(a, m), Geo(a, m));
  }

  lemma V2OfTwoModFour(x: nat)
    requires x % 4 == 2
    ensures V2(x) == 1
  {
    assert (x / 2) % 2 == 1;
  }

  /** Lifting the exponent: for a = 1 mod 4 the sum 1 + a + ... + a^(n-1) holds exactly the power of
      two that n holds. */
  lemma {:induction false} V2Geo(a: nat, n: nat)
    requires a % 4 == 1 && n > 0
    ensures Geo(a, n) > 0 && V2(Geo(a, n)) == V2(n)
  {
    GeoPositive(a, n);
    if n % 2 == 1 {
      GeoParity(a, n);
    } else {
      var m := n / 2;
      V2Geo(a, m);
      GeoDouble(a, m);
      PowModFour(a, m);
      V2DoubleOdd(Geo(a, n), Pow(a, m), Geo(a, m));
    }
  }

  lemma V2DoubleOdd(x: nat, p: nat, g: nat)
    requires x == (1 + p) * g && p % 4 == 1 && g > 0
    ensures x > 0 && V2(x) == 1 + V2(g)
  {
    V2OfTwoModFour(1 + p);
    V2Times(1 + p, g);
  }

  lemma {:induction false} DividesIffV2(k: nat, v: nat)
    requires v > 0
    ensures Pow2(k) > 0 && (v % Pow2(k) == 0 <==> V2(v) >= k)
  {
    if k > 0 {
      var m := Pow2(k - 1);
      if v % 2 == 0 {
        DividesIffV2(k - 1, v / 2);
        DoubleMod(v / 2, m);
      } else {
        DividesIffV2(k - 1, v);
        OddNotMultiple(v, m);
      }
    }
  }

  lemma OddNotMultiple(v: nat, m: nat)
    requires v % 2 == 1 && m > 0
    ensures v % (2 * m) != 0
  {
    var q, r := v / (2 * m), v % (2 * m);
    assert v == 2 * (m * q) + r;
  }

  lemma DoubleMod(w: nat, m: nat)
    requires m > 0
    ensures (2 * w) % (2 * m) == 0 <==> w % m == 0
  {
    if w % m == 0 {
      MultipleMod(w / m, 2 * m);
      assert 2 * w == (w / m) * (2 * m);
    }
    if (2 * w) % (2 * m) == 0 {
      var q := 2 * w / (2 * m);
      assert 2 * w == q * (2 * m) == 2 * (q * m);
      MultipleMod(q, m);
    }
  }

  lemma MultipleMod(q: nat, m: nat)
    requires m > 0
    ensures (q * m) % m == 0
  {
    ModUnique(q * m, q, 0, m);
  }

  lemma ModUnique(x: int, q: int, r: nat, m: nat)
    requires x == q * m + r && r < m
    ensures x % m == r
  {
    var d := x / m - q;
    assert x == (x / m) * m + x % m;
    assert d * m == r - x % m;
    if d != 0 {
      NonzeroMultiple(d, m);
    }
  }

  lemma NonzeroMultiple(d: int, m: int)
    requires 0 < m && d != 0
    ensures d * m >= m || d * m <= -m
  {
    if d >= 1 {
      assert d * m == m + (d - 1) * m;
    } else {
      assert -d * m == m + (-d - 1) * m;
    }
  }

  lemma Pow2Of64()
    ensures Pow2(64) == TWO64
  {
    assert Pow2(8) == 0x100;
    assert Pow2(16) == 0x1_0000;
    assert Pow2(24) == 0x100_0000;
    assert Pow2(32) == 0x1_0000_0000;
    assert Pow2(40) == 0x100_0000_0000;
    assert Pow2(48) == 0x1_0000_0000_0000;
    assert Pow2(56) == 0x100_0000_0000_0000;
  }

  // ---------------------------------------------------------------------------------------------
  // The period
  // ---------------------------------------------------------------------------------------------

  lemma ModTimesPlus(y: nat, u: nat, c: nat, m: nat)
    requires m > 0
    ensures ((y % m) * u + c) % m == (y * u + c) % m
  {
    var q, r := y / m, (y % m) * u + c;
    assert y * u + c == q * u * m + r by {
      assert y == q * m + y % m;
      assert (q * m) * u == q * u * m;
      assert (q * m + y % m) * u == (q * m) * u + (y % m) * u;
    }
    assert r == (r / m) * m + r % m;
    assert q * u * m + (r / m) * m == (q * u + r / m) * m;
    ModUnique(y * u + c, q * u + r / m, r % m, m);
  }

  lemma ClosedStep(p: nat, g: nat, x: nat, c: nat, a: nat)
    ensures (p * x + c * g) * a + c == a * p * x + c * (1 + a * g)
  {
    assert (p * x) * a == a * p * x;
    assert (c * g) * a == c * (a * g);
  }

  function Closed(p: nat, g: nat, x: nat, c: nat): uint64 {
    (p * x + c * g) % TWO64
  }

  lemma ClosedStart(x: uint64, c: nat)
    ensures Closed(1, 0, x, c) == x
  {
  }

  lemma ClosedNext(p: nat, g: nat, x: nat, c: uint64)
    ensures Next(Closed(p, g, x, c), c) == Closed(MULTIPLIER * p, 1 + MULTIPLIER * g, x, c)
  {
    ModTimesPlus(p * x + c * g, MULTIPLIER, c, TWO64);
    ClosedStep(p, g, x, c, MULTIPLIER);
  }

  lemma {:induction false} IterateIsClosed(n: nat, x: uint64, c: uint64)
    ensures Iterate(n, x, c) == Closed(Pow(MULTIPLIER, n), Geo(MULTIPLIER, n), x, c)
  {
    hide Closed, Next;
    if n == 0 {
      ClosedStart(x, c);
    } else {
      IterateIsClosed(n - 1, x, c);
      ClosedNext(Pow(MULTIPLIER, n - 1), Geo(MULTIPLIER, n - 1), x, c);
    }
  }

  /** The state after `n` draws in closed form. */
  lemma IterateClosed(n: nat, x: uint64, c: uint64)
    ensures Iterate(n, x, c) == (Pow(MULTIPLIER, n) * x + c * Geo(MULTIPLIER, n)) % TWO64
  {
    hide Iterate, Pow, Geo;
    IterateIsClosed(n, x, c);
  }

  /** What `n` draws add to the state, up to a multiple of 2^64: the geometric sum times an odd number. */
  lemma DriftForm(n: nat, x: nat, c: nat, a: nat)
    requires a >= 1
    ensures Pow(a, n) * x + c * Geo(a, n) == x + Geo(a, n) * ((a - 1) * x + c)
  {
    hide Pow, Geo;
    PowAsGeo(a, n);
    DriftTerms(Pow(a, n), a - 1, Geo(a, n), x, c);
  }

  lemma DriftTerms(p: nat, b: nat, g: nat, x: nat, c: nat)
    requires p == 1 + b * g
    ensures p * x + c * g == x + g * (b * x + c)
  {
    var q := b * g;
    assert p * x == x + q * x;
    assert q * x == g * (b * x);
    assert g * (b * x + c) == g * (b * x) + g * c;
  }

  lemma ReturnIffDividesDrift(x: nat, d: nat, m: nat)
    requires x < m
    ensures (x + d) % m == x <==> d % m == 0
  {
    if d % m == 0 {
      ModUnique(x + d, d / m, x, m);
    }
    if (x + d) % m == x {
      ModUnique(d, (x + d) / m, 0, m);
    }
  }

  lemma OddFactor(x: nat, c: nat, a: nat)
    requires a % 2 == 1 && c % 2 == 1
    ensures ((a - 1) * x + c) % 2 == 1
  {
    var h := (a - 1) / 2;
    assert (a - 1) * x == 2 * (h * x) by { assert a - 1 == 2 * h; }
  }

  lemma DriftDivides(n: nat, x: nat, c: nat, a: nat, k: nat)
    requires a % 4 == 1 && c % 2 == 1 && n > 0
    ensures Pow2(k) > 0 && ((Geo(a, n) * ((a - 1) * x + c)) % Pow2(k) == 0 <==> n % Pow2(k) == 0)
  {
    OddFactor(x, c, a);
    V2Geo(a, n);
    DividesLikeOddMultiple(Geo(a, n), (a - 1) * x + c, n, k);
  }

  lemma DividesLikeOddMultiple(g: nat, o: nat, n: nat, k: nat)
    requires g > 0 && n > 0 && V2(g) == V2(n) && o % 2 == 1
    ensures Pow2(k) > 0 && ((g * o) % Pow2(k) == 0 <==> n % Pow2(k) == 0)
  {
    V2OddTimes(o, g);
    assert g * o == o * g;
    DividesIffV2(k, g * o);
    DividesIffV2(k, n);
  }

  lemma Drift(n: nat, x: nat, c: nat, a: nat, k: nat) returns (d: nat)
    requires a % 4 == 1 && c % 2 == 1 && n > 0
    ensures Pow(a, n) * x + c * Geo(a, n) == x + d
    ensures Pow2(k) > 0 && (d % Pow2(k) == 0 <==> n % Pow2(k) == 0)
  {
    hide Pow, Geo, Pow2;
    d := Geo(a, n) * ((a - 1) * x + c);
    DriftForm(n, x, c, a);
    DriftDivides(n, x, c, a, k);
  }

  /** The state comes back to where it was exactly after every multiple of 2^64 draws. */
  lemma ReturnsIff(n: nat, x: uint64, c: uint64)
    requires n > 0 && c % 2 == 1
    ensures Iterate(n, x, c) == x <==> n % TWO64 == 0
  {
    IterateClosed(n, x, c);
    var d := Drift(n, x, c, MULTIPLIER, 64);
    Pow2Of64();
    ReturnIffDividesDrift(x, d, TWO64);
  }

  lemma {:induction false} IterateAdd(i: nat, j: nat, x: uint64, c: uint64)
    ensures Iterate(i + j, x, c) == Iterate(j, Iterate(i, x, c), c)
  {
    if j > 0 {
      IterateAdd(i, j - 1, x, c);
    }
  }

  /** Within one period no state occurs twice. */
  lemma StatesDistinct(i: nat, j: nat, x: uint64, c: uint64)
    requires i < j < TWO64 && c % 2 == 1
    ensures Iterate(i, x, c) != Iterate(j, x, c)
  {
    IterateAdd(i, j - i, x, c);
    assert i + (j - i) == j;
    NoEarlyReturn(j - i, Iterate(i, x, c), c);
  }

  lemma NoEarlyReturn(n: nat, x: uint64, c: uint64)
    requires 0 < n < TWO64 && c % 2 == 1
    ensures Iterate(n, x, c) != x
  {
    ReturnsIff(n, x, c);
    assert n % TWO64 == n;
  }

  /** The values of `f` below `n`. */
  ghost function Values(f: nat -> nat, n: nat): set<nat> {
    if n == 0 then {} else Values(f, n - 1) + {f(n - 1)}
  }

  lemma {:induction false} ValueOf(f: nat -> nat, n: nat, y: nat) returns (i: nat)
    requires y in Values(f, n)
    ensures i < n && f(i) == y
  {
    if y == f(n - 1) {
      i := n - 1;
    } else {
      i := ValueOf(f, n - 1, y);
    }
  }

  lemma {:induction false} ValuesSize(f: nat -> nat, n: nat)
    requires forall i: nat, j: nat :: i < j < n ==> f(i) != f(j)
    ensures |Values(f, n)| == n
  {
    if n > 0 {
      ValuesSize(f, n - 1);
      if f(n - 1) in Values(f, n - 1) {
        var i := ValueOf(f, n - 1, f(n - 1));
      }
    }
  }

  ghost function Below(n: nat): set<nat> {
    Values((i: nat) => i, n)
  }

  lemma {:induction false} BelowMember(n: nat, y: nat)
    ensures y in Below(n) <==> y < n
  {
    if n > 0 {
      BelowMember(n - 1, y);
    }
  }

  lemma SameSizeSubset(s: set<nat>, t: set<nat>)
    requires s <= t && |s| == |t|
    ensures s == t
  {
    assert |t - s| == |t| - |s|;
    assert t == s + (t - s);
  }

  /** An injection of the numbers below `n` into themselves is onto. */
  lemma Pigeonhole(f: nat -> nat, n: nat, y: nat) returns (i: nat)
    requires forall i: nat, j: nat :: i < j < n ==> f(i) != f(j)
    requires forall i: nat :: i < n ==> f(i) < n
    requires y < n
    ensures i < n && f(i) == y
  {
    ValuesSize(f, n);
    ValuesSize((i: nat) => i, n);
    forall z | z in Values(f, n) ensures z in Below(n) {
      var k := ValueOf(f, n, z);
      BelowMember(n, z);
    }
    SameSizeSubset(Values(f, n), Below(n));
    BelowMember(n, y);
    i := ValueOf(f, n, y);
  }

  /** Every 64-bit state is met within the first 2^64 draws, from any starting state. */
  lemma EveryStateVisited(x: uint64, c: uint64, y: uint64) returns (i: nat)
    requires c % 2 == 1
    ensures i < TWO64 && Iterate(i, x, c) == y
  {
    var f: nat -> nat := (n: nat) => Iterate(n, x, c);
    forall i: nat, j: nat | i < j < TWO64 ensures f(i) != f(j) {
      StatesDistinct(i, j, x, c);
    }
    i := Pigeonhole(f, TWO64, y);
  }

  /** Whatever the seed, the generator's state runs through all 2^64 values once before the first
      repetition, and 2^64 is its exact period. */
  lemma FullPeriod(seed0: uint64, seed1: uint64, n: nat, j: nat, y: uint64) returns (c: uint64, start: uint64, i: nat)
    requires n > 0 && j < TWO64
    ensures c == (2 * seed1) % TWO64 + 1 && start == Next((seed0 + c) % TWO64, c)
    ensures Iterate(n, start, c) == start <==> n % TWO64 == 0
    ensures i < TWO64 && Iterate(i, start, c) == y
    ensures Iterate(j, start, c) == y ==> i == j
  {
    OddIncrement(seed1);
    c := (2 * seed1) % TWO64 + 1;
    start := Next((seed0 + c) % TWO64, c);
    ReturnsIff(n, start, c);
    i := EveryStateVisited(start, c, y);
    if i < j {
      StatesDistinct(i, j, start, c);
    } else if j < i {
      StatesDistinct(j, i, start, c);
    }
  }

  // ---------------------------------------------------------------------------------------------
  // The output permutation
  // ---------------------------------------------------------------------------------------------

  /** Undoes `XorShift`. */
  function UnXorShift(y: bv64): bv64 { y ^ (y >> 18) ^ (y >> 36) ^ (y >> 54) }

  lemma UnXorShiftWord(x: bv64)
    ensures UnXorShift(x ^ (x >> 18)) == x
  {
  }

  lemma XorShiftInverse(x: bv64)
    ensures UnXorShift(XorShift(x)) == x
  {
    UnXorShiftWord(x);
  }

  /** The rotation that undoes another. */
  function Opposite(shift: bv32): (o: bv32)
    ensures o < 32
    ensures shift < 32 ==> (0 - o) & 31 == shift
  {
    (0 - shift) & 31
  }

  lemma OppositeIs(shift: bv32)
    requires shift < 32
    ensures Opposite(shift) == if shift == 0 then 0 else 32 - shift
  {
  }

  lemma NoRotation(x: bv32)
    ensures RotateRight32(x, 0) == x
  {
  }

  lemma RotateBack0(x: bv32, shift: bv32)
    requires 1 <= shift < 4
    ensures RotateRight32(RotateRight32(x, shift), 32 - shift) == x
  {
  }

  lemma RotateBack1(x: bv32, shift: bv32)
    requires 4 <= shift < 8
    ensures RotateRight32(RotateRight32(x, shift), 32 - shift) == x
  {
  }

  lemma RotateBack2(x: bv32, shift: bv32)
    requires 8 <= shift < 16
    ensures RotateRight32(RotateRight32(x, shift), 32 - shift) == x
  {
  }

  lemma RotateBack3(x: bv32, shift: bv32)
    requires 16 <= shift < 24
    ensures RotateRight32(RotateRight32(x, shift), 32 - shift) == x
  {
  }

  lemma RotateBack4(x: bv32, shift: bv32)
    requires 24 <= shift < 32
    ensures RotateRight32(RotateRight32(x, shift), 32 - shift) == x
  {
  }

  /** Rotating on by the opposite amount gives the word back. */
  lemma RotateBack(x: bv32, shift: bv32)
    requires shift < 32
    ensures RotateRight32(RotateRight32(x, shift), Opposite(shift)) == x
  {
    hide RotateRight32, Opposite;
    OppositeIs(shift);
    if shift == 0 {
      NoRotation(x);
    } else if shift < 4 {
      RotateBack0(x, shift);
    } else if shift < 8 {
      RotateBack1(x, shift);
    } else if shift < 16 {
      RotateBack2(x, shift);
    } else if shift < 24 {
      RotateBack3(x, shift);
    } else {
      RotateBack4(x, shift);
    }
  }

  lemma RotateInjective(a: bv32, b: bv32, shift: bv32)
    requires shift < 32 && RotateRight32(a, shift) == RotateRight32(b, shift)
    ensures a == b
  {
    hide RotateRight32;
    RotateBack(a, shift);
    RotateBack(b, shift);
  }

  /** The part of the state that an output does not show: the top five bits, which it only uses as a
      rotation, and the low 27 bits of the xor-shifted state. */
  function Hidden(x: bv64): (bv32, bv64) { (Top(x), Low(XorShift(x))) }

  /** Three bit fields make up a word. */
  lemma FieldsDetermineWord(u: bv64, v: bv64)
    requires Top(u) == Top(v) && Low(u) == Low(v)
    requires (u >> 27) & 0xFFFF_FFFF == (v >> 27) & 0xFFFF_FFFF
    ensures u == v
  {
  }

  lemma MiddleInjective(u: bv64, v: bv64)
    requires Middle(u) == Middle(v)
    ensures (u >> 27) & 0xFFFF_FFFF == (v >> 27) & 0xFFFF_FFFF
  {
  }

  lemma TopBitsKept(x: bv64)
    ensures Top(x) < 32 && Top(XorShift(x)) == Top(x)
  {
  }

  lemma XorShiftInjective(x: bv64, z: bv64)
    requires XorShift(x) == XorShift(z)
    ensures x == z
  {
    XorShiftInverse(x);
    XorShiftInverse(z);
  }

  lemma PartsDetermine(u: bv64, v: bv64, shift: bv32)
    requires shift < 32 && RotateRight32(Middle(u), shift) == RotateRight32(Middle(v), shift)
    requires Top(u) == Top(v) && Low(u) == Low(v)
    ensures u == v
  {
    RotateInjective(Middle(u), Middle(v), shift);
    MiddleInjective(u, v);
    FieldsDetermineWord(u, v);
  }

  lemma SameRotation(x: bv64, z: bv64)
    requires Output(x) == Output(z) && Top(x) == Top(z)
    ensures RotateRight32(Middle(XorShift(x)), Top(x)) == RotateRight32(Middle(XorShift(z)), Top(x))
  {
  }

  lemma SameXorShift(x: bv64, z: bv64)
    requires RotateRight32(Middle(XorShift(x)), Top(x)) == RotateRight32(Middle(XorShift(z)), Top(x))
    requires Hidden(x) == Hidden(z)
    ensures XorShift(x) == XorShift(z)
  {
    TopBitsKept(x);
    TopBitsKept(z);
    PartsDetermine(XorShift(x), XorShift(z), Top(x));
  }

  /** Output and hidden part, 32 bits each, together determine the state. */
  lemma OutputDeterminesState(x: bv64, z: bv64)
    requires Output(x) == Output(z) && Hidden(x) == Hidden(z)
    ensures x == z
  {
    SameRotation(x, z);
    SameXorShift(x, z);
    XorShiftInjective(x, z);
  }
}
