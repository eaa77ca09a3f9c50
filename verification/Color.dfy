/** Colour spaces: the conversions of src/base/color.h over exact reals. */
module Color {
  import opened Numbers

  datatype Rgba = Rgba(r: real, g: real, b: real, a: real)
  datatype Hsla = Hsla(h: real, s: real, l: real, a: real)
  datatype Hsva = Hsva(h: real, s: real, v: real, a: real)

  function Min(a: real, b: real): real { if a < b then a else b }
  function Max(a: real, b: real): real { if a > b then a else b }

  function Min3(a: real, b: real, c: real): real { Min(Min(a, b), c) }
  function Max3(a: real, b: real, c: real): real { Max(Max(a, b), c) }

  predicate InUnit(x: real) { 0.0 <= x <= 1.0 }

  predicate UnitRgb(c: Rgba) { InUnit(c.r) && InUnit(c.g) && InUnit(c.b) }

  /** `fmod(f, 2)`: the remainder has the sign of `f`. */
  function Mod2(f: real): real {
    if f >= 0.0 then f - 2.0 * (f / 2.0).Floor as real else -(-f - 2.0 * (-f / 2.0).Floor as real)
  }

  // ---------------------------------------------------------------------------------------------
  // The conversions
  // ---------------------------------------------------------------------------------------------

  /** The hue on a scale from 0 to 6. */
  function HueSixths(r: real, g: real, b: real): real {
    var min, max := Min3(r, g, b), Max3(r, g, b);
    if max == min then 0.0
    else
      var c := max - min;
      if max == r then (g - b) / c + (if g < b then 6.0 else 0.0)
      else if max == g then (b - r) / c + 2.0
      else (r - g) / c + 4.0
  }

  function RgbToHue(r: real, g: real, b: real): real {
    HueSixths(r, g, b) / 6.0
  }

  /** The largest chroma a colour of lightness `l` can have. */
  function Width(l: real): real {
    1.0 - Abs(2.0 * l - 1.0)
  }

  lemma WidthPositive(min: real, max: real)
    requires 0.0 <= min <= max <= 1.0 && max != 0.0 && min != 1.0
    ensures Width(0.5 * (max + min)) > 0.0
  {
  }

  function Saturation(min: real, max: real): real
    requires 0.0 <= min <= max <= 1.0
  {
    if max != 0.0 && min != 1.0 then
      WidthPositive(min, max);
      (max - min) / Width(0.5 * (max + min))
    else 0.0
  }

  lemma ExtremesInUnit(c: Rgba)
    requires UnitRgb(c)
    ensures 0.0 <= Min3(c.r, c.g, c.b) <= Max3(c.r, c.g, c.b) <= 1.0
  {
  }

  function RgbaToHsla(c: Rgba): Hsla
    requires UnitRgb(c)
  {
    var min, max := Min3(c.r, c.g, c.b), Max3(c.r, c.g, c.b);
    ExtremesInUnit(c);
    Hsla(RgbToHue(c.r, c.g, c.b), Saturation(min, max), 0.5 * (max + min), c.a)
  }

  /** The switch of the HSL to RGB conversion; alpha is filled in later. */
  function Sector(n: int, c: real, x: real): Rgba {
    if n == 0 then Rgba(c, x, 0.0, 0.0)
    else if n == 1 then Rgba(x, c, 0.0, 0.0)
    else if n == 2 then Rgba(0.0, c, x, 0.0)
    else if n == 3 then Rgba(0.0, x, c, 0.0)
    else if n == 4 then Rgba(x, 0.0, c, 0.0)
    else if n == 5 || n == 6 then Rgba(c, 0.0, x, 0.0)
    else Rgba(0.0, 0.0, 0.0, 0.0)
  }

  function Part(c: real, w: real): real {
    c * w
  }

  function Hexagon(h1: real, c: real): Rgba {
    Sector(Truncate(h1), c, Part(c, 1.0 - Abs(Mod2(h1) - 1.0)))
  }

  function Lifted(c: Rgba, m: real, a: real): Rgba {
    Rgba(c.r + m, c.g + m, c.b + m, a)
  }

  function ChromaAt(l: real, s: real): real {
    Times(Width(l), s)
  }

  function Times(w: real, s: real): real { w * s }

  function Chroma(hsl: Hsla): real {
    ChromaAt(hsl.l, hsl.s)
  }

  function HslaToRgba(hsl: Hsla): Rgba {
    var c := Chroma(hsl);
    Lifted(Hexagon(hsl.h * 6.0, c), hsl.l - c / 2.0, hsl.a)
  }

  function HsvaToHsla(hsv: Hsva): Hsla {
    var l := hsv.v * (1.0 - hsv.s * 0.5);
    Hsla(hsv.h, if l == 0.0 || l == 1.0 then 0.0 else (hsv.v - l) / Min(l, 1.0 - l), l, hsv.a)
  }

  function HslaToHsva(hsl: Hsla): Hsva {
    var v := hsl.l + hsl.s * Min(hsl.l, 1.0 - hsl.l);
    Hsva(hsl.h, if v == 0.0 then 0.0 else 2.0 - 2.0 * hsl.l / v, v, hsl.a)
  }

  function HsvaToRgba(hsv: Hsva): Rgba { HslaToRgba(HsvaToHsla(hsv)) }

  function RgbaToHsva(c: Rgba): Hsva
    requires UnitRgb(c)
  {
    HslaToHsva(RgbaToHsla(c))
  }

  // ---------------------------------------------------------------------------------------------
  // One sector of the colour hexagon
  // ---------------------------------------------------------------------------------------------

  lemma Cancel(d: real, c: real)
    requires c != 0.0
    ensures d / c * c == d && c * (d / c) == d
  {
  }

  lemma CancelProduct(c: real, t: real)
    requires c != 0.0
    ensures c * t / c == t && t * c / c == t
  {
  }

  lemma ShareInRange(d: real, c: real)
    requires c > 0.0 && 0.0 <= d < c
    ensures 0.0 <= d / c < 1.0
  {
    Cancel(d, c);
    FactorInRange(d / c, c, d);
  }

  lemma FactorInRange(q: real, c: real, d: real)
    requires c > 0.0 && 0.0 <= d < c && d == q * c
    ensures 0.0 <= q < 1.0
  {
    if q >= 1.0 {
      ProductAtLeast(q, c);
    }
  }

  lemma ProductAtLeast(q: real, c: real)
    requires q >= 1.0 && c > 0.0
    ensures q * c >= c
  {
    var p := (q - 1.0) * c;
    assert p >= 0.0;
  }

  /** The second largest component, seen from the smallest, at `t` of the way through sector `k`. */
  function Middle(k: int, t: real, c: real): real {
    Part(c, if k % 2 == 0 then t else 1.0 - t)
  }

  lemma SectorOfHue(k: int, t: real)
    requires 0 <= k <= 5 && 0.0 <= t < 1.0
    ensures Truncate(k as real + t) == k
    ensures 1.0 - Abs(Mod2(k as real + t) - 1.0) == if k % 2 == 0 then t else 1.0 - t
  {
    var h := k as real + t;
    assert h.Floor == k;
    assert (h / 2.0).Floor == k / 2;
  }

  lemma HexagonAt(k: int, t: real, c: real)
    requires 0 <= k <= 5 && 0.0 <= t < 1.0
    ensures Hexagon(k as real + t, c) == Sector(k, c, Middle(k, t, c))
  {
    hide Sector, Truncate, Mod2, Abs, Part;
    SectorOfHue(k, t);
  }

  lemma MiddleOf(k: int, d: real, c: real)
    requires c > 0.0 && 0.0 <= d < c && k % 2 == 0
    ensures Middle(k, d / c, c) == d
  {
    Cancel(d, c);
  }

  lemma MiddleOfOdd(k: int, d: real, c: real)
    requires c > 0.0 && 0.0 < d <= c && k % 2 == 1
    ensures 0.0 <= 1.0 - d / c < 1.0 && Middle(k, 1.0 - d / c, c) == d
  {
    Cancel(d, c);
  }

  /** Where a colour that is not grey lies on the hexagon. */
  lemma HueLocates(r: real, g: real, b: real) returns (k: int, t: real)
    requires Min3(r, g, b) != Max3(r, g, b)
    ensures 0 <= k <= 5 && 0.0 <= t < 1.0 && HueSixths(r, g, b) == k as real + t
    ensures var min, max := Min3(r, g, b), Max3(r, g, b);
            Lifted(Sector(k, max - min, Middle(k, t, max - min)), min, 0.0) == Rgba(r, g, b, 0.0)
  {
    hide Middle;
    var c := Max3(r, g, b) - Min3(r, g, b);
    if r >= g && r >= b {
      k, t := RedLocates(r, g, b, c);
    } else if g >= b {
      k, t := GreenLocates(r, g, b, c);
    } else {
      k, t := BlueLocates(r, g, b, c);
    }
  }

  lemma RedLocates(r: real, g: real, b: real, c: real) returns (k: int, t: real)
    requires r >= g && r >= b && c == r - Min3(r, g, b) && c > 0.0
    ensures k in {0, 1, 5} && 0.0 <= t < 1.0
    ensures (g - b) / c + (if g < b then 6.0 else 0.0) == k as real + t
    ensures Lifted(Sector(k, c, Middle(k, t, c)), r - c, 0.0) == Rgba(r, g, b, 0.0)
  {
    hide Middle;
    var d := Abs(g - b);
    Cancel(d, c);
    Negate(d, c);
    if g < b {
      k, t := 5, 1.0 - d / c;
      MiddleOfOdd(5, d, c);
    } else if d == c {
      k, t := 1, 0.0;
      WholeShare(c);
    } else {
      k, t := 0, d / c;
      ShareInRange(d, c);
      MiddleOf(0, d, c);
    }
  }

  lemma GreenLocates(r: real, g: real, b: real, c: real) returns (k: int, t: real)
    requires g > r && g >= b && c == g - Min3(r, g, b) && c > 0.0
    ensures k in {1, 2, 3} && 0.0 <= t < 1.0
    ensures (b - r) / c + 2.0 == k as real + t
    ensures Lifted(Sector(k, c, Middle(k, t, c)), g - c, 0.0) == Rgba(r, g, b, 0.0)
  {
    hide Middle;
    var d := Abs(b - r);
    Cancel(d, c);
    Negate(d, c);
    if b < r {
      k, t := 1, 1.0 - d / c;
      MiddleOfOdd(1, d, c);
    } else if d == c {
      k, t := 3, 0.0;
      WholeShare(c);
    } else {
      k, t := 2, d / c;
      ShareInRange(d, c);
      MiddleOf(2, d, c);
    }
  }

  lemma BlueLocates(r: real, g: real, b: real, c: real) returns (k: int, t: real)
    requires b > r && b > g && c == b - Min3(r, g, b) && c > 0.0
    ensures k in {3, 4} && 0.0 <= t < 1.0
    ensures (r - g) / c + 4.0 == k as real + t
    ensures Lifted(Sector(k, c, Middle(k, t, c)), b - c, 0.0) == Rgba(r, g, b, 0.0)
  {
    hide Middle;
    var d := Abs(r - g);
    Cancel(d, c);
    Negate(d, c);
    if r < g {
      k, t := 3, 1.0 - d / c;
      MiddleOfOdd(3, d, c);
    } else {
      k, t := 4, d / c;
      ShareInRange(d, c);
      MiddleOf(4, d, c);
    }
  }

  lemma Negate(d: real, c: real)
    requires c > 0.0
    ensures -d / c == -(d / c)
  {
  }

  lemma WholeShare(c: real)
    requires c > 0.0
    ensures c / c == 1.0 && Middle(1, 0.0, c) == c && Middle(3, 0.0, c) == c
  {
  }

  // ---------------------------------------------------------------------------------------------
  // Back and forth between RGB and HSL
  // ---------------------------------------------------------------------------------------------

  lemma SaturationTimesWidth(min: real, max: real)
    requires 0.0 <= min <= max <= 1.0
    ensures ChromaAt(0.5 * (max + min), Saturation(min, max)) == max - min
  {
    if max != 0.0 && min != 1.0 {
      WidthPositive(min, max);
      Cancel(max - min, Width(0.5 * (max + min)));
    }
  }

  /** The chroma that the way back computes is the spread of the components. */
  lemma ChromaKept(c: Rgba)
    requires UnitRgb(c)
    ensures var min, max := Min3(c.r, c.g, c.b), Max3(c.r, c.g, c.b);
            Chroma(RgbaToHsla(c)) == max - min
  {
    ExtremesInUnit(c);
    hide RgbToHue, ChromaAt, Min3, Max3, Saturation;
    SaturationTimesWidth(Min3(c.r, c.g, c.b), Max3(c.r, c.g, c.b));
  }

  lemma SixSixths(h: real)
    ensures h / 6.0 * 6.0 == h
  {
  }

  lemma GreyHexagon(r: real, g: real, b: real)
    requires Min3(r, g, b) == Max3(r, g, b)
    ensures Lifted(Hexagon(HueSixths(r, g, b), 0.0), Min3(r, g, b), 0.0) == Rgba(r, g, b, 0.0)
  {
  }

  /** The hexagon point of a colour's own hue, lifted by its smallest component, is the colour. */
  lemma HexagonOfHue(r: real, g: real, b: real, min: real, c: real)
    requires min == Min3(r, g, b) && c == Max3(r, g, b) - min
    ensures Lifted(Hexagon(HueSixths(r, g, b), c), min, 0.0) == Rgba(r, g, b, 0.0)
  {
    hide Hexagon, HueSixths, Sector, Middle, Lifted, Min3, Max3;
    if c == 0.0 {
      GreyHexagon(r, g, b);
    } else {
      var k, t := HueLocates(r, g, b);
      HexagonAt(k, t, c);
    }
  }

  lemma LiftKept(hsl: Hsla, c: Rgba, min: real, max: real)
    requires hsl.a == c.a && hsl.l == 0.5 * (max + min) && Chroma(hsl) == max - min
    requires hsl.h * 6.0 == HueSixths(c.r, c.g, c.b)
    requires Lifted(Hexagon(HueSixths(c.r, c.g, c.b), max - min), min, 0.0) == Rgba(c.r, c.g, c.b, 0.0)
    ensures HslaToRgba(hsl) == c
  {
    hide Hexagon, HueSixths, Chroma;
  }

  lemma HslFields(c: Rgba)
    requires UnitRgb(c)
    ensures var hsl := RgbaToHsla(c);
            && hsl.a == c.a && hsl.l == 0.5 * (Max3(c.r, c.g, c.b) + Min3(c.r, c.g, c.b))
            && hsl.h * 6.0 == HueSixths(c.r, c.g, c.b)
  {
    hide HueSixths, Width;
    SixSixths(HueSixths(c.r, c.g, c.b));
  }

  /** RGB to HSL to RGB changes nothing on the unit cube, sector borders, greys, black and white included. */
  lemma RgbHslRgb(c: Rgba)
    requires UnitRgb(c)
    ensures HslaToRgba(RgbaToHsla(c)) == c
  {
    hide HslaToRgba, RgbaToHsla, Hexagon, HueSixths, Chroma, Lifted, UnitRgb, Min3, Max3;
    var min, max := Min3(c.r, c.g, c.b), Max3(c.r, c.g, c.b);
    ChromaKept(c);
    HslFields(c);
    HexagonOfHue(c.r, c.g, c.b, min, max - min);
    LiftKept(RgbaToHsla(c), c, min, max);
  }

  /** HSL values that stand for themselves: colours without a hue have hue 0, black and white saturation 0. */
  predicate Canonical(hsl: Hsla) {
    && 0.0 <= hsl.h < 1.0 && InUnit(hsl.s) && InUnit(hsl.l)
    && (hsl.l == 0.0 || hsl.l == 1.0 ==> hsl.s == 0.0)
    && (hsl.s == 0.0 ==> hsl.h == 0.0)
  }

  lemma HueInRange(r: real, g: real, b: real)
    ensures 0.0 <= RgbToHue(r, g, b) < 1.0
    ensures Min3(r, g, b) == Max3(r, g, b) ==> RgbToHue(r, g, b) == 0.0
  {
    if Min3(r, g, b) != Max3(r, g, b) {
      hide HueSixths;
      var k, t := HueLocates(r, g, b);
    }
  }

  lemma QuotientAtMostOne(d: real, c: real)
    requires c > 0.0 && 0.0 <= d <= c
    ensures 0.0 <= d / c <= 1.0 && (d / c == 0.0 ==> d == 0.0)
  {
    Cancel(d, c);
    if d != c {
      FactorInRange(d / c, c, d);
    }
  }

  /** Every colour of the unit cube becomes a canonical HSL value. */
  lemma HslOfRgbCanonical(c: Rgba)
    requires UnitRgb(c)
    ensures Canonical(RgbaToHsla(c))
  {
    hide RgbToHue;
    var min, max := Min3(c.r, c.g, c.b), Max3(c.r, c.g, c.b);
    var l := 0.5 * (max + min);
    HueInRange(c.r, c.g, c.b);
    if max != 0.0 && min != 1.0 {
      WidthPositive(min, max);
      QuotientAtMostOne(max - min, Width(l));
    }
  }

  /** The hue of a point in sector `k` of the hexagon. */
  lemma SectorHue(k: int, t: real, c: real, m: real)
    requires 0 <= k <= 5 && 0.0 <= t < 1.0 && c > 0.0
    ensures var p := Lifted(Sector(k, c, Middle(k, t, c)), m, 0.0);
            && HueSixths(p.r, p.g, p.b) == k as real + t
            && Min3(p.r, p.g, p.b) == m && Max3(p.r, p.g, p.b) == m + c
  {
    var x := Middle(k, t, c);
    MiddleInRange(k, t, c);
    MiddleShare(k, t, c);
    hide Middle;
    SectorHueOf(k, t, c, m, x);
  }

  lemma MiddleInRange(k: int, t: real, c: real)
    requires 0.0 <= t < 1.0 && c > 0.0
    ensures 0.0 <= Middle(k, t, c) <= c
  {
    hide Part;
    PartInRange(c, if k % 2 == 0 then t else 1.0 - t);
  }

  lemma PartInRange(c: real, w: real)
    requires c >= 0.0 && InUnit(w)
    ensures 0.0 <= Part(c, w) <= c
  {
    ProductInRange(c, w);
  }

  lemma MiddleShare(k: int, t: real, c: real)
    requires c > 0.0
    ensures Middle(k, t, c) / c == if k % 2 == 0 then t else 1.0 - t
  {
    CancelProduct(c, t);
    CancelProduct(c, 1.0 - t);
  }

  lemma SectorHueOf(k: int, t: real, c: real, m: real, x: real)
    requires 0 <= k <= 5 && 0.0 <= t < 1.0 && c > 0.0 && 0.0 <= x <= c
    requires x / c == if k % 2 == 0 then t else 1.0 - t
    ensures var p := Lifted(Sector(k, c, x), m, 0.0);
            && HueSixths(p.r, p.g, p.b) == k as real + t
            && Min3(p.r, p.g, p.b) == m && Max3(p.r, p.g, p.b) == m + c
  {
    Negate(x, c);
    WholeShare(c);
    var p := Lifted(Sector(k, c, x), m, 0.0);
    assert Min3(p.r, p.g, p.b) == m && Max3(p.r, p.g, p.b) == m + c;
  }

  lemma Halves(l: real, c: real)
    requires 0.0 <= l <= 1.0 && 0.0 <= c <= Width(l)
    ensures var min := l - c / 2.0;
            && 0.0 <= min <= min + c <= 1.0 && 0.5 * (min + c + min) == l
            && (c > 0.0 ==> min + c != 0.0 && min != 1.0)
            && (c == 0.0 && 0.0 < l < 1.0 ==> min + c != 0.0 && min != 1.0)
  {
  }

  lemma ChromaInRange(hsl: Hsla)
    requires InUnit(hsl.s) && InUnit(hsl.l)
    ensures 0.0 <= Chroma(hsl) <= Width(hsl.l)
    ensures Chroma(hsl) == 0.0 <==> (hsl.s == 0.0 || hsl.l == 0.0 || hsl.l == 1.0)
  {
    hide Width, Times;
    WidthInRange(hsl.l);
    ProductInRange(Width(hsl.l), hsl.s);
  }

  lemma WidthInRange(l: real)
    requires InUnit(l)
    ensures Width(l) >= 0.0 && (Width(l) == 0.0 <==> l == 0.0 || l == 1.0)
  {
  }

  lemma ProductInRange(w: real, s: real)
    requires w >= 0.0 && InUnit(s)
    ensures 0.0 <= Times(w, s) <= w
    ensures Times(w, s) == 0.0 <==> (w == 0.0 || s == 0.0)
  {
    var u := 1.0 - s;
    var p := w * u;
    assert p >= 0.0 && p == w - w * s;
  }

  /** Where a hue below 1 lies on the hexagon. */
  lemma HueSector(h: real) returns (k: int, t: real)
    requires 0.0 <= h < 1.0
    ensures 0 <= k <= 5 && 0.0 <= t < 1.0 && h * 6.0 == k as real + t
  {
    var f := h * 6.0;
    k := f.Floor;
    t := f - k as real;
  }

  /** A colour with a hue, described by its extreme components. */
  lemma ColourOfHsl(hsl: Hsla)
    requires Canonical(hsl) && hsl.s > 0.0
    ensures var p := HslaToRgba(hsl);
            && HueSixths(p.r, p.g, p.b) == hsl.h * 6.0 && p.a == hsl.a
            && Min3(p.r, p.g, p.b) == hsl.l - Chroma(hsl) / 2.0
            && Max3(p.r, p.g, p.b) == hsl.l - Chroma(hsl) / 2.0 + Chroma(hsl)
  {
    hide Chroma, Hexagon, Sector, Middle, HueSixths, Min3, Max3;
    var k, t := HueSector(hsl.h);
    ChromaInRange(hsl);
    HexagonAt(k, t, Chroma(hsl));
    SectorHue(k, t, Chroma(hsl), hsl.l - Chroma(hsl) / 2.0);
  }

  lemma GreyOfHsl(hsl: Hsla)
    requires Chroma(hsl) == 0.0
    ensures HslaToRgba(hsl) == Rgba(hsl.l, hsl.l, hsl.l, hsl.a)
  {
    hide Chroma, Truncate, Mod2;
    var x := 0.0 * (1.0 - Abs(Mod2(hsl.h * 6.0) - 1.0));
    assert x == 0.0;
  }

  lemma BetweenExtremes(r: real, g: real, b: real)
    requires 0.0 <= Min3(r, g, b) && Max3(r, g, b) <= 1.0
    ensures InUnit(r) && InUnit(g) && InUnit(b)
  {
  }

  /** Every canonical HSL value is a colour of the unit cube. */
  lemma RgbOfHslInCube(hsl: Hsla)
    requires Canonical(hsl)
    ensures UnitRgb(HslaToRgba(hsl))
  {
    hide HslaToRgba, Chroma, Width, Min3, Max3;
    var p := HslaToRgba(hsl);
    ChromaInRange(hsl);
    Halves(hsl.l, Chroma(hsl));
    if hsl.s == 0.0 {
      GreyOfHsl(hsl);
    } else {
      ColourOfHsl(hsl);
      BetweenExtremes(p.r, p.g, p.b);
    }
  }

  lemma HueBack(h: real, r: real, g: real, b: real)
    requires HueSixths(r, g, b) == h * 6.0
    ensures RgbToHue(r, g, b) == h
  {
    hide HueSixths;
  }

  /** HSL to RGB to HSL changes nothing on canonical values. */
  lemma HslRgbHsl(hsl: Hsla)
    requires Canonical(hsl)
    ensures UnitRgb(HslaToRgba(hsl)) && RgbaToHsla(HslaToRgba(hsl)) == hsl
  {
    hide HslaToRgba, Chroma, Width, HueSixths, RgbToHue, Min3, Max3;
    RgbOfHslInCube(hsl);
    ChromaInRange(hsl);
    Halves(hsl.l, Chroma(hsl));
    var p := HslaToRgba(hsl);
    if hsl.s == 0.0 {
      GreyOfHsl(hsl);
      GreyBack(hsl.l, hsl.a);
    } else {
      ColourOfHsl(hsl);
      HueBack(hsl.h, p.r, p.g, p.b);
      SaturationBack(hsl);
    }
  }

  lemma GreyBack(l: real, a: real)
    requires InUnit(l)
    ensures RgbaToHsla(Rgba(l, l, l, a)) == Hsla(0.0, 0.0, l, a)
  {
    if l != 0.0 && l != 1.0 {
      WidthPositive(l, l);
    }
  }

  lemma SaturationBack(hsl: Hsla)
    requires Canonical(hsl) && hsl.s > 0.0
    ensures Width(hsl.l) != 0.0 && Chroma(hsl) / Width(hsl.l) == hsl.s
  {
    assert Width(hsl.l) > 0.0;
    CancelProduct(Width(hsl.l), hsl.s);
  }

  /** Exactly the canonical values survive the way through RGB. */
  lemma HslSurvivesIffCanonical(hsl: Hsla)
    requires UnitRgb(HslaToRgba(hsl))
    ensures RgbaToHsla(HslaToRgba(hsl)) == hsl <==> Canonical(hsl)
  {
    hide HslaToRgba, RgbaToHsla;
    HslOfRgbCanonical(HslaToRgba(hsl));
    if Canonical(hsl) {
      HslRgbHsl(hsl);
    }
  }

  /** A full turn of the hue is no turn. */
  lemma HueWraps(s: real, l: real, a: real)
    ensures HslaToRgba(Hsla(1.0, s, l, a)) == HslaToRgba(Hsla(0.0, s, l, a))
  {
    var c := Chroma(Hsla(0.0, s, l, a));
    assert Chroma(Hsla(1.0, s, l, a)) == c;
    FullTurn(c);
    hide Hexagon, Chroma;
  }

  lemma FullTurn(c: real)
    ensures Hexagon(1.0 * 6.0, c) == Hexagon(0.0 * 6.0, c)
  {
    assert Mod2(6.0) == 0.0 && Mod2(0.0) == 0.0;
    assert Truncate(6.0) == 6 && Truncate(0.0) == 0;
  }

  predicate UnitHsl(hsl: Hsla) { InUnit(hsl.h) && InUnit(hsl.s) && InUnit(hsl.l) }

  /** The canonical value for the same colour: black, white and greys have neither saturation nor hue, and a full turn
      is none. */
  function Normal(hsl: Hsla): Hsla {
    if hsl.s == 0.0 || hsl.l == 0.0 || hsl.l == 1.0 then hsl.(h := 0.0, s := 0.0)
    else if hsl.h == 1.0 then hsl.(h := 0.0)
    else hsl
  }

  lemma NormalSameColour(hsl: Hsla)
    requires UnitHsl(hsl)
    ensures Canonical(Normal(hsl)) && HslaToRgba(Normal(hsl)) == HslaToRgba(hsl)
  {
    ChromaInRange(hsl);
    ChromaInRange(Normal(hsl));
    HueWraps(hsl.s, hsl.l, hsl.a);
    hide HslaToRgba, Chroma, Width;
    if Chroma(hsl) == 0.0 {
      GreyOfHsl(hsl);
      GreyOfHsl(Normal(hsl));
    }
  }

  /** HSL to RGB to HSL normalises every value with hue, saturation and lightness from 0 to 1, 1 included. */
  lemma HslRgbHslNormal(hsl: Hsla)
    requires UnitHsl(hsl)
    ensures UnitRgb(HslaToRgba(hsl)) && RgbaToHsla(HslaToRgba(hsl)) == Normal(hsl)
  {
    hide HslaToRgba, RgbaToHsla, Normal, Canonical;
    NormalSameColour(hsl);
    HslRgbHsl(Normal(hsl));
  }

  /** What such a value means: the lightness is half way between the smallest and the largest component, their spread
      is the share of the saturation in the largest spread possible, and the hue is the colour's, a full turn none. */
  lemma HslMeaning(hsl: Hsla)
    requires UnitHsl(hsl)
    ensures var p := HslaToRgba(hsl); var min, max := Min3(p.r, p.g, p.b), Max3(p.r, p.g, p.b);
            && UnitRgb(p) && p.a == hsl.a
            && min + max == 2.0 * hsl.l && max - min == hsl.s * (1.0 - Abs(2.0 * hsl.l - 1.0))
            && (min != max ==> RgbToHue(p.r, p.g, p.b) == if hsl.h == 1.0 then 0.0 else hsl.h)
  {
    var p := HslaToRgba(hsl);
    HslRgbHslNormal(hsl);
    HslFields(p);
    ChromaKept(p);
    SameChroma(hsl);
    HueField(p);
    GreyHasNoSpread(hsl);
    hide HslaToRgba, RgbaToHsla, RgbToHue, Min3, Max3;
  }

  lemma HueField(c: Rgba)
    requires UnitRgb(c)
    ensures RgbaToHsla(c).h == RgbToHue(c.r, c.g, c.b)
  {
  }

  lemma SameChroma(hsl: Hsla)
    requires UnitHsl(hsl)
    ensures Chroma(Normal(hsl)) == Chroma(hsl) == hsl.s * (1.0 - Abs(2.0 * hsl.l - 1.0))
  {
    ChromaIs(hsl);
    ChromaInRange(hsl);
    ChromaInRange(Normal(hsl));
    hide ChromaAt, Width;
    if hsl.s == 0.0 || hsl.l == 0.0 || hsl.l == 1.0 {
      hide Chroma;
    }
  }

  lemma ChromaIs(hsl: Hsla)
    ensures Chroma(hsl) == hsl.s * (1.0 - Abs(2.0 * hsl.l - 1.0))
  {
  }

  lemma GreyHasNoSpread(hsl: Hsla)
    requires UnitHsl(hsl)
    ensures hsl.s == 0.0 || hsl.l == 0.0 || hsl.l == 1.0 ==> Chroma(hsl) == 0.0
  {
    ChromaInRange(hsl);
  }

  /** Red, green and blue have the hues 0, 1/3 and 2/3, here in sixths. */
  lemma PrimaryHues()
    ensures HueSixths(1.0, 0.0, 0.0) == 0.0 && HueSixths(0.0, 1.0, 0.0) == 2.0 && HueSixths(0.0, 0.0, 1.0) == 4.0
  {
  }

  // ---------------------------------------------------------------------------------------------
  // HSV
  // ---------------------------------------------------------------------------------------------

  /** HSL to HSV to HSL changes nothing exactly when black and white come without saturation. */
  lemma HslHsvHsl(hsl: Hsla)
    requires 0.0 <= hsl.s && InUnit(hsl.l)
    ensures HsvaToHsla(HslaToHsva(hsl)) == hsl <==> ((hsl.l == 0.0 || hsl.l == 1.0) ==> hsl.s == 0.0)
  {
    hide HslaToHsva, HsvaToHsla;
    var hsv := HslaToHsva(hsl);
    LightnessBack(hsl);
    HslaAtLightness(hsv, hsl.l);
    if hsl.l != 0.0 && hsl.l != 1.0 {
      SaturationOfHsl(hsl);
    }
  }

  lemma HslaAtLightness(hsv: Hsva, l: real)
    requires hsv.v * (1.0 - hsv.s * 0.5) == l
    ensures HsvaToHsla(hsv).h == hsv.h && HsvaToHsla(hsv).l == l && HsvaToHsla(hsv).a == hsv.a
    ensures HsvaToHsla(hsv).s == if l == 0.0 || l == 1.0 then 0.0 else (hsv.v - l) / Min(l, 1.0 - l)
  {
  }

  lemma SaturationOfHsl(hsl: Hsla)
    requires 0.0 < hsl.l < 1.0
    ensures (HslaToHsva(hsl).v - hsl.l) / Min(hsl.l, 1.0 - hsl.l) == hsl.s
  {
    var m := Min(hsl.l, 1.0 - hsl.l);
    var p := hsl.s * m;
    CancelProduct(m, hsl.s);
    assert HslaToHsva(hsl).v - hsl.l == p;
  }

  lemma ValueAndSaturation(l: real, p: real)
    requires l >= 0.0 && p >= 0.0
    ensures var v := l + p;
            var s := if v == 0.0 then 0.0 else 2.0 - 2.0 * l / v;
            v * (1.0 - s * 0.5) == l && s * v == 2.0 * p
  {
    var v := l + p;
    if v != 0.0 {
      var q := l / v;
      Cancel(l, v);
      DoubleQuotient(l, v);
      var s := 2.0 - 2.0 * q;
      assert v * q == l;
      assert 1.0 - s * 0.5 == q;
      assert s * v == 2.0 * v - 2.0 * (v * q);
    }
  }

  /** HSV keeps the lightness recoverable, and its saturation is relative to the value. */
  lemma LightnessBack(hsl: Hsla)
    requires 0.0 <= hsl.s && InUnit(hsl.l)
    ensures var hsv := HslaToHsva(hsl);
            && hsv.v * (1.0 - hsv.s * 0.5) == hsl.l && hsv.h == hsl.h && hsv.a == hsl.a
            && hsv.v == hsl.l + hsl.s * Min(hsl.l, 1.0 - hsl.l)
            && hsv.s * hsv.v == 2.0 * (hsl.s * Min(hsl.l, 1.0 - hsl.l))
  {
    var m := Min(hsl.l, 1.0 - hsl.l);
    ProductNonNegative(hsl.s, m);
    ValueAndSaturation(hsl.l, hsl.s * m);
  }

  lemma ProductNonNegative(a: real, b: real)
    requires a >= 0.0 && b >= 0.0
    ensures a * b >= 0.0
  {
  }

  lemma DoubleQuotient(d: real, c: real)
    requires c != 0.0
    ensures 2.0 * d / c == 2.0 * (d / c)
  {
  }

  lemma HalfWidth(l: real)
    requires InUnit(l)
    ensures Width(l) == 2.0 * Min(l, 1.0 - l)
  {
  }

  lemma HalfChroma(hsl: Hsla)
    requires InUnit(hsl.l)
    ensures hsl.s * Min(hsl.l, 1.0 - hsl.l) == Chroma(hsl) / 2.0
  {
    HalfWidth(hsl.l);
  }

  /** HSV to HSL to HSV changes nothing exactly when black comes without saturation. */
  lemma HsvHslHsv(hsv: Hsva)
    requires InUnit(hsv.s) && InUnit(hsv.v)
    ensures HslaToHsva(HsvaToHsla(hsv)) == hsv <==> (hsv.v == 0.0 ==> hsv.s == 0.0)
  {
    var l := hsv.v * (1.0 - hsv.s * 0.5);
    HslaAtLightness(hsv, l);
    LightnessBelow(hsv.v, hsv.s);
    ValueBack(hsv, l);
    if hsv.v != 0.0 {
      SaturationRelative(hsv.v, hsv.s, l);
    }
    HsvaFields(HsvaToHsla(hsv));
    hide HsvaToHsla, HslaToHsva;
  }

  lemma HsvaFields(hsl: Hsla)
    ensures var hsv := HslaToHsva(hsl);
            && hsv.h == hsl.h && hsv.a == hsl.a
            && hsv.v == hsl.l + Times(hsl.s, Min(hsl.l, 1.0 - hsl.l))
            && hsv.s == if hsv.v == 0.0 then 0.0 else 2.0 - 2.0 * hsl.l / hsv.v
  {
  }

  lemma LightnessBelow(v: real, s: real)
    requires InUnit(s) && InUnit(v)
    ensures var l := v * (1.0 - s * 0.5); 0.0 <= l <= v && (l == 0.0 ==> v == 0.0)
  {
    var w := 1.0 - s * 0.5;
    ProductInRange(v, w);
    hide Min;
  }

  lemma ValueBack(hsv: Hsva, l: real)
    requires 0.0 <= l <= hsv.v <= 1.0 && (l == 0.0 ==> hsv.v == 0.0)
    requires HsvaToHsla(hsv).l == l
    requires HsvaToHsla(hsv).s == if l == 0.0 || l == 1.0 then 0.0 else (hsv.v - l) / Min(l, 1.0 - l)
    ensures l + Times(HsvaToHsla(hsv).s, Min(l, 1.0 - l)) == hsv.v
  {
    hide HsvaToHsla;
    var m, s := Min(l, 1.0 - l), HsvaToHsla(hsv).s;
    if l == 0.0 || l == 1.0 {
      assert s == 0.0 && Times(s, m) == 0.0;
    } else {
      Cancel(hsv.v - l, m);
    }
  }

  lemma SaturationRelative(v: real, s: real, l: real)
    requires v != 0.0 && l == v * (1.0 - s * 0.5)
    ensures 2.0 - 2.0 * l / v == s
  {
    var w := 1.0 - s * 0.5;
    var p := v * w;
    CancelProduct(v, w);
    DoubleQuotient(p, v);
    assert p / v == w && p == l;
  }

  /** The value of a colour is its largest component, and its saturation the spread relative to that. */
  lemma HsvMeaning(c: Rgba)
    requires UnitRgb(c)
    ensures var hsv := RgbaToHsva(c);
            var min, max := Min3(c.r, c.g, c.b), Max3(c.r, c.g, c.b);
            && hsv.v == max && hsv.s * max == max - min && hsv.h == RgbToHue(c.r, c.g, c.b) && hsv.a == c.a
  {
    hide RgbaToHsla, HslaToHsva, RgbToHue, HueSixths, Chroma, Min3, Max3, UnitRgb, Min;
    HslOfRgbCanonical(c);
    ChromaKept(c);
    HslFields(c);
    HueBack(RgbaToHsla(c).h, c.r, c.g, c.b);
    HalfChroma(RgbaToHsla(c));
    LightnessBack(RgbaToHsla(c));
  }

  /** RGB to HSV to RGB changes nothing on the unit cube. */
  lemma RgbHsvRgb(c: Rgba)
    requires UnitRgb(c)
    ensures HsvaToRgba(RgbaToHsva(c)) == c
  {
    hide HslaToRgba, RgbaToHsla, HsvaToHsla, HslaToHsva, UnitRgb;
    HslOfRgbCanonical(c);
    HslHsvHsl(RgbaToHsla(c));
    RgbHslRgb(c);
  }
}
