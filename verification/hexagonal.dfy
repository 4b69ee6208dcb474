/** The hexagonal models of `Convert` (hclsliders/colorconversion.py), HSV
    and HSL: the hue counts 60-degree sectors, the largest and smallest
    channels come from value or lightness and saturation, and the middle
    channel from how far the hue lies from the sector's secondary colour.

    Products and quotients of variables are written `Mul` and `Div` so
    that the solver treats each as one term. */
module Hexagonal {
  import opened Scalars
  import opened ColorTypes

  // ---------------------------------------------------------------------
  // Sectors

  /** The channel layout of each hue sector: `v` the largest channel, `m`
      the smallest, `x` the middle one. Sector 0 (and any number outside
      1..5) lies between red and yellow. */
  function Arrange(sector: int, v: real, m: real, x: real): Rgb {
    if sector == 1 then Rgb(x, v, m)
    else if sector == 2 then Rgb(m, v, x)
    else if sector == 3 then Rgb(m, x, v)
    else if sector == 4 then Rgb(x, m, v)
    else if sector == 5 then Rgb(v, m, x)
    else Rgb(v, x, m)
  }

  /** `Convert.hSectorToRgbF`: the three values laid out by sector, then
      made linear when the caller works in linear RGB. */
  function HSectorToRgbF(sector: int, v: real, m: real, x: real, trc: Trc, n: Numerics): Rgb {
    DecodeFor(Arrange(sector, v, m, x), trc, n)
  }

  /** Every sector lays out the same three values, or their linear forms:
      the result is a permutation of them. */
  lemma SectorPermutes(sector: int, v: real, m: real, x: real, trc: Trc, n: Numerics)
    ensures var c := HSectorToRgbF(sector, v, m, x, trc, n);
      trc == SRGB ==> multiset{c.r, c.g, c.b} == multiset{v, m, x}
    ensures var c := HSectorToRgbF(sector, v, m, x, trc, n);
      trc == Linear ==> multiset{c.r, c.g, c.b} == multiset{n.toLinear(v), n.toLinear(m), n.toLinear(x)}
  {
    if trc == Linear {
      ArrangeLinear(sector, v, m, x, n);
      ArrangePermutes(sector, n.toLinear(v), n.toLinear(m), n.toLinear(x));
    } else {
      ArrangePermutes(sector, v, m, x);
    }
  }

  lemma ArrangePermutes(sector: int, v: real, m: real, x: real)
    ensures var c := Arrange(sector, v, m, x); multiset{c.r, c.g, c.b} == multiset{v, m, x}
  {
    if sector == 1 {
      Rotate(x, v, m);
    } else if sector == 2 {
      SwapFirst(m, v, x);
    } else if sector == 3 {
      Rotate(m, x, v);
      Rotate(x, v, m);
    } else if sector == 4 {
      Rotate(x, m, v);
      SwapFirst(m, v, x);
    } else if sector == 5 {
    } else {
      SwapFirst(v, x, m);
      Rotate(x, v, m);
    }
  }

  lemma Rotate(a: real, b: real, c: real)
    ensures multiset{a, b, c} == multiset{b, c, a}
  {
  }

  lemma SwapFirst(a: real, b: real, c: real)
    ensures multiset{a, b, c} == multiset{b, a, c}
  {
  }

  /** Making the layout linear is laying out the linear values. */
  lemma ArrangeLinear(sector: int, v: real, m: real, x: real, n: Numerics)
    ensures DecodeFor(Arrange(sector, v, m, x), Linear, n)
      == Arrange(sector, n.toLinear(v), n.toLinear(m), n.toLinear(x))
  {
  }

  lemma SrgbLayout(sector: int, v: real, m: real, x: real, n: Numerics)
    ensures HSectorToRgbF(sector, v, m, x, SRGB, n) == Arrange(sector, v, m, x)
  {
  }

  /** With the middle value between the others, `v` is the largest channel
      and `m` the smallest, in every sector. */
  lemma ArrangeExtremes(sector: int, v: real, m: real, x: real)
    ensures m <= x <= v ==> MaxOf(Arrange(sector, v, m, x)) == v && MinOf(Arrange(sector, v, m, x)) == m
  {
  }

  /** The distance of the hue from the secondary colour of its sector, as
      a fraction of the chroma that the middle channel lacks. */
  function Deviation(h: real, sector: int): real {
    if sector % 2 == 1 then h - sector as real else 1.0 - (h - sector as real)
  }

  lemma DeviationBounds(h: real)
    requires 0.0 <= h
    ensures 0.0 <= Deviation(h, Trunc(h)) <= 1.0
  {
  }

  // ---------------------------------------------------------------------
  // Hue

  function Chroma(c: Rgb): real {
    MaxOf(c) - MinOf(c)
  }

  /** The hue in sectors, in [0, 6): the largest channel picks the primary
      (red 0, green 2, blue 4) and the other two the deviation from it;
      red is checked first, then green. */
  function Hue(c: Rgb): (h: real)
    requires Chroma(c) != 0.0
    ensures 0.0 <= h < 6.0
  {
    var v, k := MaxOf(c), Chroma(c);
    SpreadBounds(c);
    if v == c.r then PyMod(Div(c.g - c.b, k), 6.0)
    else if v == c.g then Div(c.b - c.r, k) + 2.0
    else Div(c.r - c.g, k) + 4.0
  }

  /** A difference of two channels, divided by the chroma, lies in [-1, 1];
      it stays above -1 when the channel subtracted is not the largest and
      below 1 when the channel subtracted from is not. */
  lemma SpreadBounds(c: Rgb)
    requires Chroma(c) != 0.0
    ensures var k := Chroma(c);
      -1.0 <= Div(c.g - c.b, k) <= 1.0 && -1.0 <= Div(c.b - c.r, k) <= 1.0 && -1.0 <= Div(c.r - c.g, k) <= 1.0
    ensures var k := Chroma(c); c.r < MaxOf(c) ==> -1.0 < Div(c.b - c.r, k) && Div(c.r - c.g, k) < 1.0
    ensures var k := Chroma(c); c.g < MaxOf(c) ==> -1.0 < Div(c.r - c.g, k)
  {
    var k := Chroma(c);
    Ratio(c.g - c.b, k);
    Ratio(c.b - c.r, k);
    Ratio(c.r - c.g, k);
  }

  lemma Ratio(a: real, k: real)
    requires k > 0.0 && -k <= a <= k
    ensures -1.0 <= Div(a, k) <= 1.0
    ensures -k < a ==> -1.0 < Div(a, k)
    ensures a < k ==> Div(a, k) < 1.0
  {
    var q := Div(a, k);
    DivIs(a, k);
    assert q * k == a;
    if q > 1.0 { MulLt(1.0, q, k); assert false; }
    if q < -1.0 { MulLt(q, -1.0, k); assert false; }
    if -k < a && q <= -1.0 { MulLe(q, -1.0, k); assert false; }
    if a < k && q >= 1.0 { MulLe(1.0, q, k); assert false; }
  }

  /** The middle channel a hue gives: the largest channel less the
      deviation's share of the chroma. */
  function Middle(v: real, h: real, k: real): real {
    v - Mul(Deviation(h, Trunc(h)), k)
  }

  /** The layout of the hue's sector, filled with the largest and smallest
      channel and the middle channel the hue's deviation gives, is the
      colour itself. */
  lemma {:induction false} SectorRoundTrip(c: Rgb)
    requires Chroma(c) != 0.0
    ensures var h := Hue(c);
      Arrange(Trunc(h), MaxOf(c), MinOf(c), Middle(MaxOf(c), h, Chroma(c))) == c
  {
    var v, m, k := MaxOf(c), MinOf(c), Chroma(c);
    assert c == Rgb(c.r, c.g, c.b);
    if v == c.r {
      assert Hue(c) == PyMod(Div(c.g - c.b, k), 6.0);
      RedSector(c.r, c.g, c.b, m, k);
    } else if v == c.g {
      assert Hue(c) == Div(c.b - c.r, k) + 2.0;
      GreenSector(c.r, c.g, c.b, m, k);
    } else {
      assert v == c.b;
      assert Hue(c) == Div(c.r - c.g, k) + 4.0;
      BlueSector(c.r, c.g, c.b, m, k);
    }
  }

  lemma RedSector(r: real, g: real, b: real, m: real, k: real)
    requires k > 0.0 && r - k == m && m == Min3(r, g, b) && r == Max3(r, g, b)
    ensures var h := PyMod(Div(g - b, k), 6.0);
      Arrange(Trunc(h), r, m, Middle(r, h, k)) == Rgb(r, g, b)
  {
    var q := Div(g - b, k);
    DivIs(g - b, k);
    Ratio(g - b, k);
    if g >= b {
      assert PyMod(q, 6.0) == q;
      RedRising(r, g, b, m, k, q);
    } else {
      assert PyMod(q, 6.0) == q + 6.0;
      RedFalling(r, g, b, m, k, q);
    }
  }

  /** Red leads and green follows: sector 0, or 1 at pure yellow. */
  lemma RedRising(r: real, g: real, b: real, m: real, k: real, q: real)
    requires k > 0.0 && r - k == m && m == Min3(r, g, b) && r == Max3(r, g, b)
    requires q * k == g - b && 0.0 <= q <= 1.0
    ensures Arrange(Trunc(q), r, m, Middle(r, q, k)) == Rgb(r, g, b)
  {
    var d := Deviation(q, Trunc(q));
    MulIs(d, k);
    if q < 1.0 {
      assert Trunc(q) == 0;
      assert d * k == k - q * k;
    } else {
      assert Trunc(q) == 1;
    }
  }

  /** Red leads and blue follows: sector 5. */
  lemma RedFalling(r: real, g: real, b: real, m: real, k: real, q: real)
    requires k > 0.0 && r - k == m && m == Min3(r, g, b) && r == Max3(r, g, b)
    requires q * k == g - b && -1.0 <= q < 0.0
    ensures Arrange(Trunc(q + 6.0), r, m, Middle(r, q + 6.0, k)) == Rgb(r, g, b)
  {
    var h := q + 6.0;
    var d := Deviation(h, Trunc(h));
    MulIs(d, k);
    assert Trunc(h) == 5;
    assert d * k == q * k + k;
  }

  lemma GreenSector(r: real, g: real, b: real, m: real, k: real)
    requires k > 0.0 && g - k == m && m == Min3(r, g, b) && g == Max3(r, g, b) && r < g
    ensures var h := Div(b - r, k) + 2.0;
      Arrange(Trunc(h), g, m, Middle(g, h, k)) == Rgb(r, g, b)
  {
    var q := Div(b - r, k);
    DivIs(b - r, k);
    Ratio(b - r, k);
    var h := q + 2.0;
    var d := Deviation(h, Trunc(h));
    MulIs(d, k);
    if q < 0.0 {
      assert Trunc(h) == 1;
      assert d * k == q * k + k;
    } else if q == 0.0 {
      assert Trunc(h) == 2;
    } else if q < 1.0 {
      assert Trunc(h) == 2;
      assert d * k == k - q * k;
    } else {
      assert Trunc(h) == 3;
    }
  }

  lemma BlueSector(r: real, g: real, b: real, m: real, k: real)
    requires k > 0.0 && b - k == m && m == Min3(r, g, b) && b == Max3(r, g, b) && r < b && g < b
    ensures var h := Div(r - g, k) + 4.0;
      Arrange(Trunc(h), b, m, Middle(b, h, k)) == Rgb(r, g, b)
  {
    var q := Div(r - g, k);
    DivIs(r - g, k);
    Ratio(r - g, k);
    var h := q + 4.0;
    var d := Deviation(h, Trunc(h));
    MulIs(d, k);
    if q < 0.0 {
      assert Trunc(h) == 3;
      assert d * k == q * k + k;
    } else {
      assert Trunc(h) == 4;
      assert d * k == k - q * k;
    }
  }

  /** With no chroma all three channels are equal. */
  lemma Neutral(c: Rgb)
    requires Chroma(c) == 0.0
    ensures c == Rgb(MaxOf(c), MaxOf(c), MaxOf(c))
  {
  }

  // ---------------------------------------------------------------------
  // HSV

  /** `rgbFToHsv` divides by the value when the colour has chroma. */
  predicate HsvDefined(c: Rgb) {
    Chroma(c) == 0.0 || MaxOf(c) != 0.0
  }

  /** `rgbFToHsv` before rounding, on sRGB channels: hue in degrees,
      saturation and value in percent. */
  function HsvOf(c: Rgb): (hsv: (real, real, real))
    requires HsvDefined(c)
    ensures 0.0 <= hsv.0 < 360.0
    ensures Chroma(c) == 0.0 ==> hsv.0 == 0.0 && hsv.1 == 0.0
    ensures InUnitCube(c) ==> 0.0 <= hsv.1 <= 100.0 && 0.0 <= hsv.2 <= 100.0
  {
    var v := MaxOf(c);
    if Chroma(c) == 0.0 then (0.0, 0.0, v * 100.0)
    else
      SaturationRange(Chroma(c), v);
      (Hue(c) * 60.0, Div(Chroma(c), v) * 100.0, v * 100.0)
  }

  lemma SaturationRange(k: real, v: real)
    requires v != 0.0
    ensures 0.0 <= k <= v ==> 0.0 <= Div(k, v) <= 1.0
  {
    DivIs(k, v);
    if 0.0 <= k <= v {
      DivAtMostOne(k, v);
      DivNonneg(k, v);
    }
  }

  /** `Convert.rgbFToHsv`: each component rounded to two decimals. */
  function RgbFToHsv(c: Rgb, trc: Trc, n: Numerics): (hsv: (real, real, real))
    requires HsvDefined(SrgbOf(c, trc, n))
    ensures var e := SrgbOf(c, trc, n);
      hsv.2 == n.roundTo(MaxOf(e) * 100.0, 2) && (Chroma(e) == 0.0 ==> hsv.0 == 0.0 && hsv.1 == 0.0)
  {
    var e := SrgbOf(c, trc, n);
    var exact := HsvOf(e);
    if Chroma(e) == 0.0 then (0.0, 0.0, n.roundTo(exact.2, 2))
    else (n.roundTo(exact.0, 2), n.roundTo(exact.1, 2), n.roundTo(exact.2, 2))
  }

  /** `Convert.hsvToRgbF`: hue in degrees, saturation and value in percent. */
  function HsvToRgbF(h: real, s: real, v: real, trc: Trc, n: Numerics): Rgb {
    HsvUnit(h / 60.0, s / 100.0, v / 100.0, trc, n)
  }

  /** `hsvToRgbF` after scaling: hue in sectors, saturation and value in
      [0, 1]. The largest channel is the value, the smallest drops by the
      saturation, the middle one by the saturation times the deviation. */
  function HsvUnit(h: real, s: real, v: real, trc: Trc, n: Numerics): Rgb {
    var sector := Trunc(h);
    HSectorToRgbF(sector, v, Mul(v, 1.0 - s), Mul(v, 1.0 - Mul(Deviation(h, sector), s)), trc, n)
  }

  /** No saturation is a gray of the value, whatever the hue. */
  lemma HsvGray(h: real, v: real, n: Numerics)
    ensures HsvToRgbF(h, 0.0, v, SRGB, n) == Rgb(v / 100.0, v / 100.0, v / 100.0)
  {
    var h1, v1 := h / 60.0, v / 100.0;
    var sector := Trunc(h1);
    var d := Deviation(h1, sector);
    MulIs(d, 0.0);
    MulIs(v1, 1.0 - 0.0);
    SrgbLayout(sector, v1, Mul(v1, 1.0 - 0.0), Mul(v1, 1.0 - Mul(d, 0.0)), n);
  }

  /** For a hue from 0 and saturation and value in range, the value is the
      largest channel and the smallest is the value less the saturation's
      share of it. */
  lemma HsvExtremes(h: real, s: real, v: real, n: Numerics)
    requires 0.0 <= h && 0.0 <= s <= 100.0 && 0.0 <= v
    ensures var c := HsvToRgbF(h, s, v, SRGB, n);
      MaxOf(c) == v / 100.0 && MinOf(c) == v / 100.0 * (1.0 - s / 100.0)
  {
    HsvUnitExtremes(h / 60.0, s / 100.0, v / 100.0, n);
    MulIs(v / 100.0, 1.0 - s / 100.0);
  }

  lemma HsvUnitExtremes(h: real, s: real, v: real, n: Numerics)
    requires 0.0 <= h && 0.0 <= s <= 1.0 && 0.0 <= v
    ensures MaxOf(HsvUnit(h, s, v, SRGB, n)) == v && MinOf(HsvUnit(h, s, v, SRGB, n)) == Mul(v, 1.0 - s)
  {
    var sector := Trunc(h);
    var d := Deviation(h, sector);
    var m, x := Mul(v, 1.0 - s), Mul(v, 1.0 - Mul(d, s));
    DeviationBounds(h);
    HsvMiddle(v, s, d);
    ArrangeExtremes(sector, v, m, x);
    SrgbLayout(sector, v, m, x, n);
  }

  /** `v * (1 - d * s)` lies between `v * (1 - s)` and `v`. */
  lemma HsvMiddle(v: real, s: real, d: real)
    requires 0.0 <= v && 0.0 <= s <= 1.0 && 0.0 <= d <= 1.0
    ensures Mul(v, 1.0 - s) <= Mul(v, 1.0 - Mul(d, s)) <= v
  {
    MulIs(d, s);
    MulIs(v, 1.0 - s);
    MulIs(v, 1.0 - d * s);
    assert 0.0 <= d * s <= s by {
      MulLe(d, 1.0, s);
      MulNonneg(d, s);
    }
    MulLe(1.0 - s, 1.0 - d * s, v);
    MulLe(1.0 - d * s, 1.0, v);
  }

  /** `v * (1 - d * (k / v))` is `v - d * k`. */
  lemma Unscale(v: real, k: real, d: real)
    requires v != 0.0
    ensures Mul(v, 1.0 - Mul(d, Div(k, v))) == v - Mul(d, k)
    ensures Mul(v, 1.0 - Div(k, v)) == v - k
  {
    var q := Div(k, v);
    DivIs(k, v);
    MulIs(d, q);
    MulIs(d, k);
    MulIs(v, 1.0 - d * q);
    MulIs(v, 1.0 - q);
    assert v * (d * q) == d * (q * v);
  }

  /** HSV read off a colour, before rounding, converts back to the colour. */
  lemma HsvRoundTrip(c: Rgb, n: Numerics)
    requires HsvDefined(c)
    ensures var hsv := HsvOf(c); HsvToRgbF(hsv.0, hsv.1, hsv.2, SRGB, n) == c
  {
    var v, m, k := MaxOf(c), MinOf(c), Chroma(c);
    var hsv := HsvOf(c);
    if k == 0.0 {
      Neutral(c);
      HsvGray(0.0, v * 100.0, n);
    } else {
      var h := Hue(c);
      var sector := Trunc(h);
      var d := Deviation(h, sector);
      var s := Div(k, v);
      assert hsv == (h * 60.0, s * 100.0, v * 100.0);
      assert HsvToRgbF(hsv.0, hsv.1, hsv.2, SRGB, n) == HsvUnit(h, s, v, SRGB, n);
      Unscale(v, k, d);
      SrgbLayout(sector, v, m, Middle(v, h, k), n);
      SectorRoundTrip(c);
    }
  }

  // ---------------------------------------------------------------------
  // HSL

  /** The chroma range of a lightness: largest at half lightness. */
  function Range(l: real): real {
    1.0 - Abs(2.0 * l - 1.0)
  }

  function Lightness(c: Rgb): real {
    (MaxOf(c) + MinOf(c)) / 2.0
  }

  /** `rgbFToHsl` divides by the chroma range when the colour has chroma. */
  predicate HslDefined(c: Rgb) {
    Chroma(c) == 0.0 || Range(Lightness(c)) != 0.0
  }

  /** `rgbFToHsl` before rounding, on sRGB channels: hue in degrees,
      saturation and lightness in percent. */
  function HslOf(c: Rgb): (hsl: (real, real, real))
    requires HslDefined(c)
    ensures 0.0 <= hsl.0 < 360.0
    ensures Chroma(c) == 0.0 ==> hsl.0 == 0.0 && hsl.1 == 0.0
  {
    var l := Lightness(c);
    if Chroma(c) == 0.0 then (0.0, 0.0, l * 100.0)
    else (Hue(c) * 60.0, Div(Chroma(c), Range(l)) * 100.0, l * 100.0)
  }

  /** `Convert.rgbFToHsl`: each component rounded to two decimals. */
  function RgbFToHsl(c: Rgb, trc: Trc, n: Numerics): (hsl: (real, real, real))
    requires HslDefined(SrgbOf(c, trc, n))
    ensures var e := SrgbOf(c, trc, n);
      hsl.2 == n.roundTo((MaxOf(e) + MinOf(e)) / 2.0 * 100.0, 2) && (Chroma(e) == 0.0 ==> hsl.0 == 0.0 && hsl.1 == 0.0)
  {
    var e := SrgbOf(c, trc, n);
    var exact := HslOf(e);
    if Chroma(e) == 0.0 then (0.0, 0.0, n.roundTo(exact.2, 2))
    else (n.roundTo(exact.0, 2), n.roundTo(exact.1, 2), n.roundTo(exact.2, 2))
  }

  /** The largest channel for a lightness and saturation. */
  function HslMax(s: real, l: real): real {
    if l < 0.5 then Mul(l, 1.0 + s) else Mul(s, 1.0 - l) + l
  }

  /** `Convert.hslToRgbF`: hue in degrees, saturation and lightness in
      percent. */
  function HslToRgbF(h: real, s: real, l: real, trc: Trc, n: Numerics): Rgb {
    HslUnit(h / 60.0, s / 100.0, l / 100.0, trc, n)
  }

  /** `hslToRgbF` after scaling: hue in sectors, saturation and lightness
      in [0, 1]. The largest and smallest channels lie the same distance
      above and below the lightness. */
  function HslUnit(h: real, s: real, l: real, trc: Trc, n: Numerics): Rgb {
    var sector := Trunc(h);
    var v := HslMax(s, l);
    var m := 2.0 * l - v;
    HSectorToRgbF(sector, v, m, v - Mul(Deviation(h, sector), v - m), trc, n)
  }

  /** No saturation is a gray of the lightness, whatever the hue. */
  lemma HslGray(h: real, l: real, n: Numerics)
    ensures HslToRgbF(h, 0.0, l, SRGB, n) == Rgb(l / 100.0, l / 100.0, l / 100.0)
  {
    var h1, l1 := h / 60.0, l / 100.0;
    var sector := Trunc(h1);
    var d := Deviation(h1, sector);
    MulIs(l1, 1.0 + 0.0);
    MulIs(0.0, 1.0 - l1);
    assert HslMax(0.0, l1) == l1;
    MulIs(d, l1 - (2.0 * l1 - l1));
    SrgbLayout(sector, l1, 2.0 * l1 - l1, l1 - Mul(d, l1 - (2.0 * l1 - l1)), n);
  }

  /** For a hue from 0, a saturation from 0 and a lightness in range, the
      lightness is the midrange of the channels and the chroma is the
      saturation's share of the chroma range. */
  lemma HslExtremes(h: real, s: real, l: real, n: Numerics)
    requires 0.0 <= h && 0.0 <= s && 0.0 <= l <= 100.0
    ensures var c := HslToRgbF(h, s, l, SRGB, n);
      (MaxOf(c) + MinOf(c)) / 2.0 == l / 100.0 && MaxOf(c) - MinOf(c) == Mul(s / 100.0, Range(l / 100.0))
  {
    HslUnitExtremes(h / 60.0, s / 100.0, l / 100.0, n);
  }

  lemma HslUnitExtremes(h: real, s: real, l: real, n: Numerics)
    requires 0.0 <= h && 0.0 <= s && 0.0 <= l <= 1.0
    ensures var c := HslUnit(h, s, l, SRGB, n);
      (MaxOf(c) + MinOf(c)) / 2.0 == l && MaxOf(c) - MinOf(c) == Mul(s, Range(l))
  {
    var sector := Trunc(h);
    var d := Deviation(h, sector);
    var v := HslMax(s, l);
    var m := 2.0 * l - v;
    var x := v - Mul(d, v - m);
    DeviationBounds(h);
    HslSpan(s, l);
    HslMiddle(v, m, d);
    ArrangeExtremes(sector, v, m, x);
    SrgbLayout(sector, v, m, x, n);
  }

  /** `v - d * (v - m)` lies between `m` and `v`. */
  lemma HslMiddle(v: real, m: real, d: real)
    requires m <= v && 0.0 <= d <= 1.0
    ensures m <= v - Mul(d, v - m) <= v
  {
    MulIs(d, v - m);
    MulLe(d, 1.0, v - m);
    MulNonneg(d, v - m);
  }

  /** The largest channel exceeds the lightness by half the chroma. */
  lemma HslSpan(s: real, l: real)
    requires 0.0 <= s && 0.0 <= l <= 1.0
    ensures HslMax(s, l) - l == Mul(s, Range(l)) / 2.0
    ensures HslMax(s, l) >= l
  {
    MulIs(l, 1.0 + s);
    MulIs(s, 1.0 - l);
    MulIs(s, Range(l));
    MulNonneg(s, l);
    MulNonneg(s, 1.0 - l);
  }

  /** The largest channel of a colour recovered from its lightness and
      saturation. */
  lemma HslMaxInverse(v: real, m: real)
    requires v > m && Range((v + m) / 2.0) != 0.0
    ensures HslMax(Div(v - m, Range((v + m) / 2.0)), (v + m) / 2.0) == v
  {
    var l, k := (v + m) / 2.0, v - m;
    var w := Range(l);
    var s := Div(k, w);
    DivIs(k, w);
    MulIs(l, 1.0 + s);
    MulIs(s, 1.0 - l);
    if l < 0.5 {
      assert w == 2.0 * l;
      assert l * (1.0 + s) == l + s * w / 2.0;
    } else {
      assert w == 2.0 - 2.0 * l;
      assert s * (1.0 - l) == s * w / 2.0;
    }
  }

  /** HSL read off a colour, before rounding, converts back to the colour. */
  lemma HslRoundTrip(c: Rgb, n: Numerics)
    requires HslDefined(c)
    ensures var hsl := HslOf(c); HslToRgbF(hsl.0, hsl.1, hsl.2, SRGB, n) == c
  {
    var v, m, k := MaxOf(c), MinOf(c), Chroma(c);
    var l := Lightness(c);
    var hsl := HslOf(c);
    if k == 0.0 {
      Neutral(c);
      HslGray(0.0, l * 100.0, n);
    } else {
      var h := Hue(c);
      var sector := Trunc(h);
      var s := Div(k, Range(l));
      assert hsl == (h * 60.0, s * 100.0, l * 100.0);
      assert HslToRgbF(hsl.0, hsl.1, hsl.2, SRGB, n) == HslUnit(h, s, l, SRGB, n);
      HslMaxInverse(v, m);
      assert 2.0 * l - v == m;
      SrgbLayout(sector, v, m, Middle(v, h, k), n);
      SectorRoundTrip(c);
    }
  }
}
