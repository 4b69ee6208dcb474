/** The HCY model of `Convert` (hclsliders/colorconversion.py): hue as in
    HSV, chroma as the spread of the channels, and luma as the ITU-R BT.709
    weighted sum of the channels (relative luminance when the channels are
    linear). A hue and a luma together allow chroma only up to a limit,
    past which the colour leaves the RGB cube.

    As in the HSV and HSL models, products and quotients of variables are
    written `Mul` and `Div`. */
module Hcy {
  import opened Scalars
  import opened ColorTypes
  import opened Hexagonal

  /** Luma with the coefficients of ITU-R BT.709 (red 0.2126, green
      0.7152, blue 0.0722; they add up to 1). The coefficients are written
      as literals here and in `HueLuma` so that every product with them
      stays linear for the solver. */
  function Luma(c: Rgb): real {
    0.2126 * c.r + 0.7152 * c.g + 0.0722 * c.b
  }

  // ---------------------------------------------------------------------
  // Luma of a hue

  /** The share of the chroma the middle channel carries at hue `h` (in
      sectors): rising through even sectors, falling through odd ones. */
  function Share(h: real, sector: int): real {
    if sector % 2 == 0 then h - sector as real else 1.0 - (h - sector as real)
  }

  /** The luma of the fully saturated colour of a sector and share: the
      coefficient of the largest channel plus the share of the middle
      one's. */
  function HueLuma(sector: int, d: real): real {
    if sector == 1 then 0.7152 + 0.2126 * d
    else if sector == 2 then 0.7152 + 0.0722 * d
    else if sector == 3 then 0.0722 + 0.7152 * d
    else if sector == 4 then 0.0722 + 0.2126 * d
    else if sector == 5 then 0.2126 + 0.0722 * d
    else 0.2126 + 0.7152 * d
  }

  /** The luma of the fully saturated colour of a hue in degrees, as
      `hcyToRgbF` derives it. */
  function HueLumaAt(h: real): real {
    var hu := h / 60.0;
    HueLuma(Trunc(hu), Share(hu, Trunc(hu)))
  }

  lemma ShareBounds(h: real)
    requires 0.0 <= h
    ensures 0.0 <= Share(h, Trunc(h)) <= 1.0
  {
  }

  /** A share in [0, 1] keeps the hue's luma strictly between black and
      white. */
  lemma HueLumaRange(sector: int, d: real)
    requires 0.0 <= d <= 1.0
    ensures 0.0722 <= HueLuma(sector, d) <= 0.9278
  {
  }

  /** The share is what the HSV deviation leaves over. */
  lemma ShareComplement(h: real, sector: int)
    ensures Share(h, sector) == 1.0 - Deviation(h, sector)
  {
  }

  // ---------------------------------------------------------------------
  // Chroma limit

  /** The divisor of the chroma limit is not zero. */
  predicate LimitDefined(y: real, yHue: real) {
    if y <= yHue then yHue != 0.0 else yHue != 1.0
  }

  /** The largest chroma of a hue of luma `yHue` drawn at luma `y`: up to
      the hue's own luma the smallest channel reaches 0 first, above it the
      largest reaches 1. */
  function ChromaLimit(y: real, yHue: real): real
    requires LimitDefined(y, yHue)
  {
    if y <= yHue then Div(y, yHue) else Div(1.0 - y, 1.0 - yHue)
  }

  lemma ChromaLimitRange(y: real, yHue: real)
    requires 0.0 < yHue < 1.0 && 0.0 <= y <= 1.0
    ensures 0.0 <= ChromaLimit(y, yHue) <= 1.0
    ensures y == 0.0 || y == 1.0 ==> ChromaLimit(y, yHue) == 0.0
  {
    if y <= yHue {
      DivIs(y, yHue);
      DivNonneg(y, yHue);
      DivAtMostOne(y, yHue);
    } else {
      DivIs(1.0 - y, 1.0 - yHue);
      DivNonneg(1.0 - y, 1.0 - yHue);
      DivAtMostOne(1.0 - y, 1.0 - yHue);
    }
  }

  /** The chroma limit of a hue in degrees and a luma in percent. */
  function HcyLimit(h: real, y: real): (u: real)
    requires 0.0 <= h && 0.0 <= y <= 100.0
    ensures 0.0 <= u <= 1.0
    ensures y == 0.0 || y == 100.0 ==> u == 0.0
  {
    ShareBounds(h / 60.0);
    HueLumaRange(Trunc(h / 60.0), Share(h / 60.0, Trunc(h / 60.0)));
    ChromaLimitRange(y / 100.0, HueLumaAt(h));
    ChromaLimit(y / 100.0, HueLumaAt(h))
  }

  // ---------------------------------------------------------------------
  // HCY to RGB

  /** `hcyToRgbF` takes a luma of -1 as a request for the hue's own luma,
      and scales any other from percent. */
  function LumaIn(y: real): real {
    if y != -1.0 then y / 100.0 else y
  }

  /** `hcyToRgbF` returns a neutral colour without looking at the hue. */
  predicate IsGray(c: real, y: real) {
    c == 0.0 || LumaIn(y) == 0.0 || LumaIn(y) == 1.0
  }

  /** The luma a chromatic colour is drawn at. The test for -1 follows the
      scaling, so a luma of -100 percent asks for the hue's luma too. */
  function TargetLuma(h: real, y: real): real {
    if LumaIn(y) == -1.0 then HueLumaAt(h) else LumaIn(y)
  }

  /** `hcyToRgbF` divides by the hue's luma or its complement only for a
      chromatic colour. */
  predicate HcyDefined(h: real, c: real, y: real) {
    IsGray(c, y) || LimitDefined(TargetLuma(h, y), HueLumaAt(h))
  }

  /** The chroma `hcyToRgbF` draws with, from its chroma argument `c` (in
      percent) and limit argument `u`: with `u` = -1 the chroma is clipped
      to the limit, otherwise `c / u` is a saturation that scales the
      limit (0 when `u` is 0). */
  function DrawnChroma(c: real, u: real, cMax: real): real {
    if u == -1.0 then (if c / 100.0 > cMax then cMax else c / 100.0)
    else if u != 0.0 then Mul(Div(c, u), cMax)
    else 0.0
  }

  /** `Convert.hcyToRgbF`: hue in degrees, chroma and luma in percent, the
      limit argument `u` as for `DrawnChroma`. With `luma` the result is
      made linear for a linear document; otherwise it is left as computed. */
  function HcyToRgbF(h: real, c: real, y: real, u: real, trc: Trc, luma: bool, n: Numerics): Rgb
    requires HcyDefined(h, c, y)
  {
    var hu := h / 60.0;
    var sector := Trunc(hu);
    var yy := LumaIn(y);
    if c == 0.0 || yy == 0.0 || yy == 1.0 then
      var g := if luma && trc == Linear then n.toLinear(yy) else yy;
      Rgb(g, g, g)
    else
      var d := Share(hu, sector);
      var yHue := HueLuma(sector, d);
      var target := if yy == -1.0 then yHue else yy;
      var k := DrawnChroma(c, u, ChromaLimit(target, yHue));
      Drawn(sector, d, target, k, if luma then trc else SRGB, n)
  }

  /** The colour of a sector and share drawn at luma `y` with chroma `k`:
      the smallest channel lies the hue's luma share of the chroma below
      `y`, the largest the rest of it above, and the middle channel the
      share `d` of the chroma above the smallest. */
  function Drawn(sector: int, d: real, y: real, k: real, trc: Trc, n: Numerics): Rgb {
    var yHue := HueLuma(sector, d);
    HSectorToRgbF(sector, y + Mul(k, 1.0 - yHue), y - Mul(k, yHue), y - Mul(k, yHue - d), trc, n)
  }

  /** No chroma, black or white: a neutral colour at the requested luma. */
  lemma HcyGray(h: real, c: real, y: real, u: real, trc: Trc, luma: bool, n: Numerics)
    requires c == 0.0 || y == 0.0 || y == 100.0
    ensures var rgb := HcyToRgbF(h, c, y, u, trc, luma, n);
      rgb.r == rgb.g == rgb.b && Chroma(rgb) == 0.0
    ensures var rgb := HcyToRgbF(h, c, y, u, trc, luma, n);
      (!luma || trc == SRGB) && y != -1.0 ==> rgb.r == y / 100.0
  {
    assert IsGray(c, y);
    var yy := LumaIn(y);
    var g := if luma && trc == Linear then n.toLinear(yy) else yy;
    assert HcyToRgbF(h, c, y, u, trc, luma, n) == Rgb(g, g, g);
  }

  /** Read with the BT.709 weights, the drawn colour has the luma it was
      asked for: the requested one, or the hue's own when -1 asks for it. */
  lemma HcyLuma(h: real, c: real, y: real, u: real, trc: Trc, luma: bool, n: Numerics)
    requires HcyDefined(h, c, y)
    requires !luma || trc == SRGB
    ensures IsGray(c, y) ==> Luma(HcyToRgbF(h, c, y, u, trc, luma, n)) == LumaIn(y)
    ensures !IsGray(c, y) ==> Luma(HcyToRgbF(h, c, y, u, trc, luma, n)) == TargetLuma(h, y)
  {
    if !IsGray(c, y) {
      var hu := h / 60.0;
      var sector := Trunc(hu);
      var d := Share(hu, sector);
      var target := TargetLuma(h, y);
      var k := DrawnChroma(c, u, ChromaLimit(target, HueLuma(sector, d)));
      assert HcyToRgbF(h, c, y, u, trc, luma, n) == Drawn(sector, d, target, k, SRGB, n);
      DrawnLuma(sector, d, target, k, n);
    }
  }

  /** Clip mode (`u` = -1) on a hue of non-negative degrees: the colour
      keeps the requested luma, its chroma is the requested one cut to the
      limit, and it lies inside the RGB cube. */
  lemma HcyClipped(h: real, c: real, y: real, trc: Trc, luma: bool, n: Numerics)
    requires 0.0 <= h && 0.0 <= c && 0.0 <= y <= 100.0
    requires !luma || trc == SRGB
    ensures HcyDefined(h, c, y)
    ensures var rgb := HcyToRgbF(h, c, y, -1.0, trc, luma, n);
      Luma(rgb) == y / 100.0 && Chroma(rgb) == Min(c / 100.0, HcyLimit(h, y)) && InUnitCube(rgb)
  {
    HcyLimitOf(h, y);
    HcyWithinLimit(h, c, y, -1.0, trc, luma, n);
  }

  /** Scale mode (`u` > 0, chroma at most `u`): the colour keeps the
      requested luma, its chroma is the saturation `c / u` times the limit,
      and it lies inside the RGB cube. */
  lemma HcyScaled(h: real, c: real, y: real, u: real, trc: Trc, luma: bool, n: Numerics)
    requires 0.0 <= h && 0.0 <= c <= u && 0.0 < u && 0.0 <= y <= 100.0
    requires !luma || trc == SRGB
    ensures HcyDefined(h, c, y)
    ensures var rgb := HcyToRgbF(h, c, y, u, trc, luma, n);
      Luma(rgb) == y / 100.0 && Chroma(rgb) == Mul(Div(c, u), HcyLimit(h, y)) && InUnitCube(rgb)
  {
    var cMax := HcyLimit(h, y);
    HcyLimitOf(h, y);
    SaturationRange(c, u);
    ScaleWithin(Div(c, u), cMax);
    if c == 0.0 {
      DivIs(c, u);
      if Div(c, u) > 0.0 {
        MulPos(Div(c, u), u);
      }
    }
    HcyWithinLimit(h, c, y, u, trc, luma, n);
  }

  /** A saturation in [0, 1] scales a limit to a chroma within it. */
  lemma ScaleWithin(s: real, cMax: real)
    requires 0.0 <= s <= 1.0 && 0.0 <= cMax
    ensures 0.0 <= Mul(s, cMax) <= cMax
    ensures s == 0.0 || cMax == 0.0 ==> Mul(s, cMax) == 0.0
  {
    MulLe(s, 1.0, cMax);
    MulNonneg(s, cMax);
  }

  lemma HcyLimitOf(h: real, y: real)
    requires 0.0 <= h && 0.0 <= y <= 100.0
    ensures y == 0.0 || y == 100.0 ==> HcyLimit(h, y) == 0.0
  {
    var hu := h / 60.0;
    ShareBounds(hu);
    HueLumaRange(Trunc(hu), Share(hu, Trunc(hu)));
    ChromaLimitRange(y / 100.0, HueLumaAt(h));
  }

  /** On a hue of non-negative degrees and a luma in [0, 100], whenever the
      chroma drawn lies within the limit the colour keeps the requested
      luma, has the drawn chroma (none for a neutral colour) and lies inside
      the RGB cube. */
  lemma HcyWithinLimit(h: real, c: real, y: real, u: real, trc: Trc, luma: bool, n: Numerics)
    requires 0.0 <= h && 0.0 <= y <= 100.0
    requires !luma || trc == SRGB
    requires 0.0 <= DrawnChroma(c, u, HcyLimit(h, y)) <= HcyLimit(h, y)
    ensures HcyDefined(h, c, y)
    ensures var rgb := HcyToRgbF(h, c, y, u, trc, luma, n);
      Luma(rgb) == y / 100.0 && InUnitCube(rgb)
      && Chroma(rgb) == if IsGray(c, y) then 0.0 else DrawnChroma(c, u, HcyLimit(h, y))
  {
    if IsGray(c, y) {
      GrayIs(h, c, y, u, trc, luma, n);
    } else {
      ChromaticWithinLimit(h, c, y, u, trc, luma, n);
    }
  }

  lemma GrayIs(h: real, c: real, y: real, u: real, trc: Trc, luma: bool, n: Numerics)
    requires 0.0 <= y <= 100.0
    requires !luma || trc == SRGB
    requires IsGray(c, y)
    ensures HcyToRgbF(h, c, y, u, trc, luma, n) == Rgb(y / 100.0, y / 100.0, y / 100.0)
  {
  }

  lemma ChromaticWithinLimit(h: real, c: real, y: real, u: real, trc: Trc, luma: bool, n: Numerics)
    requires 0.0 <= h && 0.0 <= y <= 100.0
    requires !luma || trc == SRGB
    requires 0.0 <= DrawnChroma(c, u, HcyLimit(h, y)) <= HcyLimit(h, y)
    requires !IsGray(c, y)
    ensures HcyDefined(h, c, y)
    ensures var rgb := HcyToRgbF(h, c, y, u, trc, luma, n);
      Luma(rgb) == y / 100.0 && InUnitCube(rgb) && Chroma(rgb) == DrawnChroma(c, u, HcyLimit(h, y))
  {
    var hu := h / 60.0;
    ShareBounds(hu);
    HcyLimitIs(h, y);
    ChromaticIs(h, c, y, u, trc, luma, n);
    DrawnWithin(HcyToRgbF(h, c, y, u, trc, luma, n), Trunc(hu), Share(hu, Trunc(hu)), y / 100.0,
      DrawnChroma(c, u, HcyLimit(h, y)), HcyLimit(h, y), n);
  }

  lemma HcyLimitIs(h: real, y: real)
    requires 0.0 <= h && 0.0 <= y <= 100.0
    ensures var hu := h / 60.0;
      HcyLimit(h, y) == ChromaLimit(y / 100.0, HueLuma(Trunc(hu), Share(hu, Trunc(hu))))
  {
  }

  /** A colour drawn within the limit has the luma and chroma it was drawn
      with, inside the RGB cube. */
  lemma DrawnWithin(rgb: Rgb, sector: int, d: real, y: real, k: real, limit: real, n: Numerics)
    requires 0.0 <= d <= 1.0 && 0.0 <= y <= 1.0
    requires limit == ChromaLimit(y, HueLuma(sector, d)) && 0.0 <= k <= limit
    requires rgb == Drawn(sector, d, y, k, SRGB, n)
    ensures Luma(rgb) == y && InUnitCube(rgb) && Chroma(rgb) == k
  {
    DrawnInCube(sector, d, y, k, n);
    DrawnLuma(sector, d, y, k, n);
  }

  /** On a hue of non-negative degrees and a luma in [0, 100] a chromatic
      colour is the one drawn at the requested luma with the chroma
      `DrawnChroma` gives for the limit. */
  lemma ChromaticIs(h: real, c: real, y: real, u: real, trc: Trc, luma: bool, n: Numerics)
    requires 0.0 <= h && 0.0 <= y <= 100.0
    requires !luma || trc == SRGB
    requires !IsGray(c, y)
    ensures HcyDefined(h, c, y)
    ensures var hu := h / 60.0;
      HcyToRgbF(h, c, y, u, trc, luma, n)
      == Drawn(Trunc(hu), Share(hu, Trunc(hu)), y / 100.0, DrawnChroma(c, u, HcyLimit(h, y)), SRGB, n)
  {
    var hu := h / 60.0;
    ShareBounds(hu);
    HueLumaRange(Trunc(hu), Share(hu, Trunc(hu)));
  }

  /** Drawn with a share in [0, 1] and a chroma `k` within the limit, the
      colour has chroma `k` and lies inside the RGB cube. */
  lemma DrawnInCube(sector: int, d: real, y: real, k: real, n: Numerics)
    requires 0.0 <= d <= 1.0 && 0.0 <= y <= 1.0
    requires 0.0 <= k <= ChromaLimit(y, HueLuma(sector, d))
    ensures Chroma(Drawn(sector, d, y, k, SRGB, n)) == k && InUnitCube(Drawn(sector, d, y, k, SRGB, n))
  {
    var yHue := HueLuma(sector, d);
    HueLumaRange(sector, d);
    var v, m, x := y + Mul(k, 1.0 - yHue), y - Mul(k, yHue), y - Mul(k, yHue - d);
    SrgbLayout(sector, v, m, x, n);
    LayoutOrder(yHue, d, y, k);
    ArrangeExtremes(sector, v, m, x);
    WithinLimit(y, yHue, k);
  }

  /** The BT.709 luma of a drawn colour is the luma it was drawn at, in
      every sector. */
  lemma DrawnLuma(sector: int, d: real, y: real, k: real, n: Numerics)
    ensures Luma(Drawn(sector, d, y, k, SRGB, n)) == y
  {
    var yHue := HueLuma(sector, d);
    var v, m, x := y + Mul(k, 1.0 - yHue), y - Mul(k, yHue), y - Mul(k, yHue - d);
    SrgbLayout(sector, v, m, x, n);
    MulIs(k, yHue);
    MulIs(k, yHue - d);
    MulIs(k, 1.0 - yHue);
    assert v == m + k && x == m + k * d;
    assert m == y - k * yHue;
  }

  /** The three channels are ordered, the middle one a share `d` of the
      chroma above the smallest. */
  lemma LayoutOrder(yHue: real, d: real, y: real, k: real)
    requires 0.0 <= d <= 1.0 && 0.0 <= k
    ensures y - Mul(k, yHue) <= y - Mul(k, yHue - d) <= y + Mul(k, 1.0 - yHue)
    ensures (y + Mul(k, 1.0 - yHue)) - (y - Mul(k, yHue)) == k
  {
    MulIs(k, yHue);
    MulIs(k, yHue - d);
    MulIs(k, 1.0 - yHue);
    MulNonneg(k, d);
    MulNonneg(k, 1.0 - d);
  }

  /** A chroma within the limit keeps the smallest channel at or above 0
      and the largest at or below 1. */
  lemma WithinLimit(y: real, yHue: real, k: real)
    requires 0.0 < yHue < 1.0 && 0.0 <= y <= 1.0
    requires 0.0 <= k <= ChromaLimit(y, yHue)
    ensures 0.0 <= y - Mul(k, yHue) && y + Mul(k, 1.0 - yHue) <= 1.0
  {
    MulIs(k, yHue);
    MulIs(k, 1.0 - yHue);
    if y <= yHue {
      var q := Div(y, yHue);
      DivIs(y, yHue);
      MulLe(k, q, yHue);
      MulLe(k, q, 1.0 - yHue);
      assert q * (1.0 - yHue) == q - y;
      DivAtMostOne(y, yHue);
    } else {
      var q := Div(1.0 - y, 1.0 - yHue);
      DivIs(1.0 - y, 1.0 - yHue);
      MulLe(k, q, 1.0 - yHue);
      MulLe(k, q, yHue);
      assert q * yHue == q - (1.0 - y);
      DivAtMostOne(1.0 - y, 1.0 - yHue);
    }
  }

  // ---------------------------------------------------------------------
  // RGB to HCY

  /** Which test of `rgbFToHcy` picks the hue formula: green is checked
      first, then blue, then red. A neutral colour is placed by its
      previous hue in degrees instead. */
  datatype Lead = GreenLead | BlueLead | RedLead

  function LeadOf(e: Rgb, h: real): Lead {
    var k, v := Chroma(e), MaxOf(e);
    if (k != 0.0 && v == e.g) || (k == 0.0 && 60.0 <= h <= 180.0) then GreenLead
    else if (k != 0.0 && v == e.b) || (k == 0.0 && 180.0 < h <= 300.0) then BlueLead
    else RedLead
  }

  /** The hue in sectors: from the channels, or from the previous hue of a
      neutral colour. */
  function LeadHue(e: Rgb, h: real): real {
    var k := Chroma(e);
    if k == 0.0 then h / 60.0
    else match LeadOf(e, h)
      case GreenLead => Div(e.b - e.r, k) + 2.0
      case BlueLead => Div(e.r - e.g, k) + 4.0
      case RedLead => PyMod(Div(e.g - e.b, k), 6.0)
  }

  /** The luma of the hue's fully saturated colour as `rgbFToHcy` computes
      it: each lead covers the two sectors around its primary, and a hue
      outside them gives 0. */
  function LeadLuma(lead: Lead, hs: real): real {
    match lead
    case GreenLead =>
      if 1.0 <= hs <= 2.0 then 0.7152 + 0.2126 * (1.0 - (hs - 1.0))
      else if 2.0 < hs <= 3.0 then 0.7152 + 0.0722 * (hs - 2.0)
      else 0.0
    case BlueLead =>
      if 3.0 < hs <= 4.0 then 0.0722 + 0.7152 * (1.0 - (hs - 3.0))
      else if 4.0 < hs <= 5.0 then 0.0722 + 0.2126 * (hs - 4.0)
      else 0.0
    case RedLead =>
      if 5.0 < hs <= 6.0 then 0.2126 + 0.0722 * (1.0 - (hs - 5.0))
      else if 0.0 <= hs < 1.0 then 0.2126 + 0.7152 * hs
      else 0.0
  }

  /** `rgbFToHcy` divides by the hue's luma or its complement. */
  predicate HcyOfDefined(e: Rgb, h: real) {
    LimitDefined(Luma(e), LeadLuma(LeadOf(e, h), LeadHue(e, h)))
  }

  /** `rgbFToHcy` before rounding, on the channels it reads luma from: hue
      in degrees, then chroma, luma and chroma limit in percent. A neutral
      colour keeps the previous hue. */
  function HcyOf(e: Rgb, h: real): (hcy: (real, real, real, real))
    requires HcyOfDefined(e, h)
    ensures Chroma(e) == 0.0 ==> hcy.0 == h
  {
    var hs := LeadHue(e, h);
    (hs * 60.0, Chroma(e) * 100.0, Luma(e) * 100.0, ChromaLimit(Luma(e), LeadLuma(LeadOf(e, h), hs)) * 100.0)
  }

  /** The channels `rgbFToHcy` reads: made sRGB first when luma (rather
      than relative luminance) is asked for. */
  function LumaInput(c: Rgb, trc: Trc, luma: bool, n: Numerics): Rgb {
    if luma then SrgbOf(c, trc, n) else c
  }

  /** `Convert.rgbFToHcy`: the exact values rounded to 2, 3, 2 and 3
      decimals. */
  function RgbFToHcy(c: Rgb, h: real, trc: Trc, luma: bool, n: Numerics): (hcy: (real, real, real, real))
    requires HcyOfDefined(LumaInput(c, trc, luma, n), h)
    ensures var e := LumaInput(c, trc, luma, n);
      hcy.1 == n.roundTo(Chroma(e) * 100.0, 3) && hcy.2 == n.roundTo(Luma(e) * 100.0, 2)
      && (Chroma(e) == 0.0 ==> hcy.0 == n.roundTo(h, 2))
  {
    var exact := HcyOf(LumaInput(c, trc, luma, n), h);
    (n.roundTo(exact.0, 2), n.roundTo(exact.1, 3), n.roundTo(exact.2, 2), n.roundTo(exact.3, 3))
  }

  /** For a chromatic colour the lead's formula gives the HSV hue: where
      two channels tie for the largest, testing green first lands on the
      same sector boundary as testing red first. */
  lemma HcyHueIsHsvHue(e: Rgb, h: real)
    requires Chroma(e) != 0.0
    ensures LeadHue(e, h) == Hue(e)
  {
    var k, v := Chroma(e), MaxOf(e);
    DivUnit(k);
    if v == e.g && v == e.r {
      assert e.b == MinOf(e);
      assert e.g - e.b == k && e.b - e.r == -k;
    } else if v != e.g && v == e.b && v == e.r {
      assert e.g == MinOf(e);
      assert e.g - e.b == -k && e.r - e.g == k;
    }
  }

  /** For a chromatic colour the luma `rgbFToHcy` gives the hue is the one
      `hcyToRgbF` derives from the same hue. */
  lemma LeadLumaAgrees(e: Rgb, h: real)
    requires Chroma(e) != 0.0
    ensures var hs := LeadHue(e, h);
      LeadLuma(LeadOf(e, h), hs) == HueLuma(Trunc(hs), Share(hs, Trunc(hs)))
  {
    var k, v := Chroma(e), MaxOf(e);
    var hs := LeadHue(e, h);
    match LeadOf(e, h)
    case GreenLead =>
      Ratio(e.b - e.r, k);
      GreenLuma(hs);
    case BlueLead =>
      Ratio(e.r - e.g, k);
      BlueLuma(hs);
    case RedLead =>
      Ratio(e.g - e.b, k);
      RedLuma(hs);
  }

  lemma GreenLuma(hs: real)
    requires 1.0 <= hs <= 3.0
    ensures LeadLuma(GreenLead, hs) == HueLuma(Trunc(hs), Share(hs, Trunc(hs)))
  {
  }

  lemma BlueLuma(hs: real)
    requires 3.0 < hs <= 5.0
    ensures LeadLuma(BlueLead, hs) == HueLuma(Trunc(hs), Share(hs, Trunc(hs)))
  {
  }

  lemma RedLuma(hs: real)
    requires 0.0 <= hs < 1.0 || 5.0 < hs < 6.0
    ensures LeadLuma(RedLead, hs) == HueLuma(Trunc(hs), Share(hs, Trunc(hs)))
  {
  }

  /** The luma of a chromatic colour lies strictly between its smallest
      and largest channel. */
  lemma LumaBetween(e: Rgb)
    requires Chroma(e) != 0.0
    ensures MinOf(e) < Luma(e) < MaxOf(e)
  {
  }

  /** The luma of a sector's layout, with the middle channel a share `d` of
      the chroma `k` above the smallest channel `m`: `m` plus the hue's luma
      share of the chroma. */
  lemma ArrangeLuma(sector: int, m: real, k: real, d: real)
    ensures Luma(Arrange(sector, m + k, m, m + Mul(k, d))) == m + Mul(k, HueLuma(sector, d))
  {
    MulIs(k, d);
    MulIs(k, HueLuma(sector, d));
  }

  /** The chroma of a colour inside the RGB cube is within the limit of
      its hue and luma. */
  lemma ChromaFits(m: real, k: real, yHue: real, y: real)
    requires 0.0 <= m && m + k <= 1.0 && 0.0 <= k && 0.0 < yHue < 1.0
    requires y == m + Mul(k, yHue)
    ensures k <= ChromaLimit(y, yHue)
  {
    MulIs(k, yHue);
    if y <= yHue {
      DivIs(y, yHue);
      NoRoom(Div(y, yHue), k, yHue, y, m);
    } else {
      DivIs(1.0 - y, 1.0 - yHue);
      assert 1.0 - y == (1.0 - m - k) + k * (1.0 - yHue);
      NoRoom(Div(1.0 - y, 1.0 - yHue), k, 1.0 - yHue, 1.0 - y, 1.0 - m - k);
    }
  }

  /** If `y` is `q` times `a` and also `m` more than `k` times `a`, with
      `m` non-negative, then `k` is at most `q`. */
  lemma NoRoom(q: real, k: real, a: real, y: real, m: real)
    requires a > 0.0 && q * a == y && y == m + k * a && m >= 0.0
    ensures k <= q
  {
    if q < k {
      MulLt(q, k, a);
    }
  }

  /** Drawing at the luma `m + k·yHue` with chroma `k` puts back the
      largest channel `m + k`, the smallest `m`, and the middle one
      `m + k·d`. */
  lemma Undraw(m: real, k: real, yHue: real, d: real)
    ensures var y := m + Mul(k, yHue);
      y + Mul(k, 1.0 - yHue) == m + k && y - Mul(k, yHue) == m && y - Mul(k, yHue - d) == m + Mul(k, d)
  {
    MulIs(k, yHue);
    MulIs(k, 1.0 - yHue);
    MulIs(k, yHue - d);
    MulIs(k, d);
  }

  /** The middle channel of the HSV layout is the share `d` of the chroma
      above the smallest channel. */
  lemma MiddleShare(v: real, k: real, hs: real)
    ensures Middle(v, hs, k) == (v - k) + Mul(k, Share(hs, Trunc(hs)))
  {
    ShareComplement(hs, Trunc(hs));
    MulIs(Deviation(hs, Trunc(hs)), k);
    MulIs(k, Share(hs, Trunc(hs)));
  }

  /** `hcyToRgbF` in clip mode, on the exact values `rgbFToHcy` computes
      for a colour inside the sRGB cube, gives the colour back. */
  lemma {:induction false} HcyRoundTrip(e: Rgb, h: real, n: Numerics)
    requires InUnitCube(e)
    requires Chroma(e) != 0.0 || HcyOfDefined(e, h)
    ensures HcyOfDefined(e, h)
    ensures var t := HcyOf(e, h);
      t.1 <= t.3 && HcyDefined(t.0, t.1, t.2) && HcyToRgbF(t.0, t.1, t.2, -1.0, SRGB, false, n) == e
  {
    if Chroma(e) == 0.0 {
      Neutral(e);
      NeutralRoundTrip(e, h, n);
    } else {
      ChromaticRoundTrip(e, h, n);
    }
  }

  lemma NeutralRoundTrip(e: Rgb, h: real, n: Numerics)
    requires InUnitCube(e) && Chroma(e) == 0.0 && HcyOfDefined(e, h)
    ensures var t := HcyOf(e, h);
      t.1 <= t.3 && HcyDefined(t.0, t.1, t.2) && HcyToRgbF(t.0, t.1, t.2, -1.0, SRGB, false, n) == e
  {
    NeutralHcy(e, h);
    var t := HcyOf(e, h);
    GrayAt(t.0, t.2, n);
  }

  /** A neutral colour inside the cube has no chroma, luma its channels'
      common value, and a limit of at least 0. */
  lemma NeutralHcy(e: Rgb, h: real)
    requires InUnitCube(e) && Chroma(e) == 0.0 && HcyOfDefined(e, h)
    ensures var t := HcyOf(e, h);
      t.1 == 0.0 && t.2 == e.r * 100.0 && t.3 >= 0.0 && e == Rgb(e.r, e.r, e.r) && 0.0 <= e.r <= 1.0
  {
    Neutral(e);
    var lead := LeadOf(e, h);
    LeadLumaRange(lead, LeadHue(e, h));
    ChromaLimitNonneg(Luma(e), LeadLuma(lead, LeadHue(e, h)));
  }

  /** No chroma, clip mode: the neutral colour of the requested luma. */
  lemma GrayAt(h: real, y: real, n: Numerics)
    requires 0.0 <= y <= 100.0
    ensures HcyDefined(h, 0.0, y)
    ensures HcyToRgbF(h, 0.0, y, -1.0, SRGB, false, n) == Rgb(y / 100.0, y / 100.0, y / 100.0)
  {
  }

  lemma LeadLumaRange(lead: Lead, hs: real)
    ensures 0.0 <= LeadLuma(lead, hs) < 1.0
  {
  }

  lemma ChromaLimitNonneg(y: real, yHue: real)
    requires 0.0 <= y <= 1.0 && 0.0 <= yHue < 1.0 && LimitDefined(y, yHue)
    ensures ChromaLimit(y, yHue) >= 0.0
  {
    if y <= yHue {
      DivIs(y, yHue);
      DivNonneg(y, yHue);
    } else {
      DivIs(1.0 - y, 1.0 - yHue);
      DivNonneg(1.0 - y, 1.0 - yHue);
    }
  }

  lemma ChromaticRoundTrip(e: Rgb, h: real, n: Numerics)
    requires InUnitCube(e) && Chroma(e) != 0.0
    ensures HcyOfDefined(e, h)
    ensures var t := HcyOf(e, h);
      t.1 <= t.3 && HcyDefined(t.0, t.1, t.2) && HcyToRgbF(t.0, t.1, t.2, -1.0, SRGB, false, n) == e
  {
    ChromaticRedraw(e, h, n);
  }

  /** The exact values of a chromatic colour inside the cube, drawn back in
      clip mode, give the colour; its chroma is within the limit. */
  lemma ChromaticRedraw(e: Rgb, h: real, n: Numerics)
    requires InUnitCube(e) && Chroma(e) != 0.0
    ensures HcyOfDefined(e, h)
    ensures Chroma(e) <= ChromaLimit(Luma(e), LeadLuma(LeadOf(e, h), LeadHue(e, h)))
    ensures HcyDefined(LeadHue(e, h) * 60.0, Chroma(e) * 100.0, Luma(e) * 100.0)
    ensures HcyToRgbF(LeadHue(e, h) * 60.0, Chroma(e) * 100.0, Luma(e) * 100.0, -1.0, SRGB, false, n) == e
  {
    var k, m, y := Chroma(e), MinOf(e), Luma(e);
    var hs := LeadHue(e, h);
    ChromaticLayout(e, h);
    Redraw(hs, k, y, m, n);
  }

  /** Clip mode, asked for the hue `hs` (in sectors), chroma `k` within
      the limit, and a luma that is `m` plus the hue's luma share of `k`,
      draws the layout of the hue's sector with smallest channel `m`. */
  lemma Redraw(hs: real, k: real, y: real, m: real, n: Numerics)
    requires 0.0 <= hs && 0.0 < y < 1.0 && 0.0 < k
    requires var sector, d := Trunc(hs), Share(hs, Trunc(hs));
      y == m + Mul(k, HueLuma(sector, d)) && k <= ChromaLimit(y, HueLuma(sector, d))
    ensures HcyDefined(hs * 60.0, k * 100.0, y * 100.0)
    ensures HcyToRgbF(hs * 60.0, k * 100.0, y * 100.0, -1.0, SRGB, false, n)
      == Arrange(Trunc(hs), m + k, m, m + Mul(k, Share(hs, Trunc(hs))))
  {
    var h, c, yp := hs * 60.0, k * 100.0, y * 100.0;
    assert h / 60.0 == hs && c / 100.0 == k && yp / 100.0 == y;
    ChromaticIs(h, c, yp, -1.0, SRGB, false, n);
    DrawnBack(Trunc(hs), Share(hs, Trunc(hs)), y, m, k, n);
  }

  /** A chromatic colour inside the cube, seen the way `hcyToRgbF` draws:
      its hue's sector lays out the largest channel, the smallest, and the
      middle one a share of the chroma above the smallest; its luma is the
      smallest channel plus the hue's luma share of the chroma, strictly
      between 0 and 1; and its chroma is within the limit. */
  lemma ChromaticLayout(e: Rgb, h: real)
    requires InUnitCube(e) && Chroma(e) != 0.0
    ensures var hs := LeadHue(e, h);
      var sector, d := Trunc(hs), Share(hs, Trunc(hs));
      var yHue := HueLuma(sector, d);
      0.0 <= hs < 6.0 && 0.0 <= d <= 1.0 && 0.0 < yHue < 1.0
      && LeadLuma(LeadOf(e, h), hs) == yHue
      && e == Arrange(sector, MinOf(e) + Chroma(e), MinOf(e), MinOf(e) + Mul(Chroma(e), d))
      && Luma(e) == MinOf(e) + Mul(Chroma(e), yHue) && 0.0 < Luma(e) < 1.0
      && Chroma(e) <= ChromaLimit(Luma(e), yHue)
  {
    var k, v, m, y := Chroma(e), MaxOf(e), MinOf(e), Luma(e);
    var hs := LeadHue(e, h);
    HcyHueIsHsvHue(e, h);
    LeadLumaAgrees(e, h);
    var sector, d := Trunc(hs), Share(hs, Trunc(hs));
    var yHue := HueLuma(sector, d);
    ShareBounds(hs);
    HueLumaRange(sector, d);
    SectorRoundTrip(e);
    MiddleShare(v, k, hs);
    ArrangeLuma(sector, m, k, d);
    ChromaFits(m, k, yHue, y);
    LumaBetween(e);
  }

  /** Drawn at the luma of a layout whose middle channel is the share `d`
      of the chroma above the smallest, the layout comes back. */
  lemma DrawnBack(sector: int, d: real, y: real, m: real, k: real, n: Numerics)
    requires y == m + Mul(k, HueLuma(sector, d))
    ensures Drawn(sector, d, y, k, SRGB, n) == Arrange(sector, m + k, m, m + Mul(k, d))
  {
    var yHue := HueLuma(sector, d);
    Undraw(m, k, yHue, d);
    SrgbLayout(sector, y + Mul(k, 1.0 - yHue), y - Mul(k, yHue), y - Mul(k, yHue - d), n);
  }
}
