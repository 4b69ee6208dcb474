/** Oklab to linear sRGB (`Convert.oklabToLinear`) and the structure of the
    four OK*-to-RGB conversions of hclsliders/colorconversion.py: how each one
    chooses the chroma it hands to `oklabToLinear`, its early returns, and the
    final per-component `clampF`. The gamut search itself (`findCuspLC`,
    `findGamutIntersection`, `getCs`, the chromatic branch of Okhsv) is taken
    as given through `Numerics`. */
module Oklab {
  import opened Scalars
  import opened ColorTypes

  /** A colour in Oklab coordinates. */
  datatype Lab = Lab(l: real, a: real, b: real)

  /** Coefficients of one row of a 3x3 matrix. */
  datatype Row = Row(x: real, y: real, z: real)

  function Dot(w: Row, p: real, q: real, r: real): real {
    w.x * p + w.y * q + w.z * r
  }

  /** Oklab to the cube roots of the cone responses (`l_`, `m_`, `s_`). */
  const LabToCone: seq<Row> := [
    Row(1.0, 0.3963377773761749, 0.2158037573099136),
    Row(1.0, -0.1055613458156586, -0.0638541728258133),
    Row(1.0, -0.0894841775298119, -1.2914855480194092)
  ]

  /** Cone responses to linear sRGB. */
  const ConeToRgb: seq<Row> := [
    Row(4.0767416360759574, -3.3077115392580616, 0.2309699031821044),
    Row(-1.2684379732850317, 2.6097573492876887, -0.3413193760026573),
    Row(-0.0041960761386756, -0.7034186179359362, 1.7076146940746117)
  ]

  function Cube(x: real): real {
    x * x * x
  }

  /** A 3x3 matrix applied to a column. */
  function Apply(m: seq<Row>, p: real, q: real, r: real): (real, real, real)
    requires |m| == 3
  {
    (Dot(m[0], p, q, r), Dot(m[1], p, q, r), Dot(m[2], p, q, r))
  }

  /** Oklab-style transform: the first matrix, cubing, the second matrix. */
  function Transform(toCone: seq<Row>, toRgb: seq<Row>, c: Lab): Rgb
    requires |toCone| == 3 && |toRgb| == 3
  {
    var k := Apply(toCone, c.l, c.a, c.b);
    var o := Apply(toRgb, Cube(k.0), Cube(k.1), Cube(k.2));
    Rgb(o.0, o.1, o.2)
  }

  /** `Convert.oklabToLinear`. */
  function OklabToLinear(c: Lab): (rgb: Rgb)
    ensures c.a == 0.0 && c.b == 0.0 ==>
      var w := Cube(c.l);
      rgb == Rgb(1.0000000000000002 * w, 0.9999999999999997 * w, 0.9999999999999999 * w)
  {
    Transform(LabToCone, ConeToRgb, c)
  }

  function Scale(t: real, c: Lab): Lab {
    Lab(t * c.l, t * c.a, t * c.b)
  }

  /** `oklabToLinear` is homogeneous of degree three: scaling the Oklab
      coordinates by `t` scales linear RGB by `t` cubed. */
  lemma OklabToLinearCubic(t: real, c: Lab)
    ensures var d := OklabToLinear(Scale(t, c)); var e := OklabToLinear(c);
      d.r == Cube(t) * e.r && d.g == Cube(t) * e.g && d.b == Cube(t) * e.b
  {
    TransformCubic(LabToCone, ConeToRgb, t, c);
  }

  /** Any transform of that shape is homogeneous of degree three, whatever
      the coefficients. */
  lemma TransformCubic(toCone: seq<Row>, toRgb: seq<Row>, t: real, c: Lab)
    requires |toCone| == 3 && |toRgb| == 3
    ensures var d := Transform(toCone, toRgb, Scale(t, c)); var e := Transform(toCone, toRgb, c);
      d.r == Cube(t) * e.r && d.g == Cube(t) * e.g && d.b == Cube(t) * e.b
  {
    var sc := Scale(t, c);
    var k := Apply(toCone, c.l, c.a, c.b);
    var ks := Apply(toCone, sc.l, sc.a, sc.b);
    TransformOf(toCone, toRgb, sc, ks);
    TransformOf(toCone, toRgb, c, k);
    ApplyScales(toCone, t, c, sc);
    CubedScales(toRgb, t, k, ks);
  }

  /** `Transform` through given cone responses `k`. */
  lemma TransformOf(toCone: seq<Row>, toRgb: seq<Row>, c: Lab, k: (real, real, real))
    requires |toCone| == 3 && |toRgb| == 3
    requires k == Apply(toCone, c.l, c.a, c.b)
    ensures var o := Apply(toRgb, Cube(k.0), Cube(k.1), Cube(k.2));
      Transform(toCone, toRgb, c) == Rgb(o.0, o.1, o.2)
  {
  }

  /** Cone responses scaled by `t` give linear RGB scaled by `t` cubed. */
  lemma CubedScales(toRgb: seq<Row>, t: real, k: (real, real, real), ks: (real, real, real))
    requires |toRgb| == 3
    requires ks.0 == t * k.0 && ks.1 == t * k.1 && ks.2 == t * k.2
    ensures var d := Apply(toRgb, Cube(ks.0), Cube(ks.1), Cube(ks.2));
      var e := Apply(toRgb, Cube(k.0), Cube(k.1), Cube(k.2));
      d.0 == Cube(t) * e.0 && d.1 == Cube(t) * e.1 && d.2 == Cube(t) * e.2
  {
    RowCubed(toRgb[0], t, k, ks);
    RowCubed(toRgb[1], t, k, ks);
    RowCubed(toRgb[2], t, k, ks);
  }

  lemma RowCubed(w: Row, t: real, k: (real, real, real), ks: (real, real, real))
    requires ks.0 == t * k.0 && ks.1 == t * k.1 && ks.2 == t * k.2
    ensures Dot(w, Cube(ks.0), Cube(ks.1), Cube(ks.2)) == Cube(t) * Dot(w, Cube(k.0), Cube(k.1), Cube(k.2))
  {
    CubeOfScaled(t, k.0, ks.0);
    CubeOfScaled(t, k.1, ks.1);
    CubeOfScaled(t, k.2, ks.2);
    DotScaledBy(w, Cube(t), Cube(k.0), Cube(k.1), Cube(k.2), Cube(ks.0), Cube(ks.1), Cube(ks.2));
  }

  lemma CubeOfScaled(t: real, x: real, y: real)
    requires y == t * x
    ensures Cube(y) == Cube(t) * Cube(x)
  {
    CubeScales(t, x);
  }

  lemma DotScaledBy(w: Row, s: real, p: real, q: real, r: real, sp: real, sq: real, sr: real)
    requires sp == s * p && sq == s * q && sr == s * r
    ensures Dot(w, sp, sq, sr) == s * Dot(w, p, q, r)
  {
    DotScales(w, s, p, q, r);
  }

  lemma ApplyScales(m: seq<Row>, t: real, c: Lab, sc: Lab)
    requires |m| == 3
    requires sc == Scale(t, c)
    ensures Apply(m, sc.l, sc.a, sc.b).0 == t * Apply(m, c.l, c.a, c.b).0
    ensures Apply(m, sc.l, sc.a, sc.b).1 == t * Apply(m, c.l, c.a, c.b).1
    ensures Apply(m, sc.l, sc.a, sc.b).2 == t * Apply(m, c.l, c.a, c.b).2
  {
    DotScales(m[0], t, c.l, c.a, c.b);
    DotScales(m[1], t, c.l, c.a, c.b);
    DotScales(m[2], t, c.l, c.a, c.b);
  }

  lemma DotScales(w: Row, t: real, p: real, q: real, r: real)
    ensures Dot(w, t * p, t * q, t * r) == t * Dot(w, p, q, r)
  {
  }

  lemma CubeScales(t: real, x: real)
    ensures Cube(t * x) == Cube(t) * Cube(x)
  {
  }

  /** The Oklab origin is linear black. */
  lemma OklabBlack()
    ensures OklabToLinear(Lab(0.0, 0.0, 0.0)) == Rgb(0.0, 0.0, 0.0)
  {
  }

  /** Oklab white misses linear white by a few units in the last place, and
      the final `clampF` (its snap above 0.999999) repairs it to exact white. */
  lemma OklabWhite()
    ensures OklabToLinear(Lab(1.0, 0.0, 0.0)) != Rgb(1.0, 1.0, 1.0)
    ensures ClampRgb(OklabToLinear(Lab(1.0, 0.0, 0.0))) == Rgb(1.0, 1.0, 1.0)
  {
    assert Cube(1.0) == 1.0;
  }

  // ---------------------------------------------------------------------
  // The toe of Okhsv/Okhsl lightness

  const K1: real := 0.206
  const K2: real := 0.03
  const K3: real := (1.0 + K1) / (1.0 + K2)

  /** `Convert.toeInv`; the source divides by zero at `x == -K2`. */
  function ToeInv(x: real): real
    requires x + K2 != 0.0
  {
    (x * x + K1 * x) / (K3 * (x + K2))
  }

  /** The inverse toe fixes both ends of the lightness range. */
  lemma ToeInvEnds()
    ensures ToeInv(0.0) == 0.0 && ToeInv(1.0) == 1.0
  {
    assert K3 * (1.0 + K2) == 1.0 + K1;
  }

  /** The inverse toe is increasing on non-negative lightness. */
  lemma ToeInvMonotone(x: real, y: real)
    requires 0.0 <= x <= y
    ensures ToeInv(x) <= ToeInv(y)
  {
    var dx, dy := K3 * (x + K2), K3 * (y + K2);
    var nx, ny := x * x + K1 * x, y * y + K1 * y;
    assert dx > 0.0 && dy > 0.0;
    // nx / dx <= ny / dy  <=>  nx * dy <= ny * dx
    assert nx * dy <= ny * dx by {
      assert ny * dx - nx * dy == K3 * (y - x) * (x * y + K2 * x + K2 * y + K1 * K2);
      assert x * y + K2 * x + K2 * y + K1 * K2 >= 0.0;
    }
    DivMonotone(nx, dx, ny, dy);
  }

  lemma DivMonotone(nx: real, dx: real, ny: real, dy: real)
    requires dx > 0.0 && dy > 0.0 && nx * dy <= ny * dx
    ensures nx / dx <= ny / dy
  {
    assert nx / dx == (nx * dy) / (dx * dy);
    assert ny / dy == (ny * dx) / (dx * dy);
  }

  // ---------------------------------------------------------------------
  // Shared tail of the OK*-to-RGB conversions

  /** `oklabToLinear`, then `componentToSRGB` when the output is sRGB, then
      `clampF` on each component. */
  function LabToRgbF(c: Lab, trc: Trc, n: Numerics): (rgb: Rgb)
    ensures InUnitCube(rgb)
  {
    ClampRgb(EncodeFor(OklabToLinear(c), trc, n))
  }

  /** The neutral colour of Oklab lightness `l`. */
  function Gray(l: real, trc: Trc, n: Numerics): Rgb {
    LabToRgbF(Lab(l, 0.0, 0.0), trc, n)
  }

  /** A point at hue `h` (degrees) and chroma `c` of lightness `l`. */
  function Polar(l: real, c: real, h: real, n: Numerics): (p: Lab)
    ensures c == 0.0 ==> p == Lab(l, 0.0, 0.0)
  {
    Lab(l, n.cosDeg(h) * c, n.sinDeg(h) * c)
  }

  // ---------------------------------------------------------------------
  // OKLCH

  /** Chroma chosen by `oklchToRgbF` for a non-zero chroma: clipped to the
      gamut limit `cMax` when `u == -1`, otherwise rescaled by the ratio of
      the chroma to the stored limit `u` (each offset by 0.00005). */
  function OklchChroma(c: real, u: real, cMax: real): (r: real)
    requires u + 0.00005 != 0.0
    ensures u == -1.0 ==> r <= cMax && (c <= cMax ==> r == c) && (c > cMax ==> r == cMax)
    ensures u != -1.0 && c == u ==> r == cMax
  {
    if u == -1.0 then (if c > cMax then cMax else c)
    else
      var f := (c + 0.00005) / (u + 0.00005);
      assert c == u ==> f == 1.0 by { if c == u { DivSelf(u + 0.00005); } }
      f * cMax
  }

  /** Rescaling keeps a chroma below its stored limit below the gamut limit. */
  lemma OklchChromaScaled(c: real, u: real, cMax: real)
    requires u != -1.0 && 0.0 <= c <= u && cMax >= 0.0
    ensures 0.0 <= OklchChroma(c, u, cMax) <= cMax
  {
    var f := (c + 0.00005) / (u + 0.00005);
    DivNonneg(c + 0.00005, u + 0.00005);
    DivAtMostOne(c + 0.00005, u + 0.00005);
    MulNonneg(f, cMax);
    MulLe(f, 1.0, cMax);
    assert OklchChroma(c, u, cMax) == f * cMax;
  }

  /** `Convert.oklchToRgbF(l, c, h, u, trc)` with `l` in percent. */
  function OklchToRgbF(l: real, c: real, h: real, u: real, trc: Trc, n: Numerics): (rgb: Rgb)
    requires c != 0.0 ==> u + 0.00005 != 0.0
    ensures InUnitCube(rgb)
    ensures c == 0.0 ==> rgb == Gray(l / 100.0, trc, n)
  {
    var l1 := l / 100.0;
    var c1 := if c != 0.0 then OklchChroma(c, u, n.gamut(n.cosDeg(h), n.sinDeg(h), l1)) else c;
    LabToRgbF(Polar(l1, c1, h, n), trc, n)
  }

  /** In clip mode the chroma `oklchToRgbF` draws is never beyond the gamut
      limit and is the requested chroma whenever that is inside it. */
  lemma OklchClip(l: real, c: real, h: real, trc: Trc, n: Numerics)
    requires c != 0.0
    ensures var cMax := n.gamut(n.cosDeg(h), n.sinDeg(h), l / 100.0);
      OklchToRgbF(l, c, h, -1.0, trc, n) == LabToRgbF(Polar(l / 100.0, Min(c, cMax), h, n), trc, n)
  {
  }

  /** With zero chroma the hue and the stored limit play no part. */
  lemma OklchZeroChromaHueFree(l: real, h1: real, u1: real, h2: real, u2: real, trc: Trc, n: Numerics)
    ensures OklchToRgbF(l, 0.0, h1, u1, trc, n) == OklchToRgbF(l, 0.0, h2, u2, trc, n)
  {
  }

  // ---------------------------------------------------------------------
  // OKHCL

  /** Chroma chosen by `okhclToRgbF` for a non-zero chroma `c` given in
      percent of the cusp chroma `cuspC`: clipped to `cMax` when `u == -1`,
      otherwise scaled by `c / u`. */
  function OkhclChroma(c: real, u: real, cuspC: real, cMax: real): (r: real)
    requires u != -1.0 ==> u != 0.0
    ensures u == -1.0 ==> r <= cMax
    ensures u == -1.0 && c / 100.0 * cuspC <= cMax ==> r == c / 100.0 * cuspC
    ensures u != -1.0 && c == u ==> r == cMax
  {
    if u == -1.0 then
      var c1 := c / 100.0 * cuspC;
      if c1 > cMax then cMax else c1
    else c / u * cMax
  }

  /** `rgbFToOkhcl` stores chroma and limit in percent of the cusp chroma;
      reading them back with the same cusp and the same gamut limit gives
      back the chroma, in either mode. */
  lemma OkhclChromaRoundTrip(c: real, cuspC: real, cMax: real)
    requires cuspC != 0.0 && 0.0 <= c <= cMax
    ensures OkhclChroma(c / cuspC * 100.0, -1.0, cuspC, cMax) == c
    ensures cMax != 0.0 ==> OkhclChroma(c / cuspC * 100.0, cMax / cuspC * 100.0, cuspC, cMax) == c
  {
    assert c / cuspC * 100.0 / 100.0 * cuspC == c;
    if cMax != 0.0 {
      var u := cMax / cuspC * 100.0;
      assert u != 0.0;
      assert (c / cuspC * 100.0) / u == c / cMax;
      assert c / cMax * cMax == c;
    }
  }

  /** `Convert.okhclToRgbF(h, c, l, u, trc)` with `c`, `l`, `u` in percent. */
  function OkhclToRgbF(h: real, c: real, l: real, u: real, trc: Trc, n: Numerics): (rgb: Rgb)
    requires l / 100.0 + K2 != 0.0
    requires c != 0.0 && u != -1.0 ==> u != 0.0
    ensures InUnitCube(rgb)
    ensures c == 0.0 ==> rgb == Gray(ToeInv(l / 100.0), trc, n)
  {
    var l1 := ToeInv(l / 100.0);
    var a, b := n.cosDeg(h), n.sinDeg(h);
    var c1 := if c != 0.0 then OkhclChroma(c, u, n.cusp(a, b).1, n.gamut(a, b, l1)) else c;
    LabToRgbF(Polar(l1, c1, h, n), trc, n)
  }

  // ---------------------------------------------------------------------
  // OKHSV

  /** `Convert.okhsvToRgbF(h, s, v, trc)` with `s` and `v` in percent. */
  function OkhsvToRgbF(h: real, s: real, v: real, trc: Trc, n: Numerics): (rgb: Rgb)
    requires v != 0.0 && s == 0.0 ==> v / 100.0 + K2 != 0.0
    ensures InUnitCube(rgb)
    ensures v == 0.0 ==> rgb == Rgb(0.0, 0.0, 0.0)
    ensures v != 0.0 && s == 0.0 ==> rgb == Gray(ToeInv(v / 100.0), trc, n)
  {
    var s1, v1 := s / 100.0, v / 100.0;
    if v1 == 0.0 then Rgb(0.0, 0.0, 0.0)
    else
      var lin := if s1 == 0.0 then OklabToLinear(Lab(ToeInv(v1), 0.0, 0.0)) else n.okhsvLinear(h, s1, v1);
      ClampRgb(EncodeFor(lin, trc, n))
  }

  /** Full value and no saturation is Oklab white at any hue: exact white in
      linear mode, and the sRGB encoding of Oklab white otherwise. */
  lemma OkhsvWhite(h: real, trc: Trc, n: Numerics)
    ensures OkhsvToRgbF(h, 0.0, 100.0, trc, n) == Gray(1.0, trc, n)
    ensures trc == Linear ==> OkhsvToRgbF(h, 0.0, 100.0, trc, n) == Rgb(1.0, 1.0, 1.0)
  {
    var w := ToeInv(100.0 / 100.0);
    ToeInvEnds();
    assert w == 1.0;
    assert OkhsvToRgbF(h, 0.0, 100.0, trc, n) == Gray(w, trc, n);
    OklabWhite();
  }

  // ---------------------------------------------------------------------
  // OKHSL

  // The interpolation knot `mid` = 0.8 and its inverse `midInv` = 1.25 of
  // `okhslToRgbF` and `rgbFToOkhsl` appear below as literals.

  /** The chroma triple `(c0, cMid, cMax)` of `Convert.getCs`. */
  datatype Cs = Cs(c0: real, cMid: real, cMax: real)

  /** Where one segment of the interpolation divides by zero. */
  predicate InterpDefined(t: real, k2: real) {
    1.0 - k2 * t != 0.0
  }

  /** One segment of the chroma interpolation, `t * k1 / (1 - k2 * t)`. */
  function Interp(t: real, k1: real, k2: real): real
    requires InterpDefined(t, k2)
  {
    t * k1 / (1.0 - k2 * t)
  }

  /** Where the inverse of one segment divides by zero. */
  predicate InterpInvDefined(c: real, k1: real, k2: real) {
    k1 + k2 * c != 0.0
  }

  /** The inverse `rgbFToOkhsl` applies to one segment, `c / (k1 + k2 * c)`. */
  function InterpInv(c: real, k1: real, k2: real): real
    requires InterpInvDefined(c, k1, k2)
  {
    c / (k1 + k2 * c)
  }

  /** The constants `k1`, `k2` of the lower segment (s < 0.8). */
  function LowK1(cs: Cs): real {
    0.8 * cs.c0
  }

  function LowK2(cs: Cs): real
    requires cs.cMid != 0.0
  {
    1.0 - LowK1(cs) / cs.cMid
  }

  /** The numerator of the upper segment's `k1`. */
  function HighNum(cMid: real): real {
    (1.0 - 0.8) * Mul(cMid, cMid) * 1.25 * 1.25
  }

  lemma HighNumPositive(cMid: real)
    requires cMid > 0.0
    ensures HighNum(cMid) > 0.0
  {
    MulOfPositives(cMid, cMid);
  }

  /** The constants `k1`, `k2` of the upper segment (s >= 0.8). */
  function HighK1(cs: Cs): real
    requires cs.c0 != 0.0
  {
    HighNum(cs.cMid) / cs.c0
  }

  function HighK2(cs: Cs): real
    requires cs.c0 != 0.0 && cs.cMax != cs.cMid
  {
    1.0 - HighK1(cs) / (cs.cMax - cs.cMid)
  }

  /** The position `t` of `s` within its segment. */
  function LowT(s: real): real {
    1.25 * s
  }

  function HighT(s: real): real {
    (s - 0.8) / (1.0 - 0.8)
  }

  /** Where the chroma interpolation of `okhslToRgbF` divides by zero. */
  predicate ChromaDefined(s: real, cs: Cs) {
    if s < 0.8 then cs.cMid != 0.0 && InterpDefined(LowT(s), LowK2(cs))
    else cs.c0 != 0.0 && cs.cMax != cs.cMid && InterpDefined(HighT(s), HighK2(cs))
  }

  /** The chroma `okhslToRgbF` interpolates for saturation `s` in [0, 1]:
      0 at s = 0 with slope `c0`, `cMid` at s = 0.8, `cMax` at s = 1. */
  function OkhslChroma(s: real, cs: Cs): (c: real)
    requires ChromaDefined(s, cs)
    ensures s == 0.8 ==> c == cs.cMid
  {
    if s < 0.8 then Interp(LowT(s), LowK1(cs), LowK2(cs))
    else cs.cMid + Interp(HighT(s), HighK1(cs), HighK2(cs))
  }

  /** Where the inverse interpolation of `rgbFToOkhsl` divides by zero. */
  predicate SaturationDefined(c: real, cs: Cs) {
    if c < cs.cMid then cs.cMid != 0.0 && InterpInvDefined(c, LowK1(cs), LowK2(cs))
    else cs.c0 != 0.0 && cs.cMax != cs.cMid && InterpInvDefined(c - cs.cMid, HighK1(cs), HighK2(cs))
  }

  /** The saturation `rgbFToOkhsl` recovers from a chroma `c` of at least
      0.000001: its inverse of the interpolation above. */
  function OkhslSaturation(c: real, cs: Cs): (s: real)
    requires SaturationDefined(c, cs)
    ensures c == cs.cMid ==> s == 0.8
  {
    if c < cs.cMid then InterpInv(c, LowK1(cs), LowK2(cs)) * 0.8
    else 0.8 + (1.0 - 0.8) * InterpInv(c - cs.cMid, HighK1(cs), HighK2(cs))
  }

  /** The chroma triple of a hue and lightness where the interpolation is a
      proper curve: positive slope at grey and `cMid` strictly below `cMax`. */
  predicate Proper(cs: Cs) {
    0.0 < cs.c0 && 0.0 < cs.cMid < cs.cMax
  }

  lemma HighK1Positive(cs: Cs)
    requires Proper(cs)
    ensures HighK1(cs) > 0.0
  {
    HighNumPositive(cs.cMid);
    DivPos(HighNum(cs.cMid), cs.c0);
  }

  /** At full saturation the interpolation reaches the gamut limit. */
  lemma OkhslFullSaturation(cs: Cs)
    requires Proper(cs)
    ensures ChromaDefined(1.0, cs) && OkhslChroma(1.0, cs) == cs.cMax
  {
    HighK1Positive(cs);
    assert HighT(1.0) == 1.0;
    Segment(1.0, HighK1(cs), HighK2(cs), cs.cMax - cs.cMid);
  }

  /** `rgbFToOkhsl` inverts `okhslToRgbF`'s interpolation: for every
      saturation in [0, 1] the chroma drawn reads back as that saturation. */
  lemma OkhslRoundTrip(s: real, cs: Cs)
    requires Proper(cs) && 0.0 <= s <= 1.0
    ensures ChromaDefined(s, cs)
    ensures SaturationDefined(OkhslChroma(s, cs), cs)
    ensures OkhslSaturation(OkhslChroma(s, cs), cs) == s
  {
    if s < 0.8 {
      LowRoundTrip(s, cs);
    } else {
      HighRoundTrip(s, cs);
    }
  }

  lemma LowRoundTrip(s: real, cs: Cs)
    requires Proper(cs) && 0.0 <= s < 0.8
    ensures ChromaDefined(s, cs)
    ensures SaturationDefined(OkhslChroma(s, cs), cs)
    ensures OkhslSaturation(OkhslChroma(s, cs), cs) == s
  {
    var t, k1, k2 := LowT(s), LowK1(cs), LowK2(cs);
    Segment(t, k1, k2, cs.cMid);
    assert InterpInv(Interp(t, k1, k2), k1, k2) * 0.8 == s;
  }

  lemma HighRoundTrip(s: real, cs: Cs)
    requires Proper(cs) && 0.8 <= s <= 1.0
    ensures ChromaDefined(s, cs)
    ensures SaturationDefined(OkhslChroma(s, cs), cs)
    ensures OkhslSaturation(OkhslChroma(s, cs), cs) == s
  {
    var t, k1, k2 := HighT(s), HighK1(cs), HighK2(cs);
    HighK1Positive(cs);
    Segment(t, k1, k2, cs.cMax - cs.cMid);
    var e := Interp(t, k1, k2);
    assert cs.cMid + e - cs.cMid == e;
    assert 0.8 + (1.0 - 0.8) * InterpInv(e, k1, k2) == s;
  }

  /** One segment with `k2 = 1 - k1 / w`: for `t` in [0, 1] the denominator
      is positive, the chroma runs from 0 up to `w` (reaching it only at the
      end of the segment), and the inverse gives back `t`. */
  lemma Segment(t: real, k1: real, k2: real, w: real)
    requires 0.0 <= t <= 1.0 && k1 > 0.0 && w > 0.0 && k2 == 1.0 - k1 / w
    ensures 1.0 - k2 * t > 0.0 && InterpDefined(t, k2)
    ensures 0.0 <= Interp(t, k1, k2) <= w
    ensures t < 1.0 ==> Interp(t, k1, k2) < w
    ensures t == 1.0 ==> Interp(t, k1, k2) == w
    ensures InterpInvDefined(Interp(t, k1, k2), k1, k2)
    ensures InterpInv(Interp(t, k1, k2), k1, k2) == t
  {
    var d := Denominator(t, k1, w);
    var e := t * k1 / d;
    MulNonneg(t, k1);
    DivNonneg(t * k1, d);
    if t < 1.0 {
      LowBranch(t, k1, w, d, e);
    } else {
      EndOfSegment(k1, w);
    }
    Invert(t, k1, k2, d, e);
  }

  /** `1 - (1 - k1 / w) * t`, positive for t in [0, 1]. */
  function Denominator(t: real, k1: real, w: real): (d: real)
    requires 0.0 <= t <= 1.0 && k1 > 0.0 && w > 0.0
    ensures d > 0.0 && d == 1.0 - (1.0 - k1 / w) * t
  {
    var q := k1 / w;
    DivPos(k1, w);
    MulNonneg(t, q);
    assert t == 1.0 ==> t * q > 0.0;
    assert 1.0 - (1.0 - q) * t == (1.0 - t) + t * q;
    1.0 - (1.0 - q) * t
  }

  lemma EndOfSegment(k1: real, w: real)
    requires k1 > 0.0 && w > 0.0
    ensures 1.0 * k1 / (1.0 - (1.0 - k1 / w) * 1.0) == w
  {
    var q := k1 / w;
    DivPos(k1, w);
    assert 1.0 - (1.0 - q) * 1.0 == q;
    DivMulCancel(k1, w);
    MulToDiv(w, q, k1);
  }

  /** Before the end of a segment its chroma stays below the segment's width. */
  lemma LowBranch(t: real, k1: real, w: real, d: real, c: real)
    requires 0.0 <= t < 1.0 && k1 > 0.0 && w > 0.0
    requires d == 1.0 - (1.0 - k1 / w) * t && d > 0.0 && c == t * k1 / d
    ensures c < w
  {
    var q := k1 / w;
    DivMulCancel(k1, w);
    assert w * d == w * (1.0 - t) + t * (q * w);
    MulPos(w, 1.0 - t);
    assert t * k1 < w * d;
    DivMulCancel(t * k1, d);
    assert c * d < w * d;
  }

  /** `t * k1 / d` with `d = 1 - k2 * t` is undone by `c / (k1 + k2 * c)`. */
  lemma Invert(t: real, k1: real, k2: real, d: real, c: real)
    requires k1 != 0.0 && d != 0.0 && d == 1.0 - k2 * t && c == t * k1 / d
    ensures k1 + k2 * c == k1 / d
    ensures k1 + k2 * c != 0.0 && c / (k1 + k2 * c) == t
  {
    DivMulCancel(t * k1, d);
    assert c * d == t * k1;
    assert (k1 + k2 * c) * d == k1 * d + k2 * (c * d);
    assert k1 * d + k2 * (t * k1) == k1 * (d + k2 * t) == k1;
    MulToDiv(k1 + k2 * c, d, k1);
    DivAssoc(t, k1, d);
    var q := k1 / d;
    assert q != 0.0;
    assert c == t * q;
    MulToDiv(t, q, c);
  }

  /** `Convert.okhslToRgbF(h, s, l, trc)` with `s` and `l` in percent. */
  function OkhslToRgbF(h: real, s: real, l: real, trc: Trc, n: Numerics): (rgb: Rgb)
    requires var l1 := l / 100.0; l1 != 0.0 && l1 != 1.0 ==> l1 + K2 != 0.0
    requires var l1 := l / 100.0; l1 != 0.0 && l1 != 1.0 && s != 0.0 ==>
      ChromaDefined(s / 100.0, ChromaTriple(ToeInv(l1), h, n))
    ensures l == 0.0 ==> rgb == Rgb(0.0, 0.0, 0.0)
    ensures l == 100.0 ==> rgb == Rgb(1.0, 1.0, 1.0)
    ensures l != 0.0 && l != 100.0 ==> InUnitCube(rgb)
    ensures l != 0.0 && l != 100.0 && s == 0.0 ==> rgb == Gray(ToeInv(l / 100.0), trc, n)
  {
    var s1, l1 := s / 100.0, l / 100.0;
    if l1 == 0.0 || l1 == 1.0 then Rgb(l1, l1, l1)
    else
      var l2 := ToeInv(l1);
      var c := if s1 != 0.0 then OkhslChroma(s1, ChromaTriple(l2, h, n)) else 0.0;
      LabToRgbF(Polar(l2, c, h, n), trc, n)
  }

  /** `getCs(l, a, b)` at the unit vector of hue `h`. */
  function ChromaTriple(l: real, h: real, n: Numerics): Cs {
    var t := n.cs(l, n.cosDeg(h), n.sinDeg(h));
    Cs(t.0, t.1, t.2)
  }
}
