/** Value types shared by the conversions: RGB triples, the transfer mode,
    the three text notations, and the floating-point primitives the model
    leaves uninterpreted. */
module ColorTypes {
  import opened Wrappers
  import opened Scalars

  /** An RGB triple of floats, sRGB-encoded or linear depending on `Trc`. */
  datatype Rgb = Rgb(r: real, g: real, b: real)

  /** The transfer mode the caller passes as the `trc` string. */
  datatype Trc = SRGB | Linear

  /** `NOTATION` of hclsliders/hclsliders.py and hclsliders/settings.py. */
  datatype Notation = HEX | OKLAB | OKLCH

  const NOTATION: seq<Notation> := [HEX, OKLAB, OKLCH]

  function NotationName(n: Notation): string {
    match n
    case HEX => "HEX"
    case OKLAB => "OKLAB"
    case OKLCH => "OKLCH"
  }

  /** `notation in NOTATION` for a stored string. */
  function NotationNamed(s: string): (r: Option<Notation>)
    ensures r.Some? ==> NotationName(r.value) == s
    ensures r.None? ==> forall n: Notation :: NotationName(n) != s
  {
    if s == "HEX" then Some(HEX)
    else if s == "OKLAB" then Some(OKLAB)
    else if s == "OKLCH" then Some(OKLCH)
    else None
  }

  /** The operations the model takes as given: transcendental functions,
      Python's `float(...)`, `int(...)` and `round(x, n)`, and the sRGB gamut
      search of the Oklab-based models. Each field names the source routine
      it stands for. */
  datatype Numerics = Numerics(
    toSrgb: real -> real,                         // Convert.componentToSRGB
    toLinear: real -> real,                       // Convert.componentToLinear
    degrees: real -> real,                        // math.degrees
    cosDeg: real -> real,                         // math.cos(math.radians(h))
    sinDeg: real -> real,                         // math.sin(math.radians(h))
    parseFloat: string -> Option<real>,           // float(s); None is ValueError
    parseInt: string -> Option<int>,              // int(s);   None is ValueError
    roundTo: (real, int) -> real,                 // round(x, n)
    gamut: (real, real, real) -> real,            // Convert.findGamutIntersection(a, b, L, 1, L)
    cusp: (real, real) -> (real, real),           // Convert.findCuspLC(a, b)
    cs: (real, real, real) -> (real, real, real), // Convert.getCs(L, a, b)
    okhsvLinear: (real, real, real) -> Rgb        // okhsvToRgbF's chromatic branch, linear RGB
  )

  predicate InUnitCube(c: Rgb) {
    0.0 <= c.r <= 1.0 && 0.0 <= c.g <= 1.0 && 0.0 <= c.b <= 1.0
  }

  function MaxOf(c: Rgb): real {
    Max3(c.r, c.g, c.b)
  }

  function MinOf(c: Rgb): real {
    Min3(c.r, c.g, c.b)
  }

  /** The final `clampF` every OK*-to-RGB conversion applies per component. */
  function ClampRgb(c: Rgb): (d: Rgb)
    ensures InUnitCube(d)
    ensures InUnitCube(c) && c.r <= 0.999999 && c.g <= 0.999999 && c.b <= 0.999999 ==> d == c
  {
    Rgb(ClampF(c.r, 1.0, 0.0), ClampF(c.g, 1.0, 0.0), ClampF(c.b, 1.0, 0.0))
  }

  /** `componentToSRGB` applied per component when the output is sRGB. */
  function EncodeFor(c: Rgb, trc: Trc, n: Numerics): Rgb {
    if trc == SRGB then Rgb(n.toSrgb(c.r), n.toSrgb(c.g), n.toSrgb(c.b)) else c
  }

  /** `componentToLinear` applied per component when the output is linear. */
  function DecodeFor(c: Rgb, trc: Trc, n: Numerics): Rgb {
    if trc == SRGB then c else Rgb(n.toLinear(c.r), n.toLinear(c.g), n.toLinear(c.b))
  }

  /** The sRGB-encoded channels of an input colour: `componentToSRGB` per
      component when the caller's colour is linear. */
  function SrgbOf(c: Rgb, trc: Trc, n: Numerics): Rgb {
    if trc == Linear then Rgb(n.toSrgb(c.r), n.toSrgb(c.g), n.toSrgb(c.b)) else c
  }
}
