/** The CSS-style text notations of hclsliders/colorconversion.py:
    `oklab(L a b)` (`oklabSToRgbF`), `oklch(L C H)` (`oklchSToRgbF`) and the
    hue units of `angleStoDeg`, after section 8.2 of CSS Color Module Level 4.
    Reading a number is Python's `float(...)`, taken as given. */
module Css {
  import opened Wrappers
  import opened Scalars
  import opened ColorTypes
  import opened Text
  import opened Oklab

  /** The characters `strip("( )")` removes. */
  const Parens: CharClass := OneOf({'(', ' ', ')'})

  /** `syntax[5:].strip("( )").split()`: the arguments after a five-letter
      function name. */
  function FunctionArgs(syntax: string): (args: seq<string>)
    ensures forall i :: 0 <= i < |args| ==> IsWord(args[i])
  {
    Words(Strip(if |syntax| <= 5 then [] else syntax[5..], Parens))
  }

  /** Three words as the function notation `name(w0 w1 w2)`. */
  function Enclose(name: string, w0: string, w1: string, w2: string): string {
    name + "(" + w0 + " " + w1 + " " + w2 + ")"
  }

  /** A non-blank character that `strip("( )")` keeps. */
  predicate Bare(c: char) {
    c != '(' && c != ')'
  }

  /** Writing three words as `name(w0 w1 w2)` and reading the arguments
      back gives the three words. */
  lemma EnclosedArgs(name: string, w0: string, w1: string, w2: string)
    requires |name| == 5
    requires IsWord(w0) && IsWord(w1) && IsWord(w2)
    requires Bare(w0[0]) && Bare(w2[|w2| - 1])
    ensures StartsWith(Enclose(name, w0, w1, w2), name)
    ensures FunctionArgs(Enclose(name, w0, w1, w2)) == [w0, w1, w2]
  {
    var body := w0 + " " + w1 + " " + w2;
    var s := Enclose(name, w0, w1, w2);
    assert s == name + (['('] + body + [')']);
    assert s[..5] == name;
    assert s[5..] == ['('] + body + [')'];
    assert body[0] == w0[0];
    assert body[|body| - 1] == w2[|w2| - 1];
    StripEnclosed('(', body, ')', Parens);
    WordsOfThree(w0, w1, w2);
  }

  // ---------------------------------------------------------------------
  // Components

  /** The text `float` reads: the component without its `%` suffix. */
  function Number(w: string): string {
    if EndsWith(w, "%") then w[..|w| - 1] else w
  }

  /** One numeric component: a number, or a percentage of `scale`, then
      `clampF(x, hi, lo)`; None where `float` raises ValueError. */
  function Component(w: string, scale: real, hi: real, lo: real, n: Numerics): (r: Option<real>)
    requires scale > 0.0 && lo <= hi
    ensures r.None? <==> n.parseFloat(Number(w)).None?
    ensures r.Some? ==> lo <= r.value <= hi
  {
    match n.parseFloat(Number(w))
    case None => None
    case Some(v) => Some(ClampF(if EndsWith(w, "%") then v / scale else v, hi, lo))
  }

  lemma PercentSuffix(x: string)
    ensures EndsWith(x + "%", "%") && Number(x + "%") == x
  {
    EndsWithAppend(x, "%");
  }

  /** A percentage and the plain number it stands for read the same: `p%`
      is `p / scale`. */
  lemma PercentMeansFraction(p: string, q: string, scale: real, hi: real, lo: real, n: Numerics)
    requires scale > 0.0 && lo <= hi && !EndsWith(q, "%")
    requires n.parseFloat(p).Some? && n.parseFloat(q) == Some(n.parseFloat(p).value / scale)
    ensures Component(p + "%", scale, hi, lo, n) == Component(q, scale, hi, lo, n)
  {
    PercentSuffix(p);
  }

  /** A plain number already inside the range reads as itself. */
  lemma InRangeExact(q: string, v: real, hi: real, lo: real, scale: real, n: Numerics)
    requires scale > 0.0 && lo <= v <= hi && !(hi == 1.0 && v > 0.999999)
    requires !EndsWith(q, "%") && n.parseFloat(q) == Some(v)
    ensures Component(q, scale, hi, lo, n) == Some(v)
  {
  }

  // ---------------------------------------------------------------------
  // oklab(L a b)

  /** The Oklab coordinates `oklabSToRgbF` reads: L clamped to [0, 1] with
      `%` meaning hundredths, a and b clamped to [-0.4, 0.4] with `%` meaning
      a 250th. */
  function ParseOklab(syntax: string, n: Numerics): (r: Option<Lab>)
    ensures r.Some? ==> StartsWith(syntax, "oklab") && |FunctionArgs(syntax)| == 3
    ensures r.Some? ==> 0.0 <= r.value.l <= 1.0 && -0.4 <= r.value.a <= 0.4 && -0.4 <= r.value.b <= 0.4
    ensures StartsWith(syntax, "oklab") && |FunctionArgs(syntax)| == 3 ==>
      var args := FunctionArgs(syntax);
      (r.Some? <==> n.parseFloat(Number(args[0])).Some? && n.parseFloat(Number(args[1])).Some?
                    && n.parseFloat(Number(args[2])).Some?)
  {
    if !StartsWith(syntax, "oklab") then None
    else
      var args := FunctionArgs(syntax);
      if |args| != 3 then None
      else
        var l := Component(args[0], 100.0, 1.0, 0.0, n);
        var a := Component(args[1], 250.0, 0.4, -0.4, n);
        var b := Component(args[2], 250.0, 0.4, -0.4, n);
        if l.None? || a.None? || b.None? then None
        else Some(Lab(l.value, a.value, b.value))
  }

  /** `Convert.oklabSToRgbF`. */
  function OklabSToRgbF(syntax: string, trc: Trc, n: Numerics): (r: Option<Rgb>)
    ensures r.Some? <==> ParseOklab(syntax, n).Some?
    ensures r.Some? ==> InUnitCube(r.value)
  {
    match ParseOklab(syntax, n)
    case None => None
    case Some(c) => Some(LabToRgbF(c, trc, n))
  }

  /** `rgbFToOklabS` writes `oklab(L% a b)`; reading that text back gives
      L / 100, a and b whenever they are inside the ranges the reader
      clamps to. */
  lemma OklabTextRoundTrip(x0: string, x1: string, x2: string, p: real, a: real, b: real, n: Numerics)
    requires IsWord(x0) && IsWord(x1) && IsWord(x2) && Bare(x0[0]) && Bare(x2[|x2| - 1])
    requires !EndsWith(x1, "%") && !EndsWith(x2, "%")
    requires n.parseFloat(x0) == Some(p) && n.parseFloat(x1) == Some(a) && n.parseFloat(x2) == Some(b)
    requires 0.0 <= p <= 99.9999 && -0.4 <= a <= 0.4 && -0.4 <= b <= 0.4
    ensures ParseOklab(Enclose("oklab", x0 + "%", x1, x2), n) == Some(Lab(p / 100.0, a, b))
  {
    PercentWord(x0);
    EnclosedArgs("oklab", x0 + "%", x1, x2);
    PercentSuffix(x0);
  }

  lemma PercentWord(x: string)
    requires IsWord(x)
    ensures IsWord(x + "%") && (x + "%")[0] == x[0]
  {
  }

  // ---------------------------------------------------------------------
  // Angles

  /** A whole number of turns. */
  function Turns(k: int): real {
    360.0 * k as real
  }

  /** `x` and `y` name the same direction. */
  ghost predicate SameAngle(x: real, y: real) {
    exists k: int :: x - y == Turns(k)
  }

  /** The normalisation `angleStoDeg` applies: a negative angle becomes
      `(d % 360) + 360`, anything else is kept. */
  function NormalizeAngle(d: real): (r: real)
    ensures r >= 0.0 && SameAngle(r, d)
    ensures d >= 0.0 ==> r == d
    ensures d < 0.0 ==> 360.0 <= r < 720.0
  {
    if d < 0.0 then
      var r := PyMod(d, 360.0) + 360.0;
      assert r - d == Turns(1 - (d / 360.0).Floor);
      r
    else
      assert d - d == Turns(0);
      d
  }

  /** The angle in degrees that the unit suffix of `a` gives, before
      normalisation: `deg`, then `grad` (nine tenths of a degree), then `rad`,
      then `turn`, else a bare number of degrees. */
  function AngleValue(a: string, n: Numerics): Option<real> {
    if EndsWith(a, "deg") then n.parseFloat(a[..|a| - 3])
    else if EndsWith(a, "grad") then
      match n.parseFloat(a[..|a| - 4])
      case None => None
      case Some(v) => Some(v / 10.0 * 9.0)
    else if EndsWith(a, "rad") then
      match n.parseFloat(a[..|a| - 3])
      case None => None
      case Some(v) => Some(n.degrees(v))
    else if EndsWith(a, "turn") then
      match n.parseFloat(a[..|a| - 4])
      case None => None
      case Some(v) => Some(v * 360.0)
    else n.parseFloat(a)
  }

  /** `Convert.angleStoDeg`: None where `float` raises ValueError. */
  function AngleStoDeg(a: string, n: Numerics): (r: Option<real>)
    ensures r.None? <==> AngleValue(a, n).None?
    ensures r.Some? ==> r.value >= 0.0 && SameAngle(r.value, AngleValue(a, n).value)
    ensures r.Some? && AngleValue(a, n).value < 0.0 ==> 360.0 <= r.value < 720.0
  {
    match AngleValue(a, n)
    case None => None
    case Some(d) => Some(NormalizeAngle(d))
  }

  /** The suffix test on a concatenation looks only at the appended text
      when the suffix is no longer than it. */
  lemma SuffixOfAppend(t: string, tail: string, suffix: string)
    requires |suffix| <= |tail|
    ensures EndsWith(t + tail, suffix) <==> EndsWith(tail, suffix)
    ensures (t + tail)[..|t|] == t
  {
    assert (t + tail)[|t + tail| - |suffix|..] == tail[|tail| - |suffix|..];
  }

  /** Each unit means what CSS says it means. `grad` is tried before `rad`,
      so a value in gradians is never read as radians. */
  lemma AngleUnits(x: string, v: real, n: Numerics)
    requires n.parseFloat(x) == Some(v)
    ensures AngleStoDeg(x + "deg", n) == Some(NormalizeAngle(v))
    ensures AngleStoDeg(x + "grad", n) == Some(NormalizeAngle(v * 0.9))
    ensures AngleStoDeg(x + "turn", n) == Some(NormalizeAngle(v * 360.0))
    ensures !EndsWith(x, "g") ==> AngleStoDeg(x + "rad", n) == Some(NormalizeAngle(n.degrees(v)))
  {
    SuffixOfAppend(x, "deg", "deg");
    SuffixOfAppend(x, "grad", "deg");
    SuffixOfAppend(x, "grad", "grad");
    SuffixOfAppend(x, "turn", "deg");
    SuffixOfAppend(x, "turn", "grad");
    SuffixOfAppend(x, "turn", "rad");
    SuffixOfAppend(x, "turn", "turn");
    SuffixOfAppend(x, "rad", "deg");
    SuffixOfAppend(x, "rad", "rad");
    assert v / 10.0 * 9.0 == v * 0.9;
    if !EndsWith(x, "g") {
      RadIsNotGrad(x);
    }
  }

  lemma RadIsNotGrad(x: string)
    requires !EndsWith(x, "g")
    ensures !EndsWith(x + "rad", "grad")
  {
    var s := x + "rad";
    if |x| > 0 {
      assert s[|s| - 4..][0] == x[|x| - 1];
      assert x[|x| - 1..] == [x[|x| - 1]];
    }
  }

  /** A number with no unit is a number of degrees. */
  predicate Unitless(a: string) {
    !EndsWith(a, "deg") && !EndsWith(a, "grad") && !EndsWith(a, "rad") && !EndsWith(a, "turn")
  }

  lemma BareAngle(x: string, v: real, n: Numerics)
    requires Unitless(x) && n.parseFloat(x) == Some(v)
    ensures AngleStoDeg(x, n) == Some(NormalizeAngle(v))
  {
  }

  // ---------------------------------------------------------------------
  // oklch(L C H)

  /** Lightness in [0, 1], chroma in [0, 0.4], hue in degrees. */
  datatype Lch = Lch(l: real, c: real, h: real)

  /** The coordinates `oklchSToRgbF` reads: L as for `oklab`, C clamped to
      [0, 0.4] with `%` meaning a 250th, H by `angleStoDeg`. */
  function ParseOklch(syntax: string, n: Numerics): (r: Option<Lch>)
    ensures r.Some? ==> StartsWith(syntax, "oklch") && |FunctionArgs(syntax)| == 3
    ensures r.Some? ==> 0.0 <= r.value.l <= 1.0 && 0.0 <= r.value.c <= 0.4 && r.value.h >= 0.0
    ensures StartsWith(syntax, "oklch") && |FunctionArgs(syntax)| == 3 ==>
      var args := FunctionArgs(syntax);
      (r.Some? <==> n.parseFloat(Number(args[0])).Some? && n.parseFloat(Number(args[1])).Some?
                    && AngleValue(args[2], n).Some?)
  {
    if !StartsWith(syntax, "oklch") then None
    else
      var args := FunctionArgs(syntax);
      if |args| != 3 then None
      else
        var l := Component(args[0], 100.0, 1.0, 0.0, n);
        var c := Component(args[1], 250.0, 0.4, 0.0, n);
        var h := AngleStoDeg(args[2], n);
        if l.None? || c.None? || h.None? then None
        else Some(Lch(l.value, c.value, h.value))
  }

  /** `Convert.oklchSToRgbF`: the coordinates go to `oklchToRgbF` with the
      lightness back in percent and the chroma clipped to the gamut. */
  function OklchSToRgbF(syntax: string, trc: Trc, n: Numerics): (r: Option<Rgb>)
    ensures r.Some? <==> ParseOklch(syntax, n).Some?
    ensures r.Some? ==> InUnitCube(r.value)
  {
    match ParseOklch(syntax, n)
    case None => None
    case Some(p) => Some(OklchToRgbF(p.l * 100.0, p.c, p.h, -1.0, trc, n))
  }

  /** The colour an `oklch(...)` text names is drawn at its own lightness and
      hue with the chroma clipped to the gamut limit of that hue and
      lightness (zero chroma drawn as grey). */
  lemma OklchTextClips(syntax: string, trc: Trc, n: Numerics)
    requires ParseOklch(syntax, n).Some?
    ensures var p := ParseOklch(syntax, n).value;
      var cMax := n.gamut(n.cosDeg(p.h), n.sinDeg(p.h), p.l);
      OklchSToRgbF(syntax, trc, n).value
        == LabToRgbF(Polar(p.l, if p.c == 0.0 then 0.0 else Min(p.c, cMax), p.h, n), trc, n)
  {
    var p := ParseOklch(syntax, n).value;
    assert p.l * 100.0 / 100.0 == p.l;
    if p.c != 0.0 {
      OklchClip(p.l * 100.0, p.c, p.h, trc, n);
    }
  }

  /** `rgbFToOklchS` writes `oklch(L% C H)`; reading that text back gives
      L / 100, C and H whenever they are inside the ranges the reader
      accepts. */
  lemma OklchTextRoundTrip(x0: string, x1: string, x2: string, p: real, c: real, h: real, n: Numerics)
    requires IsWord(x0) && IsWord(x1) && IsWord(x2) && Bare(x0[0]) && Bare(x2[|x2| - 1])
    requires !EndsWith(x1, "%") && Unitless(x2)
    requires n.parseFloat(x0) == Some(p) && n.parseFloat(x1) == Some(c) && n.parseFloat(x2) == Some(h)
    requires 0.0 <= p <= 99.9999 && 0.0 <= c <= 0.4 && h >= 0.0
    ensures ParseOklch(Enclose("oklch", x0 + "%", x1, x2), n) == Some(Lch(p / 100.0, c, h))
  {
    PercentWord(x0);
    EnclosedArgs("oklch", x0 + "%", x1, x2);
    PercentSuffix(x0);
  }
}
