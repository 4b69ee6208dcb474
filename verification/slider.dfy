/** The value logic of `ChannelSlider` (hclsliders/hclsliders.py): the
    interval and displacement of the Ctrl-click grid, the snap to that grid,
    and the Shift/Alt drag that clamps, or wraps on the hue slider. Painting
    and the Qt signals are not modelled; a slider is its numeric state. */
module Slider {
  import opened Scalars
  import opened ColorTypes

  datatype Slider = Slider(
    value: real,
    limit: real,         // 360 for hue, 100 for most channels, the chroma maximum otherwise
    interval: real,      // grid spacing for Ctrl-click snapping
    displacement: real,  // grid offset for Ctrl-click snapping
    start: real,         // value when a drag began
    position: real,      // cursor x when a drag began
    shift: real)         // value change per pixel of drag

  /** Largest grid interval a slider accepts. */
  function IntervalCap(limit: real): real {
    if limit < 360.0 then 100.0 else 360.0
  }

  /** Largest grid displacement a slider accepts. */
  function DisplacementCap(limit: real): real {
    if limit < 360.0 then 99.9 else 359.9
  }

  /** The grid settings stay inside the ranges `setInterval` and
      `setDisplacement` enforce. */
  predicate Valid(s: Slider) {
    0.0 < s.limit
    && 0.1 <= s.interval <= IntervalCap(s.limit)
    && 0.0 <= s.displacement <= DisplacementCap(s.limit)
  }

  /** `ChannelSlider.__init__`. */
  function NewSlider(limit: real): (s: Slider)
    ensures s.limit == limit && s.value == 0.0
    ensures 0.0 < limit ==> Valid(s)
  {
    Slider(0.0, limit, 0.1, 0.0, 0.0, 0.0, 0.1)
  }

  /** `ChannelSlider.setInterval`: the stored interval is the point of
      [0.1, cap] nearest to the request. */
  function SetInterval(s: Slider, interval: real): (r: Slider)
    ensures 0.1 <= r.interval <= IntervalCap(s.limit)
    ensures 0.1 <= interval <= IntervalCap(s.limit) ==> r.interval == interval
    ensures forall y :: 0.1 <= y <= IntervalCap(s.limit) ==>
      Distance(r.interval, interval) <= Distance(y, interval)
    ensures r.(interval := s.interval) == s
  {
    var c := ClampF(interval, IntervalCap(s.limit), 0.1);
    ClampIsNearest(c, interval, 0.1, IntervalCap(s.limit));
    s.(interval := c)
  }

  /** `ChannelSlider.setDisplacement`: the stored displacement is the point
      of [0, cap] nearest to the request. */
  function SetDisplacement(s: Slider, displacement: real): (r: Slider)
    ensures 0.0 <= r.displacement <= DisplacementCap(s.limit)
    ensures 0.0 <= displacement <= DisplacementCap(s.limit) ==> r.displacement == displacement
    ensures forall y :: 0.0 <= y <= DisplacementCap(s.limit) ==>
      Distance(r.displacement, displacement) <= Distance(y, displacement)
    ensures r.(displacement := s.displacement) == s
  {
    var c := ClampF(displacement, DisplacementCap(s.limit), 0.0);
    ClampIsNearest(c, displacement, 0.0, DisplacementCap(s.limit));
    s.(displacement := c)
  }

  /** Both setters keep a valid slider valid, and setting a value twice is
      setting it once. */
  lemma SettersKeepValid(s: Slider, interval: real, displacement: real)
    requires Valid(s)
    ensures Valid(SetInterval(s, interval)) && Valid(SetDisplacement(s, displacement))
    ensures SetInterval(SetInterval(s, interval), SetInterval(s, interval).interval)
      == SetInterval(s, interval)
    ensures SetDisplacement(SetDisplacement(s, displacement), SetDisplacement(s, displacement).displacement)
      == SetDisplacement(s, displacement)
  {
  }

  /** The cursor position clamped to the widget, as a fraction of its
      width (a zero width is the ZeroDivisionError of the source). */
  function Fraction(x: real, width: real): (f: real)
    requires width != 0.0
    ensures 0.0 < width ==> 0.0 <= f <= 1.0
    ensures 0.0 <= x <= width ==> f == x / width
  {
    var p := if x > width then width else if x < 0.0 then 0.0 else x;
    if 0.0 < width then
      DivNonneg(p, width);
      DivAtMostOne(p, width);
      p / width
    else
      p / width
  }

  /** The value under the cursor, rounded to three places as the source
      does before snapping. */
  function Pointed(s: Slider, x: real, width: real, n: Numerics): real
    requires width != 0.0
  {
    n.roundTo(Fraction(x, width) * s.limit, 3)
  }

  /** Spacing of the snapping grid: the interval itself, or the slider
      limit when the interval is zero; on a slider whose limit is below 100
      the interval is a percentage of that limit. */
  function Step(limit: real, interval: real): real {
    var i := if interval != 0.0 then interval else limit;
    if limit < 100.0 then Mul(interval / 100.0, limit) else i
  }

  /** A valid slider always has a positive grid spacing. */
  lemma StepPositive(s: Slider)
    requires Valid(s)
    ensures Step(s.limit, s.interval) > 0.0
  {
    if s.limit < 100.0 {
      MulOfPositives(s.interval / 100.0, s.limit);
    }
  }

  /** The grid point `displacement + k * i` nearest to `v`; a tie goes up. */
  function Nearest(v: real, i: real, displacement: real): (u: real)
    requires i > 0.0
    ensures Distance(u, v) <= i / 2.0
  {
    var d := PyMod(v - displacement, i);
    if d < i / 2.0 then v - d else v + (i - d)
  }

  /** The grid index of `Nearest`. */
  function NearestIndex(v: real, i: real, displacement: real): int
    requires i > 0.0
  {
    var k := ((v - displacement) / i).Floor;
    if PyMod(v - displacement, i) < i / 2.0 then k else k + 1
  }

  /** `Nearest` lands on the grid. */
  lemma NearestOnGrid(v: real, i: real, displacement: real)
    requires i > 0.0
    ensures Nearest(v, i, displacement) == displacement + NearestIndex(v, i, displacement) as real * i
  {
    var x := v - displacement;
    var k := (x / i).Floor;
    assert PyMod(x, i) == x - i * k as real;
    assert (k + 1) as real * i == k as real * i + i;
  }

  /** No grid point is closer to `v` than `Nearest`. */
  lemma NearestIsNearest(v: real, i: real, displacement: real, j: int)
    requires i > 0.0
    ensures Distance(Nearest(v, i, displacement), v) <= Distance(displacement + j as real * i, v)
  {
    var x := v - displacement;
    var k := (x / i).Floor;
    var d := PyMod(x, i);
    assert d == x - i * k as real;
    var t := (j - k) as real;
    assert displacement + j as real * i - v == t * i - d by {
      assert t * i == j as real * i - k as real * i;
    }
    GridDistance(t, i, d);
  }

  /** A grid point other than the two neighbours of `v` is farther away
      than the nearer neighbour. */
  lemma GridDistance(t: real, i: real, d: real)
    requires i > 0.0 && 0.0 <= d < i
    requires t <= 0.0 || t >= 1.0
    ensures Abs(t * i - d) >= (if d < i / 2.0 then d else i - d)
  {
    if t <= 0.0 {
      MulLe(t, 0.0, i);
    } else {
      MulLe(1.0, t, i);
    }
  }

  /** The snap branch needs a positive grid spacing unless the value is one
      of the two ends, which are never moved. */
  predicate Snappable(v: real, limit: real, interval: real) {
    v == 0.0 || v == limit || Step(limit, interval) > 0.0
  }

  /** The snap of `ChannelSlider.emitValueSnapped`: the ends 0 and `limit`
      stay; any other value moves to the nearest grid point, then is
      clamped to [0, limit]. */
  function Snap(v: real, limit: real, interval: real, displacement: real): (r: real)
    requires Snappable(v, limit, interval)
    ensures v == 0.0 || v == limit ==> r == v
    ensures 0.0 <= limit ==> 0.0 <= r <= limit || r == v
    ensures v != 0.0 && v != limit && 0.0 <= limit ==> 0.0 <= r <= limit
  {
    if v == 0.0 || v == limit then v
    else
      var u := Nearest(v, Step(limit, interval), displacement);
      if u > limit then limit else if u < 0.0 then 0.0 else u
  }

  /** Away from the ends, the snapped value is the nearest grid point
      whenever that point is inside the slider. */
  lemma SnapOnGrid(v: real, limit: real, interval: real, displacement: real, i: real, j: int)
    requires v != 0.0 && v != limit && i == Step(limit, interval) > 0.0
    requires 0.0 <= Nearest(v, i, displacement) <= limit
    ensures Snap(v, limit, interval, displacement)
      == displacement + NearestIndex(v, i, displacement) as real * i
    ensures Distance(Snap(v, limit, interval, displacement), v) <= i / 2.0
    ensures Distance(Snap(v, limit, interval, displacement), v)
      <= Distance(displacement + j as real * i, v)
  {
    InsideSnap(v, limit, interval, displacement);
    NearestOnGrid(v, i, displacement);
    NearestIsNearest(v, i, displacement, j);
  }

  lemma InsideSnap(v: real, limit: real, interval: real, displacement: real)
    requires v != 0.0 && v != limit && Step(limit, interval) > 0.0
    requires 0.0 <= Nearest(v, Step(limit, interval), displacement) <= limit
    ensures Snap(v, limit, interval, displacement) == Nearest(v, Step(limit, interval), displacement)
  {
  }

  /** Snapping a snapped value changes nothing. */
  lemma SnapIdempotent(v: real, limit: real, interval: real, displacement: real)
    requires Step(limit, interval) > 0.0 && 0.0 <= limit
    ensures Snap(Snap(v, limit, interval, displacement), limit, interval, displacement)
      == Snap(v, limit, interval, displacement)
  {
    var r := Snap(v, limit, interval, displacement);
    if r != 0.0 && r != limit && v != 0.0 && v != limit {
      var i := Step(limit, interval);
      NearestOnGrid(v, i, displacement);
      var k := NearestIndex(v, i, displacement);
      assert r == displacement + k as real * i;
      GridFixed(k, i);
      assert Nearest(r, i, displacement) == r;
    }
  }

  /** A grid point is its own remainder-free position. */
  lemma GridFixed(k: int, i: real)
    requires i > 0.0
    ensures PyMod(k as real * i, i) == 0.0
  {
    assert k as real * i / i == k as real;
  }

  /** `ChannelSlider.emitValueSnapped` with the cursor at `x`. */
  function EmitValueSnapped(s: Slider, x: real, width: real, n: Numerics): (r: Slider)
    requires width != 0.0
    requires Snappable(Pointed(s, x, width, n), s.limit, s.interval)
    ensures r.(value := s.value) == s
    ensures 0.0 <= s.limit ==> 0.0 <= r.value <= s.limit || r.value == Pointed(s, x, width, n)
    ensures var v := Pointed(s, x, width, n); v == 0.0 || v == s.limit ==> r.value == v
  {
    s.(value := Snap(Pointed(s, x, width, n), s.limit, s.interval, s.displacement))
  }

  /** A valid slider can always snap. */
  lemma ValidSnappable(s: Slider, x: real, width: real, n: Numerics)
    requires Valid(s) && width != 0.0
    ensures Snappable(Pointed(s, x, width, n), s.limit, s.interval)
    ensures 0.0 <= EmitValueSnapped(s, x, width, n).value <= s.limit
  {
    StepPositive(s);
  }

  /** `ChannelSlider.startValueShift`: remember the value and cursor. */
  function StartValueShift(s: Slider, x: real): (r: Slider)
    ensures r.start == s.value && r.position == x
    ensures r.(start := s.start, position := s.position) == s
  {
    s.(start := s.value, position := x)
  }

  /** Keep a dragged value on the slider: clamp to [0, limit], except on
      the hue slider, where one turn is added or taken away. */
  function Wrap(value: real, limit: real): (r: real)
    ensures limit != 360.0 && 0.0 <= limit ==> 0.0 <= r <= limit
    ensures limit != 360.0 && 0.0 <= limit ==>
      forall y :: 0.0 <= y <= limit ==> Distance(r, value) <= Distance(y, value)
    ensures limit == 360.0 && -360.0 <= value <= 720.0 ==> 0.0 <= r <= 360.0
    ensures 0.0 <= value <= limit ==> r == value
    ensures limit == 360.0 && value < 0.0 ==> r == value + 360.0
    ensures limit == 360.0 && value > 360.0 ==> r == value - 360.0
    ensures limit != 360.0 && value < 0.0 ==> r == 0.0
    ensures limit != 360.0 && 0.0 <= value && value > limit ==> r == limit
  {
    var r := if value < 0.0 then
      if limit == 360.0 then value + limit else 0.0
    else if value > limit then
      if limit == 360.0 then value - limit else limit
    else value;
    if limit != 360.0 && 0.0 <= limit then
      ClampIsNearest(r, value, 0.0, limit);
      r
    else r
  }

  /** On the hue slider the wrapped value is the same angle. */
  lemma WrapSameAngle(value: real)
    ensures PyMod(Wrap(value, 360.0), 360.0) == PyMod(value, 360.0)
  {
    var r := Wrap(value, 360.0);
    if value < 0.0 {
      TurnShift(value);
    } else if value > 360.0 {
      TurnShift(r);
    }
  }

  lemma TurnShift(x: real)
    ensures PyMod(x + 360.0, 360.0) == PyMod(x, 360.0)
  {
    assert (x + 360.0) / 360.0 == x / 360.0 + 1.0;
    assert ((x + 360.0) / 360.0).Floor == (x / 360.0).Floor + 1;
  }

  /** `ChannelSlider.emitValueShifted` with the cursor at `x`. */
  function EmitValueShifted(s: Slider, x: real): (r: Slider)
    ensures r.(value := s.value) == s
    ensures var v := s.start + Mul(x - s.position, s.shift);
      (s.limit != 360.0 && 0.0 <= s.limit ==> 0.0 <= r.value <= s.limit)
      && (s.limit == 360.0 ==> PyMod(r.value, 360.0) == PyMod(v, 360.0))
      && (0.0 <= v <= s.limit ==> r.value == v)
    ensures var v := s.start + Mul(x - s.position, s.shift);
      s.limit == 360.0 ==>
        (v < 0.0 ==> r.value == v + 360.0) && (v > 360.0 ==> r.value == v - 360.0)
  {
    WrapSameAngle(s.start + Mul(x - s.position, s.shift));
    s.(value := Wrap(s.start + Mul(x - s.position, s.shift), s.limit))
  }

  /** A drag that returns to where it began restores the value it began
      with. */
  lemma ShiftAtRest(s: Slider, x: real)
    requires 0.0 <= s.value <= s.limit
    ensures EmitValueShifted(StartValueShift(s, x), x).value == s.value
  {
  }
}
