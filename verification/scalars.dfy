/** Scalar helpers of `Convert` (hclsliders/colorconversion.py) and the Python
    numeric primitives they rely on, over exact reals. */
module Scalars {
  import opened Wrappers

  function Abs(x: real): real {
    if x < 0.0 then -x else x
  }

  /** Distance between two points of the real line. */
  function Distance(x: real, y: real): real {
    Abs(x - y)
  }

  function Min(x: real, y: real): real {
    if x <= y then x else y
  }

  function Max3(x: real, y: real, z: real): (r: real)
    ensures (r == x || r == y || r == z) && x <= r && y <= r && z <= r
  {
    if x >= y && x >= z then x else if y >= z then y else z
  }

  function Min3(x: real, y: real, z: real): (r: real)
    ensures (r == x || r == y || r == z) && r <= x && r <= y && r <= z
  {
    if x <= y && x <= z then x else if y <= z then y else z
  }

  /** Python `int(x)` on a float: truncation toward zero. */
  function Trunc(x: real): (k: int)
    ensures 0.0 <= x ==> k as real <= x < k as real + 1.0
    ensures x < 0.0 ==> k as real - 1.0 < x <= k as real
    ensures Abs(k as real) <= Abs(x)
  {
    if x >= 0.0 then x.Floor else -((-x).Floor)
  }

  /** Python `x % m` on floats for a positive modulus (the result takes the
      sign of the modulus). */
  function PyMod(x: real, m: real): (r: real)
    requires m > 0.0
    ensures 0.0 <= r < m
    ensures 0.0 <= x < m ==> r == x
    ensures -m <= x < 0.0 ==> r == x + m
  {
    DivBounds(x, m);
    x - m * (x / m).Floor as real
  }

  lemma DivBounds(x: real, m: real)
    requires m > 0.0
    ensures 0.0 <= x < m ==> (x / m).Floor == 0
    ensures -m <= x < 0.0 ==> (x / m).Floor == -1
    ensures 0.0 <= x - m * (x / m).Floor as real < m
  {
    var q := x / m;
    var kr := q.Floor as real;
    assert kr <= q < kr + 1.0;
    DivIs(x, m);
    FloorScaled(q, kr, m, x);
    if 0.0 <= x < m {
      assert 0.0 <= q < 1.0 by { DivLt(x, m); }
    }
    if -m <= x < 0.0 {
      assert -1.0 <= q < 0.0 by { DivLt(x, m); }
    }
  }

  /** Scaling `kr <= q < kr + 1` by a positive `m`. */
  lemma FloorScaled(q: real, kr: real, m: real, x: real)
    requires kr <= q < kr + 1.0 && m > 0.0 && x == q * m
    ensures kr * m <= x < kr * m + m
    ensures m * kr == kr * m
  {
    MulLe(kr, q, m);
    ScaledBelow(q, kr + 1.0, m, x);
    assert (kr + 1.0) * m == kr * m + m;
  }

  lemma ScaledBelow(q: real, h: real, m: real, x: real)
    requires q < h && m > 0.0 && x == q * m
    ensures x < h * m
  {
  }

  lemma DivLt(x: real, m: real)
    requires m > 0.0
    ensures x < m ==> x / m < 1.0
    ensures 0.0 <= x ==> 0.0 <= x / m
    ensures x < 0.0 ==> x / m < 0.0
    ensures -m <= x ==> -1.0 <= x / m
  {
    var q := x / m;
    assert q * m == x;
    if x < m && q >= 1.0 { MulLe(1.0, q, m); }
    if 0.0 <= x && q < 0.0 { MulLt(q, 0.0, m); }
    if x < 0.0 && q >= 0.0 { MulLe(0.0, q, m); }
    if -m <= x && q < -1.0 { MulLt(q, -1.0, m); }
  }

  lemma MulLe(a: real, b: real, m: real)
    requires a <= b && m >= 0.0
    ensures a * m <= b * m
  {
  }

  lemma MulLt(a: real, b: real, m: real)
    requires a < b && m > 0.0
    ensures a * m < b * m
  {
  }

  /** Python `round(x)` with no digits: round half to even. */
  function PyRound(x: real): (k: int)
    ensures Abs(k as real - x) <= 0.5
    ensures Abs(k as real - x) == 0.5 ==> k % 2 == 0
  {
    var f := x.Floor;
    var frac := x - f as real;
    if frac < 0.5 then f
    else if frac > 0.5 then f + 1
    else if f % 2 == 0 then f else f + 1
  }

  function Pow10(d: nat): (p: real)
    ensures p >= 1.0
  {
    if d == 0 then 1.0 else 10.0 * Pow10(d - 1)
  }

  /** `Convert.clampF`: clamp to [l, u]; with the default upper bound 1 any
      value above 0.999999 is snapped to exactly 1. */
  function ClampF(f: real, u: real, l: real): (r: real)
    ensures l <= u ==> l <= r <= u
    ensures l <= f <= u && !(u == 1.0 && f > 0.999999) ==> r == f
    ensures u == 1.0 && f > 0.999999 && l <= f ==> r == 1.0
    ensures f < l ==> r == l
    ensures l <= f && f > u ==> r == u
  {
    if f < l then l
    else if (u == 1.0 && f > 0.999999) || f > u then u
    else f
  }

  /** Clamping twice is clamping once. */
  lemma ClampIdempotent(f: real, u: real, l: real)
    requires l <= u && (u != 1.0 || l <= 0.999999)
    ensures ClampF(ClampF(f, u, l), u, l) == ClampF(f, u, l)
  {
  }

  /** A value held to [l, u] is the point of that range nearest to the
      original. */
  lemma ClampIsNearest(r: real, f: real, l: real, u: real)
    requires l <= r <= u
    requires f < l ==> r == l
    requires f > u ==> r == u
    requires l <= f <= u ==> r == f
    ensures forall y :: l <= y <= u ==> Distance(r, f) <= Distance(y, f)
  {
    forall y | l <= y <= u
      ensures Distance(r, f) <= Distance(y, f)
    {
    }
  }

  /** `Convert.roundZero`: truncate `n` to `d` decimal places toward zero;
      a negative `d` is the ValueError of the source. */
  function RoundZero(n: real, d: int): (r: Option<real>)
    ensures r.None? <==> d < 0
    ensures r.Some? && n >= 0.0 ==> 0.0 <= r.value <= n
    ensures r.Some? && n < 0.0 ==> n <= r.value <= 0.0
    ensures r.Some? ==> Abs(n) - Abs(r.value) < 1.0 / Pow10(d)
    ensures r.Some? ==> IsDecimal(r.value, d)
  {
    if d < 0 then None
    else
      var s := if n < 0.0 then -1.0 else 1.0;
      var f := Pow10(d);
      var k := (Abs(n) * f).Floor;
      var v := if d == 0 then Abs(n).Floor as real * s else k as real / f * s;
      TruncFacts(n, d, f, k, s, v);
      Some(v)
  }

  /** `x` has at most `d` decimal places. */
  ghost predicate IsDecimal(x: real, d: nat) {
    exists k: int {:trigger k as real / Pow10(d)} :: x == k as real / Pow10(d)
  }

  lemma TruncFacts(n: real, d: nat, f: real, k: int, s: real, v: real)
    requires f == Pow10(d) && k == (Abs(n) * f).Floor
    requires s == (if n < 0.0 then -1.0 else 1.0)
    requires v == if d == 0 then Abs(n).Floor as real * s else k as real / f * s
    ensures n >= 0.0 ==> 0.0 <= v <= n
    ensures n < 0.0 ==> n <= v <= 0.0
    ensures Abs(n) - Abs(v) < 1.0 / Pow10(d)
    ensures IsDecimal(v, d)
  {
    var a := Abs(n);
    var q := k as real / f;
    assert v == q * s by {
      if d == 0 {
        assert f == 1.0;
        assert a * f == a;
      }
    }
    TruncBound(a, f, k);
    TruncSigned(n, q, s, v);
    DecimalWitness(v, d, k, f, s);
  }

  lemma TruncSigned(n: real, q: real, s: real, v: real)
    requires 0.0 <= q <= Abs(n)
    requires s == (if n < 0.0 then -1.0 else 1.0) && v == q * s
    ensures n >= 0.0 ==> 0.0 <= v <= n
    ensures n < 0.0 ==> n <= v <= 0.0
    ensures Abs(v) == q
  {
  }

  lemma DecimalWitness(v: real, d: nat, k: int, f: real, s: real)
    requires f == Pow10(d) && (s == 1.0 || s == -1.0) && v == k as real / f * s
    ensures IsDecimal(v, d)
  {
    var j := if s == 1.0 then k else -k;
    assert v == j as real / f;
  }

  lemma TruncBound(a: real, f: real, k: int)
    requires a >= 0.0 && f >= 1.0 && k == (a * f).Floor
    ensures 0.0 <= k as real / f <= a
    ensures a - k as real / f < 1.0 / f
  {
    assert 0.0 <= k as real <= a * f < k as real + 1.0;
    assert k as real / f <= a by {
      assert (k as real / f) * f == k as real;
    }
    assert a - k as real / f == (a * f - k as real) / f;
  }

  // Field facts over the reals, stated once so that proofs can cite them.

  lemma DivSelf(x: real)
    requires x != 0.0
    ensures x / x == 1.0
  {
  }

  lemma DivMulCancel(a: real, d: real)
    requires d != 0.0
    ensures a / d * d == a
  {
  }

  lemma MulToDiv(x: real, d: real, a: real)
    requires d != 0.0 && x * d == a
    ensures x == a / d
  {
  }

  lemma DivAssoc(t: real, k: real, d: real)
    requires d != 0.0
    ensures t * k / d == t * (k / d)
  {
  }

  lemma DivPos(a: real, b: real)
    requires a > 0.0 && b > 0.0
    ensures a / b > 0.0
  {
  }

  lemma DivNonneg(a: real, b: real)
    requires a >= 0.0 && b > 0.0
    ensures a / b >= 0.0
  {
  }

  lemma DivAtMostOne(a: real, b: real)
    requires a <= b && b > 0.0
    ensures a / b <= 1.0
  {
    DivMulCancel(a, b);
  }

  lemma MulNonneg(a: real, b: real)
    requires a >= 0.0 && b >= 0.0
    ensures a * b >= 0.0
  {
  }

  /** A product behind a function symbol. A product written `Mul(x, y)`
      stays one term for the solver, so facts about it carry over from one
      proof to the next. */
  function Mul(a: real, b: real): real {
    a * b
  }

  /** A quotient behind a function symbol, for the same reason. */
  function Div(a: real, b: real): real
    requires b != 0.0
  {
    a / b
  }

  lemma DivIs(a: real, b: real)
    requires b != 0.0
    ensures Div(a, b) == a / b
    ensures Div(a, b) * b == a
  {
  }

  lemma DivUnit(k: real)
    requires k != 0.0
    ensures Div(k, k) == 1.0 && Div(-k, k) == -1.0
  {
    DivIs(k, k);
    DivIs(-k, k);
    DivSelf(k);
    assert (-k) / k == -(k / k);
  }

  lemma MulIs(a: real, b: real)
    ensures Mul(a, b) == a * b
  {
  }

  lemma MulOfPositives(a: real, b: real)
    requires a > 0.0 && b > 0.0
    ensures Mul(a, b) > 0.0
  {
  }

  lemma MulPos(a: real, b: real)
    requires a > 0.0 && b > 0.0
    ensures a * b > 0.0
  {
  }
}
