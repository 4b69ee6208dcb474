/** The 8-bit hex notation: `rgbFToInt8`, `rgbFToHexS` and `hexSToRgbF` of
    hclsliders/colorconversion.py. Only `#RGB` and `#RRGGBB` are read, the two
    hex forms of section 5.2 of CSS Color Module Level 4 that carry no alpha. */
module HexCodec {
  import opened Wrappers
  import opened Scalars
  import opened ColorTypes
  import opened Text

  predicate IsHexDigit(c: char) {
    '0' <= c <= '9' || 'a' <= c <= 'f' || 'A' <= c <= 'F'
  }

  predicate IsUpperHexDigit(c: char) {
    '0' <= c <= '9' || 'A' <= c <= 'F'
  }

  predicate AllHex(s: string) {
    forall i :: 0 <= i < |s| ==> IsHexDigit(s[i])
  }

  function DigitValue(c: char): (v: nat)
    requires IsHexDigit(c)
    ensures v < 16
  {
    if c <= '9' then c as int - '0' as int
    else if c >= 'a' then c as int - 'a' as int + 10
    else c as int - 'A' as int + 10
  }

  function UpperDigit(v: nat): (c: char)
    requires v < 16
    ensures IsUpperHexDigit(c) && IsHexDigit(c) && DigitValue(c) == v
  {
    if v < 10 then ('0' as int + v) as char else ('A' as int + v - 10) as char
  }

  /** `str.upper()` on one character of a hex string. */
  function ToUpper(c: char): (u: char)
    ensures IsHexDigit(c) ==> u == UpperDigit(DigitValue(c))
  {
    if 'a' <= c <= 'f' then (c as int - 32) as char else c
  }

  function Upper(s: string): (u: string)
    ensures |u| == |s| && forall i :: 0 <= i < |s| ==> u[i] == ToUpper(s[i])
  {
    if s == [] then [] else [ToUpper(s[0])] + Upper(s[1..])
  }

  /** The value of a string of hex digits, most significant first. */
  function HexValue(s: string): nat
    requires AllHex(s)
  {
    if |s| == 0 then 0 else 16 * HexValue(s[..|s| - 1]) + DigitValue(s[|s| - 1])
  }

  /** Python's `int(p, 16)` on a string: surrounding whitespace is ignored
      and one sign may precede the digits. */
  function ParseHexInt(p: string): Option<int> {
    var t := Strip(p, Whitespace);
    var neg := |t| > 0 && t[0] == '-';
    var digits := if |t| > 0 && (t[0] == '+' || t[0] == '-') then t[1..] else t;
    if |digits| > 0 && AllHex(digits) then
      var v: int := HexValue(digits);
      Some(if neg then -v else v)
    else None
  }

  /** A single character read as a hex digit. */
  function Nibble(c: char): (r: Option<int>)
    ensures r.Some? <==> IsHexDigit(c)
    ensures r.Some? ==> 0 <= r.value < 16
  {
    if IsHexDigit(c) then Some(DigitValue(c)) else None
  }

  /** `int(a + b, 16)` for the two-character fields `hexSToRgbF` slices, case
      by case: both blank, one blank, a sign before one digit, two digits. */
  function IntHex(a: char, b: char): (r: Option<int>)
    ensures r.Some? ==> -15 <= r.value <= 255
    ensures IsHexDigit(a) && IsHexDigit(b) ==> r == Some(16 * DigitValue(a) + DigitValue(b))
  {
    if IsSpace(a) && IsSpace(b) then None
    else if IsSpace(a) then Nibble(b)
    else if IsSpace(b) then Nibble(a)
    else if a == '-' then (if IsHexDigit(b) then Some(0 - DigitValue(b)) else None)
    else if a == '+' then Nibble(b)
    else if IsHexDigit(a) && IsHexDigit(b) then Some(16 * DigitValue(a) + DigitValue(b))
    else None
  }

  lemma OneDigit(p: string)
    requires |p| == 1 && AllHex(p)
    ensures HexValue(p) == DigitValue(p[0])
  {
    assert p[..0] == [];
  }

  lemma TwoDigits(p: string)
    requires |p| == 2 && AllHex(p)
    ensures HexValue(p) == 16 * DigitValue(p[0]) + DigitValue(p[1])
  {
    var q := p[..1];
    assert q == [p[0]] && AllHex(q);
    OneDigit(q);
  }

  /** The case analysis of `IntHex` agrees with the general reading of
      `int(p, 16)` on every two-character string. */
  lemma {:induction false} IntHexIsParse(a: char, b: char)
    ensures IntHex(a, b) == ParseHexInt([a, b])
  {
    var p := [a, b];
    var t := Strip(p, Whitespace);
    if IsSpace(a) && IsSpace(b) {
      assert StripLeft(p, Whitespace) == StripLeft([b], Whitespace) == [];
    } else if IsSpace(a) {
      assert StripLeft(p, Whitespace) == [b];
      assert t == [b];
      if IsHexDigit(b) { OneDigit(t); }
    } else if IsSpace(b) {
      assert StripLeft(p, Whitespace) == p;
      assert StripRight(p, Whitespace) == [a];
      if IsHexDigit(a) { OneDigit([a]); }
    } else {
      assert t == p;
      if a == '-' || a == '+' {
        assert t[1..] == [b];
        if IsHexDigit(b) { OneDigit([b]); }
      } else if IsHexDigit(a) && IsHexDigit(b) {
        TwoDigits(p);
      } else {
        assert !AllHex(p);
      }
    }
  }

  /** A doubled nibble parses exactly when the character is a hex digit: a
      doubled space is blank and a doubled sign has no digits. */
  lemma IntHexDoubled(c: char)
    ensures IntHex(c, c).Some? <==> IsHexDigit(c)
    ensures IsHexDigit(c) ==> IntHex(c, c) == Some(17 * DigitValue(c))
  {
  }

  /** The two characters of the `i`-th field of `#RGB` (nibble doubled) or `#RRGGBB`. */
  function Field(syntax: string, i: nat): (p: (char, char))
    requires |syntax| == 4 || |syntax| == 7
    requires 1 <= i <= 3
    ensures |syntax| == 4 ==> p == (syntax[i], syntax[i])
    ensures |syntax| == 7 ==> p == (syntax[2 * i - 1], syntax[2 * i])
  {
    if |syntax| == 4 then (syntax[i], syntax[i]) else (syntax[2 * i - 1], syntax[2 * i])
  }

  function FieldValue(syntax: string, i: nat): Option<int>
    requires |syntax| == 4 || |syntax| == 7
    requires 1 <= i <= 3
  {
    var (a, b) := Field(syntax, i);
    IntHex(a, b)
  }

  /** `k / 255.0`: an 8-bit code as a float channel. */
  function Code(k: int): real {
    k as real / 255.0
  }

  /** `x` is some `k / 255` with `lo <= k <= 255`. */
  ghost predicate IsCode(x: real, lo: int) {
    exists k: int {:trigger Code(k)} :: lo <= k <= 255 && x == Code(k)
  }

  /** The three 8-bit codes `hexSToRgbF` reads from `#RGB` or `#RRGGBB`;
      None wherever it returns None. */
  function HexCodes(syntax: string): (r: Option<(int, int, int)>)
    ensures r.Some? ==> StartsWith(syntax, "#") && (|syntax| == 4 || |syntax| == 7)
    ensures r.Some? ==> -15 <= r.value.0 <= 255 && -15 <= r.value.1 <= 255 && -15 <= r.value.2 <= 255
  {
    if !StartsWith(syntax, "#") || !(|syntax| == 4 || |syntax| == 7) then None
    else
      var r8, g8, b8 := FieldValue(syntax, 1), FieldValue(syntax, 2), FieldValue(syntax, 3);
      if r8.None? || g8.None? || b8.None? then None
      else Some((r8.value, g8.value, b8.value))
  }

  /** `Convert.hexSToRgbF`: each code over 255, decoded when the output is linear. */
  function HexSToRgbF(syntax: string, trc: Trc, n: Numerics): (r: Option<Rgb>)
    ensures r.Some? ==> StartsWith(syntax, "#") && (|syntax| == 4 || |syntax| == 7)
  {
    match HexCodes(syntax)
    case None => None
    case Some(k) => Some(DecodeFor(Rgb(Code(k.0), Code(k.1), Code(k.2)), trc, n))
  }

  /** Text of the right shape reads exactly when `int(x, 16)` accepts all
      three fields, and in sRGB mode each channel is its field over 255. */
  lemma HexFieldsDecide(syntax: string, trc: Trc, n: Numerics)
    requires StartsWith(syntax, "#") && (|syntax| == 4 || |syntax| == 7)
    ensures HexSToRgbF(syntax, trc, n).Some? <==>
      FieldValue(syntax, 1).Some? && FieldValue(syntax, 2).Some? && FieldValue(syntax, 3).Some?
    ensures HexSToRgbF(syntax, trc, n).Some? && trc == SRGB ==>
      HexSToRgbF(syntax, trc, n).value
        == Rgb(Code(FieldValue(syntax, 1).value), Code(FieldValue(syntax, 2).value), Code(FieldValue(syntax, 3).value))
  {
  }

  lemma HashPrefix(syntax: string)
    requires |syntax| >= 1 && syntax[0] == '#'
    ensures StartsWith(syntax, "#")
  {
    assert syntax[..1] == "#";
  }

  lemma ShortHexCodes(syntax: string)
    requires |syntax| == 4 && syntax[0] == '#'
    ensures HexCodes(syntax).Some? <==> AllHex(syntax[1..])
    ensures AllHex(syntax[1..]) ==>
      HexCodes(syntax).value == (17 * DigitValue(syntax[1]), 17 * DigitValue(syntax[2]), 17 * DigitValue(syntax[3]))
  {
    HashPrefix(syntax);
    FieldsOfHex(syntax);
    IntHexDoubled(syntax[1]);
    IntHexDoubled(syntax[2]);
    IntHexDoubled(syntax[3]);
  }

  /** `#RGB` is accepted exactly when its three characters are hex digits, and
      each nibble is doubled: `#abc` reads as `#aabbcc`. */
  lemma ShortHexForm(syntax: string, trc: Trc, n: Numerics)
    requires |syntax| == 4 && syntax[0] == '#'
    ensures HexSToRgbF(syntax, trc, n).Some? <==> AllHex(syntax[1..])
    ensures AllHex(syntax[1..]) && trc == SRGB ==>
      HexSToRgbF(syntax, trc, n).value
        == Rgb(Code(17 * DigitValue(syntax[1])), Code(17 * DigitValue(syntax[2])), Code(17 * DigitValue(syntax[3])))
  {
    ShortHexCodes(syntax);
  }

  lemma LongHexCodes(syntax: string)
    requires |syntax| == 7 && syntax[0] == '#' && AllHex(syntax[1..])
    ensures HexCodes(syntax) == Some((16 * DigitValue(syntax[1]) + DigitValue(syntax[2]),
      16 * DigitValue(syntax[3]) + DigitValue(syntax[4]), 16 * DigitValue(syntax[5]) + DigitValue(syntax[6])))
  {
    HashPrefix(syntax);
    FieldsOfHex(syntax);
  }

  /** `#RRGGBB` with six hex digits is accepted and reads each pair as a byte. */
  lemma LongHexForm(syntax: string, trc: Trc, n: Numerics)
    requires |syntax| == 7 && syntax[0] == '#' && AllHex(syntax[1..])
    ensures HexSToRgbF(syntax, trc, n).Some?
    ensures trc == SRGB ==>
      HexSToRgbF(syntax, trc, n).value == Rgb(Code(16 * DigitValue(syntax[1]) + DigitValue(syntax[2])),
             Code(16 * DigitValue(syntax[3]) + DigitValue(syntax[4])),
             Code(16 * DigitValue(syntax[5]) + DigitValue(syntax[6])))
  {
    LongHexCodes(syntax);
  }

  /** `#RRGGBB` is accepted exactly when `int(x, 16)` accepts each of its
      three pairs, and then each channel is that pair's value over 255; so a
      single pair such as `GG` rejects the whole text. */
  lemma LongHexPairs(syntax: string, trc: Trc, n: Numerics)
    requires |syntax| == 7 && syntax[0] == '#'
    ensures HexSToRgbF(syntax, trc, n).Some? <==>
      IntHex(syntax[1], syntax[2]).Some? && IntHex(syntax[3], syntax[4]).Some? && IntHex(syntax[5], syntax[6]).Some?
    ensures HexSToRgbF(syntax, trc, n).Some? && trc == SRGB ==>
      HexSToRgbF(syntax, trc, n).value == Rgb(Code(IntHex(syntax[1], syntax[2]).value),
        Code(IntHex(syntax[3], syntax[4]).value), Code(IntHex(syntax[5], syntax[6]).value))
  {
    HashPrefix(syntax);
    HexFieldsDecide(syntax, trc, n);
  }

  /** In sRGB mode every channel read is `k / 255` for an integer `k` of
      -15..255 (a sign inside a pair gives a negative `k`), and of 0..255 when
      the text after `#` is all hex digits. */
  lemma HexChannelsAreCodes(syntax: string, n: Numerics)
    requires HexSToRgbF(syntax, SRGB, n).Some?
    ensures var c := HexSToRgbF(syntax, SRGB, n).value;
      IsCode(c.r, -15) && IsCode(c.g, -15) && IsCode(c.b, -15)
    ensures AllHex(syntax[1..]) ==> var c := HexSToRgbF(syntax, SRGB, n).value;
      IsCode(c.r, 0) && IsCode(c.g, 0) && IsCode(c.b, 0)
  {
    var k := HexCodes(syntax).value;
    if AllHex(syntax[1..]) {
      if |syntax| == 4 { ShortHexCodes(syntax); } else { LongHexCodes(syntax); }
    }
    assert Code(k.0) == Code(k.0) && Code(k.1) == Code(k.1) && Code(k.2) == Code(k.2);
  }

  /** The sign quirk of `int(x, 16)`: "#-F0000" is accepted with a negative red. */
  lemma SignedPairAccepted(n: Numerics)
    ensures HexSToRgbF("#-F0000", SRGB, n) == Some(Rgb(Code(-15), 0.0, 0.0))
  {
    SignedPairCodes();
  }

  lemma SignedPairCodes()
    ensures HexCodes("#-F0000") == Some((-15, 0, 0))
  {
    HashPrefix("#-F0000");
  }

  lemma FieldsOfHex(syntax: string)
    requires |syntax| == 4 || |syntax| == 7
    ensures AllHex(syntax[1..]) <==> forall i :: 1 <= i < |syntax| ==> IsHexDigit(syntax[i])
  {
    assert forall i :: 1 <= i < |syntax| ==> syntax[1..][i - 1] == syntax[i];
  }

  /** `Convert.rgbFToInt8`: truncation in sRGB mode, round half to even of the
      encoded value in linear mode. */
  function RgbFToInt8(c: Rgb, trc: Trc, n: Numerics): (k: (int, int, int))
    ensures trc == SRGB && InUnitCube(c) ==>
      0 <= k.0 <= 255 && 0 <= k.1 <= 255 && 0 <= k.2 <= 255
      && Code(k.0) <= c.r < Code(k.0) + 1.0 / 255.0
      && Code(k.1) <= c.g < Code(k.1) + 1.0 / 255.0
      && Code(k.2) <= c.b < Code(k.2) + 1.0 / 255.0
  {
    if trc == SRGB then
      TruncChannel(c.r); TruncChannel(c.g); TruncChannel(c.b);
      (Trunc(c.r * 255.0), Trunc(c.g * 255.0), Trunc(c.b * 255.0))
    else
      (PyRound(n.toSrgb(c.r) * 255.0), PyRound(n.toSrgb(c.g) * 255.0), PyRound(n.toSrgb(c.b) * 255.0))
  }

  lemma TruncChannel(x: real)
    ensures 0.0 <= x <= 1.0 ==>
      0 <= Trunc(x * 255.0) <= 255 && Code(Trunc(x * 255.0)) <= x < Code(Trunc(x * 255.0)) + 1.0 / 255.0
  {
  }

  /** Upper-case hex digits of `k` without leading zeros (`hex(k)[2:].upper()`). */
  function HexDigits(k: nat): (s: string)
    ensures |s| >= 1 && forall i :: 0 <= i < |s| ==> IsUpperHexDigit(s[i])
    ensures k < 16 ==> s == [UpperDigit(k)]
  {
    if k < 16 then [UpperDigit(k)] else HexDigits(k / 16) + [UpperDigit(k % 16)]
  }

  /** The digits `HexDigits` writes spell `k` back. */
  lemma {:induction false} HexDigitsValue(k: nat)
    ensures AllHex(HexDigits(k)) && HexValue(HexDigits(k)) == k
  {
    var s := HexDigits(k);
    if k >= 16 {
      HexDigitsValue(k / 16);
      assert s[..|s| - 1] == HexDigits(k / 16);
      assert s[|s| - 1] == UpperDigit(k % 16);
    }
  }

  /** `str.zfill(2)` on a string that does not start with a sign. */
  function ZFill2(s: string): (t: string)
    ensures |t| == if |s| < 2 then 2 else |s|
  {
    if |s| == 0 then "00" else if |s| == 1 then "0" + s else s
  }

  /** `hex(k)[2:].zfill(2).upper()`; for a negative `k`, `hex` yields "-0x..",
      so the field keeps an "X" in front of the digits. */
  function HexField(k: int): (f: string)
    ensures 0 <= k <= 255 ==> f == [UpperDigit(k / 16), UpperDigit(k % 16)]
  {
    if k >= 0 then
      PaddedDigits(k);
      ZFill2(HexDigits(k))
    else "X" + HexDigits(-k)
  }

  lemma PaddedDigits(k: nat)
    ensures k <= 255 ==> ZFill2(HexDigits(k)) == [UpperDigit(k / 16), UpperDigit(k % 16)]
  {
    if k < 16 {
      assert UpperDigit(0) == '0';
    } else if k <= 255 {
      assert HexDigits(k / 16) == [UpperDigit(k / 16)];
    }
  }

  /** A byte's field read back as two hex digits is the byte. */
  lemma HexFieldValue(k: int)
    requires 0 <= k <= 255
    ensures AllHex(HexField(k)) && 16 * DigitValue(HexField(k)[0]) + DigitValue(HexField(k)[1]) == k
  {
  }

  /** `Convert.rgbFToHexS`. */
  function RgbFToHexS(c: Rgb, trc: Trc, n: Numerics): string {
    var k := RgbFToInt8(c, trc, n);
    "#" + HexField(k.0) + HexField(k.1) + HexField(k.2)
  }

  /** For channels in [0, 1] in sRGB mode the text is `#` and six upper-case
      hex digits, each channel zero-padded to two. */
  lemma HexStringShape(c: Rgb, n: Numerics)
    requires InUnitCube(c)
    ensures var s := RgbFToHexS(c, SRGB, n);
      |s| == 7 && s[0] == '#' && (forall i :: 1 <= i < 7 ==> IsUpperHexDigit(s[i])) && AllHex(s[1..])
  {
    var k := RgbFToInt8(c, SRGB, n);
    assert 0 <= k.0 <= 255 && 0 <= k.1 <= 255 && 0 <= k.2 <= 255;
    CodesShape(k);
  }

  lemma CodesShape(k: (int, int, int))
    requires 0 <= k.0 <= 255 && 0 <= k.1 <= 255 && 0 <= k.2 <= 255
    ensures var s := "#" + HexField(k.0) + HexField(k.1) + HexField(k.2);
      |s| == 7 && s[0] == '#' && (forall i :: 1 <= i < 7 ==> IsUpperHexDigit(s[i])) && AllHex(s[1..])
  {
    FieldsShape(HexField(k.0), HexField(k.1), HexField(k.2));
  }

  lemma FieldsShape(f0: string, f1: string, f2: string)
    requires |f0| == 2 && |f1| == 2 && |f2| == 2
    requires IsUpperHexDigit(f0[0]) && IsUpperHexDigit(f0[1])
    requires IsUpperHexDigit(f1[0]) && IsUpperHexDigit(f1[1])
    requires IsUpperHexDigit(f2[0]) && IsUpperHexDigit(f2[1])
    ensures var s := "#" + f0 + f1 + f2;
      |s| == 7 && s[0] == '#' && (forall i :: 1 <= i < 7 ==> IsUpperHexDigit(s[i])) && AllHex(s[1..])
    ensures "#" + f0 + f1 + f2 == ['#', f0[0], f0[1], f1[0], f1[1], f2[0], f2[1]]
  {
    var s := "#" + f0 + f1 + f2;
    assert s == ['#', f0[0], f0[1], f1[0], f1[1], f2[0], f2[1]];
  }

  /** The codes written into a hex string are the codes read back from it. */
  lemma EncodedCodes(k: (int, int, int))
    requires 0 <= k.0 <= 255 && 0 <= k.1 <= 255 && 0 <= k.2 <= 255
    ensures HexCodes("#" + HexField(k.0) + HexField(k.1) + HexField(k.2)) == Some(k)
  {
    var f0, f1, f2 := HexField(k.0), HexField(k.1), HexField(k.2);
    var s := "#" + f0 + f1 + f2;
    FieldsShape(f0, f1, f2);
    assert s[1] == f0[0] && s[2] == f0[1] && s[3] == f1[0] && s[4] == f1[1] && s[5] == f2[0] && s[6] == f2[1];
    HexFieldValue(k.0);
    HexFieldValue(k.1);
    HexFieldValue(k.2);
    LongHexCodes(s);
    assert 16 * DigitValue(s[1]) + DigitValue(s[2]) == k.0;
    assert 16 * DigitValue(s[3]) + DigitValue(s[4]) == k.1;
    assert 16 * DigitValue(s[5]) + DigitValue(s[6]) == k.2;
  }

  /** Writing a colour of the unit cube as hex and reading it back loses only
      the truncation to 8 bits: each channel comes back as the largest
      multiple of 1/255 not above it. */
  lemma HexRoundTrip(c: Rgb, n: Numerics)
    requires InUnitCube(c)
    ensures var d := HexSToRgbF(RgbFToHexS(c, SRGB, n), SRGB, n);
      d.Some? && InUnitCube(d.value)
      && d.value.r <= c.r < d.value.r + 1.0 / 255.0
      && d.value.g <= c.g < d.value.g + 1.0 / 255.0
      && d.value.b <= c.b < d.value.b + 1.0 / 255.0
  {
    var k := RgbFToInt8(c, SRGB, n);
    var s := RgbFToHexS(c, SRGB, n);
    assert s == "#" + HexField(k.0) + HexField(k.1) + HexField(k.2);
    EncodedCodes(k);
    DecodeCodes(s, k, n);
  }

  lemma DecodeCodes(s: string, k: (int, int, int), n: Numerics)
    requires HexCodes(s) == Some(k)
    ensures HexSToRgbF(s, SRGB, n) == Some(Rgb(Code(k.0), Code(k.1), Code(k.2)))
  {
  }

  /** An 8-bit code survives the float channel: `int(k / 255 * 255) == k`. */
  lemma CodeTrunc(k: int)
    requires 0 <= k <= 255
    ensures Trunc(Code(k) * 255.0) == k
  {
    assert Code(k) * 255.0 == k as real;
  }

  /** Hex text of a colour whose channels are exact codes spells the codes. */
  lemma CodesReEncode(k: (int, int, int), n: Numerics)
    requires 0 <= k.0 <= 255 && 0 <= k.1 <= 255 && 0 <= k.2 <= 255
    ensures RgbFToHexS(Rgb(Code(k.0), Code(k.1), Code(k.2)), SRGB, n)
      == "#" + HexField(k.0) + HexField(k.1) + HexField(k.2)
  {
    CodeTrunc(k.0);
    CodeTrunc(k.1);
    CodeTrunc(k.2);
    assert RgbFToInt8(Rgb(Code(k.0), Code(k.1), Code(k.2)), SRGB, n) == k;
  }

  /** Reading `#RRGGBB` and writing it again gives the same digits in upper
      case. */
  lemma HexReEncode(syntax: string, n: Numerics)
    requires |syntax| == 7 && syntax[0] == '#' && AllHex(syntax[1..])
    ensures HexSToRgbF(syntax, SRGB, n).Some?
    ensures RgbFToHexS(HexSToRgbF(syntax, SRGB, n).value, SRGB, n) == "#" + Upper(syntax[1..])
  {
    FieldsOfHex(syntax);
    var k := (16 * DigitValue(syntax[1]) + DigitValue(syntax[2]),
              16 * DigitValue(syntax[3]) + DigitValue(syntax[4]),
              16 * DigitValue(syntax[5]) + DigitValue(syntax[6]));
    assert HexCodes(syntax) == Some(k) by { LongHexCodes(syntax); }
    DecodeCodes(syntax, k, n);
    CodesReEncode(k, n);
    PairSpell(syntax[1], syntax[2], k.0);
    PairSpell(syntax[3], syntax[4], k.1);
    PairSpell(syntax[5], syntax[6], k.2);
    UpperSpell(syntax, HexField(k.0), HexField(k.1), HexField(k.2));
  }

  /** The field of the byte spelled by two hex digits is those digits in upper case. */
  lemma PairSpell(a: char, b: char, k: int)
    requires IsHexDigit(a) && IsHexDigit(b) && k == 16 * DigitValue(a) + DigitValue(b)
    ensures HexField(k) == [ToUpper(a), ToUpper(b)]
  {
    assert k / 16 == DigitValue(a) && k % 16 == DigitValue(b);
  }

  lemma UpperSpell(syntax: string, f0: string, f1: string, f2: string)
    requires |syntax| == 7
    requires f0 == [ToUpper(syntax[1]), ToUpper(syntax[2])]
    requires f1 == [ToUpper(syntax[3]), ToUpper(syntax[4])]
    requires f2 == [ToUpper(syntax[5]), ToUpper(syntax[6])]
    ensures "#" + f0 + f1 + f2 == "#" + Upper(syntax[1..])
  {
    var t := syntax[1..];
    assert t[0] == syntax[1] && t[1] == syntax[2] && t[2] == syntax[3];
    assert t[3] == syntax[4] && t[4] == syntax[5] && t[5] == syntax[6];
    Spell(Upper(t), f0, f1, f2);
  }

  lemma Spell(u: string, f0: string, f1: string, f2: string)
    requires |u| == 6 && |f0| == 2 && |f1| == 2 && |f2| == 2
    requires u[0] == f0[0] && u[1] == f0[1] && u[2] == f1[0] && u[3] == f1[1] && u[4] == f2[0] && u[5] == f2[1]
    ensures "#" + f0 + f1 + f2 == "#" + u
  {
    assert f0 + f1 + f2 == u;
  }

  /** `#RGB` is written back as `#RRGGBB` with each nibble doubled, in upper case. */
  lemma ShortHexExpands(syntax: string, n: Numerics)
    requires |syntax| == 4 && syntax[0] == '#' && AllHex(syntax[1..])
    ensures HexSToRgbF(syntax, SRGB, n).Some?
    ensures var u := Upper(syntax[1..]);
      RgbFToHexS(HexSToRgbF(syntax, SRGB, n).value, SRGB, n) == ['#', u[0], u[0], u[1], u[1], u[2], u[2]]
  {
    FieldsOfHex(syntax);
    var k := (17 * DigitValue(syntax[1]), 17 * DigitValue(syntax[2]), 17 * DigitValue(syntax[3]));
    assert HexCodes(syntax) == Some(k) by { ShortHexCodes(syntax); }
    DecodeCodes(syntax, k, n);
    CodesReEncode(k, n);
    PairSpell(syntax[1], syntax[1], k.0);
    PairSpell(syntax[2], syntax[2], k.1);
    PairSpell(syntax[3], syntax[3], k.2);
    DoubledSpell(syntax, HexField(k.0), HexField(k.1), HexField(k.2));
  }

  lemma DoubledSpell(syntax: string, f0: string, f1: string, f2: string)
    requires |syntax| == 4
    requires f0 == [ToUpper(syntax[1]), ToUpper(syntax[1])]
    requires f1 == [ToUpper(syntax[2]), ToUpper(syntax[2])]
    requires f2 == [ToUpper(syntax[3]), ToUpper(syntax[3])]
    ensures var u := Upper(syntax[1..]);
      "#" + f0 + f1 + f2 == ['#', u[0], u[0], u[1], u[1], u[2], u[2]]
  {
    var t := syntax[1..];
    assert t[0] == syntax[1] && t[1] == syntax[2] && t[2] == syntax[3];
    assert "#" + f0 + f1 + f2 == ['#', f0[0], f0[1], f1[0], f1[1], f2[0], f2[1]];
  }
}
