# HCL Sliders, modelled in Dafny

HCL Sliders is a Krita docker plugin. It edits the foreground colour
through channel sliders in several colour models: HSV, HSL, HCY, OKLCH,
OKHCL, OKHSV and OKHSL. It also has a text field that accepts hex,
`oklab(...)` and `oklch(...)` notation, and a history of recently used
colours. This project models the plugin's pure core and proves
properties of that model:

- the conversion library `Convert` (hclsliders/colorconversion.py);
- the decision logic of the `ChannelSlider`, `ColorHistory` and
  `HCLSliders` widgets (hclsliders/hclsliders.py), with the widgets
  themselves taken away.

Modules, in dependency order:

- `Wrappers` gives `Option`.
- `Scalars` holds real-number helpers:
  - Python's `int()` truncation (`Trunc`), float `%` (`PyMod`) and
    banker's rounding;
  - `Convert.clampF` and `Convert.roundZero`.
- `ColorTypes` defines the shared value types:
  - RGB triples and the transfer mode (`SRGB` or `Linear`);
  - the three text notations;
  - `Numerics`, a record of function values standing for everything the
    model takes as given: the sRGB transfer functions, trigonometry,
    `float(...)`, `int(...)`, `round(x, n)`, and the Oklab gamut and cusp
    searches.
- `Text` models Python's `str.strip` and `str.split`.
- `HexCodec` covers `rgbFToInt8`, `rgbFToHexS` and `hexSToRgbF`. It models
  `int(x, 16)` concretely on two-character fields, and that includes the
  sign and blanks Python accepts there.
- `Oklab` covers:
  - `oklabToLinear` and `toeInv`;
  - the clamping and early-return structure of `oklchToRgbF`,
    `okhclToRgbF`, `okhsvToRgbF` and `okhslToRgbF`;
  - the OKHSL chroma interpolation and its inverse.
- `Css` parses the `oklab(L a b)` and `oklch(L C H)` text forms, and
  covers `angleStoDeg` with its `deg`/`grad`/`rad`/`turn` units.
- `Parse` covers `parseAnything`: the ordered list of reading attempts, of
  which the first success wins.
- `Hexagonal` covers HSV and HSL: `hSectorToRgbF` and both directions of
  each model.
- `Hcy` covers HCY (luma, chroma, hue): both directions, with the chroma
  limit for each hue and luma.
- `Slider` covers the channel slider's settings, its snapping to the
  interval grid and its shift-drag.
- `History` covers the colour history: `setHistory`, and the Alt-drag
  deletion of a range of entries.
- `Docker` covers the profile-to-transfer-mode rule, the notation
  neighbours, and `readSettings`: the validation of stored settings,
  and the channel loop that a two-field entry stops with an IndexError.

Python floats are modelled as exact reals. Every property below
therefore holds of exact arithmetic, not of IEEE doubles.

## Model

| member | source | states |
|---|---|---|
| Scalars.ClampF | hclsliders/colorconversion.py:88-95 | the result lies in [l, u]; a value below l gives l and one above u gives u; an in-range value is kept, except that with u = 1 anything above 0.999999 is rounded up to 1 |
| Scalars.ClampIdempotent | hclsliders/colorconversion.py:88-95 | clamping an already clamped value changes nothing |
| Scalars.RoundZero | hclsliders/colorconversion.py:75-85 | a negative number of places is an error (None); otherwise the result has the sign of n, is no larger in magnitude, is within 10^-d of n, and has at most d decimals, so it is truncation toward zero |
| Scalars.Trunc | hclsliders/colorconversion.py:684 | `int(x)` truncates toward zero: the result is within 1 of x, on x's side of zero, and never larger in magnitude |
| Scalars.PyMod | hclsliders/colorconversion.py:668 | Python float `%` with a positive modulus: the result is in [0, m), a value already in [0, m) is kept, and a value in [-m, 0) gains m |
| ColorTypes.NotationNamed | hclsliders/hclsliders.py:1059-1060 | `notation in NOTATION`: a stored name maps to the notation of that name, and to none exactly when no notation has that name |
| ColorTypes.ClampRgb | hclsliders/colorconversion.py:526 | the componentwise clampF of an output colour lies in the unit cube and keeps any colour already inside it below 0.999999 |
| Text.Strip | hclsliders/colorconversion.py:446 | `strip(chars)`: no stripped character is left at either end, and text with none of them is unchanged |
| Text.Words | hclsliders/colorconversion.py:446 | `split()`: every piece is non-empty and blank-free, and text without blanks is a single piece |
| Text.WordsOfThree | hclsliders/colorconversion.py:446 | three words joined by single spaces split back into the same three words |
| Text.StripEnclosed | hclsliders/colorconversion.py:446 | stripping the parentheses around a body that starts and ends with a kept character gives back the body |
| HexCodec.IntHex | hclsliders/colorconversion.py:415-417 | `int(pair, 16)` on a two-character field lies in [-15, 255], and two hex digits give 16·a + b |
| HexCodec.IntHexIsParse | hclsliders/colorconversion.py:415-417 | the two-character reading agrees with Python's `int(s, 16)` on the same text: blanks stripped, an optional sign, then hex digits |
| HexCodec.IntHexDoubled | hclsliders/colorconversion.py:415 | a doubled short-form digit reads iff it is a hex digit, and then reads as 17 times its value |
| HexCodec.HexCodes | hclsliders/colorconversion.py:411-420 | codes are only produced for text that starts with `#` and has length 4 or 7, and each lies in [-15, 255] |
| HexCodec.HexSToRgbF | hclsliders/colorconversion.py:411-426 | a colour is only produced for text that starts with `#` and has length 4 or 7 |
| HexCodec.HexFieldsDecide | hclsliders/colorconversion.py:411-420 | text of that shape reads exactly when `int(x, 16)` accepts all three fields (doubled nibbles or pairs), and in sRGB mode each channel is its field's value over 255 |
| HexCodec.ShortHexForm | hclsliders/colorconversion.py:411-422 | `#rgb` reads iff all three characters are hex digits, and then each sRGB channel is 17·digit/255 |
| HexCodec.LongHexPairs | hclsliders/colorconversion.py:415-420 | `#rrggbb` reads exactly when `int(x, 16)` accepts each of its three pairs (one rejected pair such as `GG` rejects the text), and each sRGB channel is its pair's value over 255 |
| HexCodec.LongHexForm | hclsliders/colorconversion.py:411-422 | `#rrggbb` in hex digits always reads, and each sRGB channel is (16·a + b)/255 |
| HexCodec.HexChannelsAreCodes | hclsliders/colorconversion.py:411-422 | every channel of a parsed sRGB hex colour is k/255 for an integer k in [-15, 255], and k ≥ 0 when all six or three characters are hex digits |
| HexCodec.SignedPairAccepted | hclsliders/colorconversion.py:415 | `#-F0000` is accepted, and its red channel is -15/255 |
| HexCodec.RgbFToInt8 | hclsliders/colorconversion.py:389-398 | in sRGB mode a colour in the unit cube gets codes in 0..255 with k/255 ≤ c < (k+1)/255 for each channel |
| HexCodec.HexDigitsValue | hclsliders/colorconversion.py:405 | the digits `hex(k)[2:]` spells read back as k |
| HexCodec.PaddedDigits | hclsliders/colorconversion.py:405-407 | `hex(k)[2:].zfill(2).upper()` is the two upper-case digits of k/16 and k%16 for k ≤ 255 |
| HexCodec.HexFieldValue | hclsliders/colorconversion.py:405-407 | each two-digit field of the hex string reads back as its code |
| HexCodec.HexStringShape | hclsliders/colorconversion.py:401-408 | the hex string of a colour in the unit cube is `#` and six upper-case hex digits |
| HexCodec.EncodedCodes | hclsliders/colorconversion.py:401-420 | codes in 0..255 written out and read back are the same codes |
| HexCodec.HexRoundTrip | hclsliders/colorconversion.py:401-426 | writing a unit-cube sRGB colour as hex and reading it back gives a colour in the unit cube, at most 1/255 below the original in each channel |
| HexCodec.HexReEncode | hclsliders/colorconversion.py:401-426 | reading `#rrggbb` and writing it back gives the same digits in upper case |
| HexCodec.ShortHexExpands | hclsliders/colorconversion.py:401-426 | reading `#rgb` and writing it back gives `#rrggbb` in upper case |
| Oklab.OklabToLinear | hclsliders/colorconversion.py:146-165 | an achromatic Lab colour (a = b = 0) gives the grey L³, scaled per channel by the rounding error of the source's matrices |
| Oklab.OklabToLinearCubic | hclsliders/colorconversion.py:146-165 | scaling L, a and b by t scales every linear channel by t³ |
| Oklab.OklabBlack | hclsliders/colorconversion.py:146-165 | Lab black is linear black |
| Oklab.OklabWhite | hclsliders/colorconversion.py:146-165 | Lab white is not exactly (1, 1, 1) under the source's coefficients, but it becomes white once clamped |
| Oklab.ToeInvEnds | hclsliders/colorconversion.py:174-175 | the inverse toe fixes 0 and 1 |
| Oklab.ToeInvMonotone | hclsliders/colorconversion.py:174-175 | the inverse toe is monotone on non-negative lightness |
| Oklab.LabToRgbF | hclsliders/colorconversion.py:467-472 | the transfer and clamp at the end of every Oklab-based conversion always give a colour in the unit cube |
| Oklab.Polar | hclsliders/colorconversion.py:117-121 | zero chroma gives a = b = 0 at any hue |
| Oklab.OklchChroma | hclsliders/colorconversion.py:513-520 | with u = -1 the chroma is clipped to the gamut limit and kept when it fits; otherwise a chroma equal to u is scaled to the limit itself |
| Oklab.OklchChromaScaled | hclsliders/colorconversion.py:518-520 | a chroma scaled against a limit u it does not exceed stays within [0, cMax] |
| Oklab.OklchToRgbF | hclsliders/colorconversion.py:509-526 | the result is in the unit cube, and zero chroma gives the grey of lightness l/100 |
| Oklab.OklchClip | hclsliders/colorconversion.py:513-521 | in clip mode a nonzero chroma is replaced by the smaller of itself and the gamut limit at that hue and lightness |
| Oklab.OklchZeroChromaHueFree | hclsliders/colorconversion.py:509-526 | with zero chroma neither the hue nor u affects the colour |
| Oklab.OkhclChroma | hclsliders/colorconversion.py:895-904 | with u = -1 the chroma, as a percentage of the cusp chroma, is clipped to the gamut limit; otherwise a chroma equal to u maps to the limit |
| Oklab.OkhclChromaRoundTrip | hclsliders/colorconversion.py:895-904 | a chroma inside the limit, written as a percentage of the cusp, comes back unchanged in both modes |
| Oklab.OkhclToRgbF | hclsliders/colorconversion.py:890-910 | the result is in the unit cube, and zero chroma gives the grey of the inverse toe of l/100 |
| Oklab.OkhsvToRgbF | hclsliders/colorconversion.py:957-995 | v = 0 is black, s = 0 is the grey of the inverse toe of v/100, and every result is in the unit cube |
| Oklab.OkhsvWhite | hclsliders/colorconversion.py:957-995 | full value with no saturation is the clamped encoding of Oklab white at any hue, and exactly white (1, 1, 1) in linear mode |
| Oklab.OkhslChroma | hclsliders/colorconversion.py:1054-1065 | saturation 0.8 gives exactly the middle chroma |
| Oklab.OkhslSaturation | hclsliders/colorconversion.py:1018-1029 | the middle chroma gives exactly saturation 0.8 |
| Oklab.OkhslFullSaturation | hclsliders/colorconversion.py:1061-1065 | full saturation gives the maximum chroma |
| Oklab.OkhslRoundTrip | hclsliders/colorconversion.py:1018-1065 | for a proper chroma triple, saturation in [0, 1] interpolated to chroma and inverted by `rgbFToOkhsl`'s formula gives back the same saturation, in both segments |
| Oklab.OkhslToRgbF | hclsliders/colorconversion.py:1036-1071 | lightness 0 is black and 100 is white with no clamping, otherwise the result is in the unit cube, and zero saturation gives the grey of the inverse toe |
| Css.FunctionArgs | hclsliders/colorconversion.py:446 | the arguments after the function name are blank-free words |
| Css.EnclosedArgs | hclsliders/colorconversion.py:444-448 | `name(w0 w1 w2)` starts with its name and splits back into exactly the three words |
| Css.Component | hclsliders/colorconversion.py:453-464 | a component fails exactly when `float` fails on its number, and otherwise is clamped into its range |
| Css.PercentMeansFraction | hclsliders/colorconversion.py:453-464 | `p%` reads the same as the plain number p divided by the percentage scale |
| Css.InRangeExact | hclsliders/colorconversion.py:453-464 | a plain in-range component is taken as written |
| Css.ParseOklab | hclsliders/colorconversion.py:443-466 | a reading needs the `oklab` prefix and three arguments, gives L in [0, 1] and a, b in [-0.4, 0.4], and with prefix and three arguments succeeds exactly when all three numbers parse |
| Css.OklabSToRgbF | hclsliders/colorconversion.py:443-472 | a colour is produced exactly when the text parses, and it lies in the unit cube |
| Css.OklabTextRoundTrip | hclsliders/colorconversion.py:443-466 | `oklab(p% a b)` with in-range values reads as Lab(p/100, a, b) |
| Css.NormalizeAngle | hclsliders/colorconversion.py:541 | the result is non-negative and the same angle modulo 360; a non-negative angle is kept; a negative one lands in [360, 720) |
| Css.AngleStoDeg | hclsliders/colorconversion.py:529-543 | an angle fails exactly when its number fails; otherwise it is non-negative, the same angle as the unit conversion gives, and in [360, 720) when that was negative |
| Css.AngleUnits | hclsliders/colorconversion.py:531-538 | `deg` keeps the number, `grad` multiplies by 0.9, `turn` by 360, and `rad` converts radians to degrees unless the number ends in `g` |
| Css.RadIsNotGrad | hclsliders/colorconversion.py:533-535 | a `rad` angle whose number does not end in `g` is not taken for `grad` |
| Css.BareAngle | hclsliders/colorconversion.py:539-541 | an angle without a unit is read in degrees |
| Css.ParseOklch | hclsliders/colorconversion.py:552-574 | a reading needs the `oklch` prefix and three arguments, gives L in [0, 1], C in [0, 0.4] and a non-negative hue, and succeeds exactly when both numbers and the angle parse |
| Css.OklchSToRgbF | hclsliders/colorconversion.py:552-576 | a colour is produced exactly when the text parses, and it lies in the unit cube |
| Css.OklchTextClips | hclsliders/colorconversion.py:576 | parsed Oklch text is converted in clip mode, with its chroma cut to the gamut limit |
| Css.OklchTextRoundTrip | hclsliders/colorconversion.py:552-574 | `oklch(p% c h)` with in-range values reads as Lch(p/100, c, h) |
| Parse.Attempts | hclsliders/colorconversion.py:580-601 | every attempt reports the notation of the reader it uses |
| Parse.FirstSuccess | hclsliders/colorconversion.py:603-606 | the index found succeeds and every earlier attempt fails |
| Parse.Try | hclsliders/colorconversion.py:603-608 | the result is None exactly when every attempt fails |
| Parse.TryAppend | hclsliders/colorconversion.py:603-608 | trying two lists in turn is trying their concatenation |
| Parse.FirstReadingWins | hclsliders/colorconversion.py:579-608 | `parseAnything` is None iff every attempt fails, and otherwise returns the colour and notation of an attempt that succeeds after only failures |
| Parse.HexComesFirst | hclsliders/colorconversion.py:582-585 | a successful hex reading wins over every other reading |
| Parse.CurrentNotationAddsNothing | hclsliders/colorconversion.py:591-594 | when the Oklab readers need their function name, the attempt for the selected notation never changes the outcome |
| Parse.NamedText | hclsliders/colorconversion.py:587-590 | text with a function name that no hex attempt reads goes first to that function's reader |
| Parse.UnnamedText | hclsliders/colorconversion.py:596-601 | text without a function name that no hex attempt reads is decided by the bare-number attempts alone |
| Parse.LibraryNeedsNames | hclsliders/colorconversion.py:443-445 | the library's Oklab readers only succeed on text that starts with their function name |
| Parse.HexTextIsHex | hclsliders/colorconversion.py:582-585 | hex text, with or without `#`, is always read as hex, whatever notation is selected |
| Parse.OklabTextIsOklab | hclsliders/colorconversion.py:587-588 | text that starts with `oklab` and reads as Oklab is reported as OKLAB |
| Parse.OklchTextIsOklch | hclsliders/colorconversion.py:589-590 | text that starts with `oklch` and reads as Oklch is reported as OKLCH |
| Parse.BareNumbersAsOklab | hclsliders/colorconversion.py:596-599 | three bare numbers are read as Oklab when OKLAB is selected or the second is negative |
| Parse.BareNumbersAsOklch | hclsliders/colorconversion.py:600-601 | three bare numbers not taken as Oklab are read as Oklch when OKLCH is selected or the hue has a unit |
| Parse.SpacedDigitsReadAsHex | hclsliders/colorconversion.py:582-583 | the six characters `a -b c` are read as a hex colour with a negative middle channel, before any Oklab reading |
| Hexagonal.SectorPermutes | hclsliders/colorconversion.py:611-643 | every sector lays out the same three values (or their linear forms) in some order |
| Hexagonal.SrgbLayout | hclsliders/colorconversion.py:638-639 | in sRGB mode the layout is returned as it is |
| Hexagonal.ArrangeExtremes | hclsliders/colorconversion.py:613-636 | with m ≤ x ≤ v the largest channel is v and the smallest m, in every sector |
| Hexagonal.DeviationBounds | hclsliders/colorconversion.py:695 | the deviation from the sector's secondary colour lies in [0, 1] |
| Hexagonal.Hue | hclsliders/colorconversion.py:664-674 | the hue of a chromatic colour, in sectors, lies in [0, 6) |
| Hexagonal.SectorRoundTrip | hclsliders/colorconversion.py:664-698 | the sector of a colour's hue, filled with its largest, smallest and deviation-given middle channel, is the colour itself |
| Hexagonal.HsvOf | hclsliders/colorconversion.py:653-678 | hue in [0, 360); a neutral colour has hue and saturation 0; for a unit-cube colour S and V are percentages in [0, 100] |
| Hexagonal.RgbFToHsv | hclsliders/colorconversion.py:646-678 | V is the rounded percentage of the largest sRGB channel, and a neutral colour gets hue and saturation 0 |
| Hexagonal.HsvGray | hclsliders/colorconversion.py:681-698 | zero saturation gives the grey v/100 at any hue |
| Hexagonal.HsvExtremes | hclsliders/colorconversion.py:681-698 | the largest channel is v/100 and the smallest v/100·(1 - s/100) |
| Hexagonal.HsvRoundTrip | hclsliders/colorconversion.py:646-698 | converting an sRGB colour that is neutral or has a non-zero value to HSV and back gives the same colour, before rounding |
| Hexagonal.HslOf | hclsliders/colorconversion.py:707-725 | hue in [0, 360), and a neutral colour has hue and saturation 0 |
| Hexagonal.RgbFToHsl | hclsliders/colorconversion.py:701-725 | L is the rounded percentage of the midrange of the sRGB channels, and a neutral colour gets hue and saturation 0 |
| Hexagonal.HslGray | hclsliders/colorconversion.py:728-741 | zero saturation gives the grey l/100 at any hue |
| Hexagonal.HslExtremes | hclsliders/colorconversion.py:728-741 | the midrange of the result is l/100 and its spread is s/100 times the available range 1 - abs(2l - 1) |
| Hexagonal.HslMaxInverse | hclsliders/colorconversion.py:724-736 | the largest channel rebuilt from lightness and saturation is the original largest channel |
| Hexagonal.HslRoundTrip | hclsliders/colorconversion.py:701-741 | converting an sRGB colour that is neutral or has lightness strictly between 0 and 1 to HSL and back gives the same colour, before rounding |
| Hcy.HueLumaRange | hclsliders/colorconversion.py:812-824 | the luma coefficient of every hue lies between the blue and the yellow coefficient, 0.0722 and 0.9278 |
| Hcy.ShareComplement | hclsliders/colorconversion.py:810 | HCY's deviation from the primary complements HSV's deviation from the secondary |
| Hcy.ChromaLimitRange | hclsliders/colorconversion.py:830 | the chroma limit of a luma in [0, 1] lies in [0, 1] and is 0 at black and white |
| Hcy.HcyLimit | hclsliders/colorconversion.py:795-830 | the limit for a hue and luma percentage lies in [0, 1] and is 0 at luma 0 and 100 |
| Hcy.HcyGray | hclsliders/colorconversion.py:801-806 | zero chroma, black or white gives a neutral colour, equal to y/100 when no luma transfer applies |
| Hcy.HcyLuma | hclsliders/colorconversion.py:793-853 | a neutral result has luma y/100 (or -1 for y = -1); a chromatic one has luma y/100, or the hue's own luma when y is -1 or -100 |
| Hcy.HcyClipped | hclsliders/colorconversion.py:826-836 | in clip mode the result has the requested luma, chroma min(c/100, limit), and lies in the unit cube |
| Hcy.HcyScaled | hclsliders/colorconversion.py:837-842 | in scale mode the chroma is c/u of the limit, with the requested luma, in the unit cube |
| Hcy.DrawnInCube | hclsliders/colorconversion.py:843-849 | any chroma up to the limit is drawn with exactly that chroma inside the unit cube |
| Hcy.DrawnLuma | hclsliders/colorconversion.py:843-849 | the drawn channels always have the requested luma |
| Hcy.HcyOf | hclsliders/colorconversion.py:751-789 | a neutral colour keeps the previous hue |
| Hcy.RgbFToHcy | hclsliders/colorconversion.py:744-790 | C is the rounded chroma percentage, Y the rounded Rec. 709 luma percentage, and a neutral colour keeps the previous hue |
| Hcy.HcyHueIsHsvHue | hclsliders/colorconversion.py:758-779 | the HCY hue of a chromatic colour is its HSV hue |
| Hcy.LeadLumaAgrees | hclsliders/colorconversion.py:758-787 | the luma coefficient found from the leading channel matches the one the inverse computes from the hue |
| Hcy.LumaBetween | hclsliders/colorconversion.py:751-754 | the luma of a chromatic colour lies strictly between its smallest and largest channel |
| Hcy.ChromaFits | hclsliders/colorconversion.py:789 | a colour's chroma never exceeds the limit for its hue and luma |
| Hcy.HcyRoundTrip | hclsliders/colorconversion.py:744-853 | converting a unit-cube sRGB colour to HCY and back in clip mode gives the same colour, before rounding, and its chroma is within its limit |
| Slider.NewSlider | hclsliders/hclsliders.py:244-253 | a new slider has the given limit and value 0, and is valid when the limit is positive |
| Slider.SetInterval | hclsliders/hclsliders.py:273-279 | the stored interval lies in [0.1, cap], an in-range request is stored as given, the stored value is the nearest allowed one, and nothing else changes |
| Slider.SetDisplacement | hclsliders/hclsliders.py:281-287 | the stored displacement lies in [0, cap], an in-range request is stored as given, the stored value is the nearest allowed one, and nothing else changes |
| Slider.SettersKeepValid | hclsliders/hclsliders.py:273-287 | both setters keep a slider valid, and setting the value just stored changes nothing |
| Slider.Fraction | hclsliders/hclsliders.py:301-306 | the cursor position, clamped to the slider, is a fraction in [0, 1] of the width, exact when it was already inside |
| Slider.StepPositive | hclsliders/hclsliders.py:310-312 | a valid slider's grid step is positive |
| Slider.Nearest | hclsliders/hclsliders.py:313-317 | the snapped value is within half a step of the pointed value |
| Slider.NearestOnGrid | hclsliders/hclsliders.py:313-317 | the snapped value is a grid point displacement + k·step |
| Slider.NearestIsNearest | hclsliders/hclsliders.py:313-317 | no grid point is closer to the pointed value than the snapped one |
| Slider.Snap | hclsliders/hclsliders.py:309-321 | 0 and the limit are kept; anything else ends up in [0, limit] |
| Slider.SnapOnGrid | hclsliders/hclsliders.py:309-322 | away from the ends, when the nearest grid point lies on the slider, the value snaps to it |
| Slider.SnapIdempotent | hclsliders/hclsliders.py:309-322 | snapping a snapped value changes nothing |
| Slider.EmitValueSnapped | hclsliders/hclsliders.py:300-323 | only the value changes; it lies in [0, limit] or is the pointed value; the ends are kept |
| Slider.ValidSnappable | hclsliders/hclsliders.py:300-323 | on a valid slider a snapped drag always gives a value in [0, limit] |
| Slider.StartValueShift | hclsliders/hclsliders.py:327-329 | a shift-drag starts from the current value at the cursor position, and nothing else changes |
| Slider.Wrap | hclsliders/hclsliders.py:336-345 | on a non-hue slider a negative value becomes 0 and one above the limit becomes the limit, the nearest point of [0, limit]; on a 360 hue slider a negative value gains exactly one turn and one above 360 loses exactly one, so a value within a turn either side lands in [0, 360]; an in-range value is kept |
| Slider.WrapSameAngle | hclsliders/hclsliders.py:336-345 | wrapping on a hue slider keeps the angle modulo 360 |
| Slider.EmitValueShifted | hclsliders/hclsliders.py:331-347 | only the value changes; it lies in [0, limit] on a non-hue slider; on a hue slider a shifted value below 0 or above 360 moves by exactly one turn, keeping its angle; an in-range shifted value is kept |
| Slider.ShiftAtRest | hclsliders/hclsliders.py:327-347 | starting a shift and moving nowhere leaves the value as it was |
| History.IndexOf | hclsliders/hclsliders.py:1548 | `list.index` returns the first position holding the colour |
| History.RemoveAt | hclsliders/hclsliders.py:1550 | `list.pop(i)` keeps every other entry in order and removes exactly one copy of the i-th |
| History.Kept | hclsliders/hclsliders.py:1561-1567 | the trim keeps every entry when memory is 0, at most memory entries when it is positive, and all entries up to the memory |
| History.Trim | hclsliders/hclsliders.py:1561-1567 | the reversed-index loop with its break leaves exactly the first Kept entries |
| History.SetHistory | hclsliders/hclsliders.py:1547-1567 | a known colour moves to the front with the same entries; one already in front changes nothing; a new colour goes in front and the list is trimmed |
| History.MoveToFront | hclsliders/hclsliders.py:1547-1553 | moving a colour to the front keeps the other entries in their order |
| History.NewColorInFront | hclsliders/hclsliders.py:1554-1567 | a new colour is first, followed by the older entries in order, with length min(n + 1, memory), or everything when memory is 0 |
| History.StaysWithinMemory | hclsliders/hclsliders.py:1561-1567 | a history within a positive memory stays within it |
| History.SetHistoryNoDuplicates | hclsliders/hclsliders.py:1547-1567 | recording a colour never creates a duplicate entry |
| History.SetHistoryIdempotent | hclsliders/hclsliders.py:1547-1567 | recording the same colour twice is the same as recording it once |
| History.Without | hclsliders/hclsliders.py:224-226 | removing an inclusive range shortens the list by its width and removes exactly its entries |
| History.WithoutExactly | hclsliders/hclsliders.py:224-226 | in a duplicate-free history, a colour survives iff it was outside the range |
| History.DeleteRange | hclsliders/hclsliders.py:216-226 | Alt-drag from a row to a row removes every entry between them, inclusive, in either direction; when either end is empty space nothing changes |
| Docker.ProfileTRC | hclsliders/hclsliders.py:1139-1145 | a known sRGB profile gives sRGB, a known linear one gives linear, and any other keeps the current mode |
| Docker.ProfileDecides | hclsliders/hclsliders.py:1139-1145 | a compatible profile decides the mode whatever the current one; an incompatible one never changes it |
| Docker.IndexOfNotation | hclsliders/hclsliders.py:1627 | `NOTATION.index` gives the position holding the notation |
| Docker.UpdateNotations | hclsliders/hclsliders.py:1626-1636 | previous and next are the cyclic neighbours of the current notation, and the three are distinct |
| Docker.NotationsCycle | hclsliders/hclsliders.py:1626-1636 | next then previous returns to the same notation, and three steps of next visit every notation |
| Docker.KnownNames | hclsliders/hclsliders.py:1039-1041 | a name is kept iff it was stored and names a channel |
| Docker.KnownNamesAppend | hclsliders/hclsliders.py:1039-1041 | filtering a concatenation filters each part in order |
| Docker.DisplayOrder | hclsliders/hclsliders.py:1037-1043 | the known stored names when there are any, otherwise every channel; only channels appear |
| Docker.ReadDisplayOrder | hclsliders/hclsliders.py:1037-1043 | the loop builds exactly that display order |
| Docker.ReadSettings | hclsliders/hclsliders.py:1037-1060 | once the channel loop has finished: only two-field history and syntax entries are read; a stored memory is taken exactly when it is an integer in 0..999, otherwise the old memory stays; anything but `False` enables; a stored notation is taken exactly when it is a name in NOTATION, otherwise the old one stays |
| Docker.InitialSettings | hclsliders/hclsliders.py:911-913 | the docker starts with memory 30, which is in range, and the first notation |
| Docker.ReadSettingsValid | hclsliders/hclsliders.py:1045-1053 | once the channel loop has finished, stored history, syntax and display entries, whatever they hold, leave the memory in range and the display order made of channels; a well-formed memory is taken as stored |
| Docker.ReadSliderSettings | hclsliders/hclsliders.py:1009-1023 | an entry of two or more fields sets interval and displacement through their setters, each only when it parses, and keeps the slider valid |
| Docker.FirstAbort | hclsliders/hclsliders.py:1009-1032 | the first channel whose entry has two fields and needs a third (a scale or colourful flag), with no such channel before it; none exactly when no entry is of that kind |
| Docker.ReadSliders | hclsliders/hclsliders.py:1009-1032 | a channel with no aborting entry before it has interval and displacement read; every channel after an aborting entry keeps its slider |
| Docker.ReadStored | hclsliders/hclsliders.py:1008-1060 | when some channel entry raises IndexError the remaining settings are never read and stay as they were; otherwise they are read as `ReadSettings` states; a memory in range stays in range |
| Docker.WrittenEntryReads | hclsliders/hclsliders.py:1062-1077 | an entry with the fields `writeSettings` stores for its channel never aborts the loop |
| Docker.WrittenSettingsRead | hclsliders/hclsliders.py:1008-1077 | settings stored by `writeSettings` are read in full: every slider entry and every later setting |
| Docker.TwoFieldHueAborts | hclsliders/hclsliders.py:1025-1032 | the two-field entry "1.0,0.0" for `hcyHue` aborts the loop and leaves the settings unchanged |

## Left out

- Floating point: every float is an exact real, so no property speaks of
  IEEE rounding, NaN or infinity. The OKHSL and HCY round trips hold
  exactly for reals and only up to rounding in the plugin.
- `round(x, n)`, `float(...)`, base-10 `int(...)`, `math.degrees`, the
  trigonometry, the sRGB transfer functions `componentToSRGB` and
  `componentToLinear`, and the gamut searches `findGamutIntersection`,
  `findCuspLC` and `getCs` are fields of `Numerics` and left
  uninterpreted. So are `cuspToST` and the chromatic branch of
  `okhsvToRgbF`. No property depends on what they compute.
- Oklab.ToeInv: modelled concretely, with the source's constants,
  because it is a simple rational function. The forward `toe` is not
  modelled.
- The forward Oklab conversions (`linearToOklab`, `rgbFToOklab*`,
  `rgbFToOklch*`, `rgbFToOkhcl`, `rgbFToOkhsv`) and `cartesianToPolar` are
  not modelled. Of `rgbFToOkhsl` only the saturation interpolation is:
  `Oklab.OkhslSaturation` and `Oklab.OkhslRoundTrip`.
- The patch that moves hues in (264.052, 264.06) to 264.06 is not
  modelled, and neither is the chroma adjustment that goes with it.
- Oklab.OkhslSaturation: requires a non-zero denominator in the
  interpolation. The source divides unguarded and would raise
  ZeroDivisionError.
- Every requires that keeps a divisor non-zero excludes an input the
  source does not handle either (it raises ZeroDivisionError). Examples
  are `Slider.Fraction` with width 0, `Oklab.ToeInv` at -K2, and
  `HsvDefined` and `HslDefined` in `Hexagonal`.
- HexCodec.IntHex: models `int(x, 16)` for ASCII digits, Python
  whitespace and one sign. Non-ASCII Unicode digits and underscores,
  which Python also accepts, are not modelled.
- Hexagonal.HsvRoundTrip: stated for sRGB mode and exact values, as is
  `Hexagonal.HslRoundTrip`. In linear mode the round trip goes through
  the uninterpreted transfer functions.
- Hcy.HcyRoundTrip: stated for clip mode (u = -1), sRGB and
  `luma = false`.
- Hcy.HcyClipped: requires a non-negative hue and a luma in [0, 100], as
  does `Hcy.HcyScaled`. For other inputs the source draws colours outside the
  cube.
- The y = -1 request of `hcyToRgbF` ("draw at the hue's own luma") is
  modelled as written, including its quirk: a y of -100, which divides to
  -1, takes the same path.
- `ChannelSlider.emitValueChanged` (the plain drag) is not a separate
  member. Its position arithmetic and rounding are `Slider.Pointed`,
  shared with the snapped drag.
- Qt signals, painting, mouse events other than their arithmetic,
  timers, `QListWidget` rows (which mirror the history list row for row),
  `setPastColorToFG`/`BG`, and the Krita API (reading and writing
  settings, canvas colours, profiles) are not modelled.
- `setHistory`'s early return while the colour is changing is not
  modelled. That return depends on Krita state.
- The per-channel scale, colourful and luma flags that `readSettings`
  reads after interval and displacement are not modelled. The IndexError
  that reading them raises on a two-field entry is (`Docker.EntryAborts`).
- Oklab.OkhsvWhite: in sRGB mode the result is stated only as the clamped
  sRGB encoding of Oklab white, not as exact white, because
  `componentToSRGB` is an uninterpreted field of `Numerics`.
- Notations are a datatype rather than strings. Stored names are mapped
  by `ColorTypes.NotationNamed`.
- A negative memory, as `setHistory` receives it, empties the new history
  (`History.Kept`). This is kept as written, although `readSettings`
  never stores one.
- `__init__.py` and settings.py are not part of this model, apart from
  the shared `NOTATION` tuple.
