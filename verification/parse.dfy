/** `Convert.parseAnything`: the text typed into the colour field is tried
    against the hex, `oklab(...)` and `oklch(...)` readers in a fixed order,
    and the first reading that succeeds wins, together with its notation.
    The order is stated for any three readers; `Library` supplies the ones
    of the conversion library. */
module Parse {
  import opened Wrappers
  import opened ColorTypes
  import opened Text
  import opened HexCodec
  import opened Css

  /** The three text readers of the conversion library. */
  datatype Reader = HexReader | OklabReader | OklchReader

  /** One entry of the `attempt` list: a reader, the text it is given and
      the notation reported when it succeeds. */
  datatype Attempt = Attempt(reader: Reader, text: string, notation: Notation)

  /** A reading function for each reader. */
  datatype Readers = Readers(hex: string -> Option<Rgb>, oklab: string -> Option<Rgb>, oklch: string -> Option<Rgb>)

  /** `hexSToRgbF`, `oklabSToRgbF` and `oklchSToRgbF` for one transfer mode. */
  function Library(trc: Trc, n: Numerics): Readers {
    Readers(s => HexSToRgbF(s, trc, n), s => OklabSToRgbF(s, trc, n), s => OklchSToRgbF(s, trc, n))
  }

  /** The notation each reader stands for. */
  function NotationOf(r: Reader): Notation {
    match r
    case HexReader => HEX
    case OklabReader => OKLAB
    case OklchReader => OKLCH
  }

  predicate WellTagged(a: Attempt) {
    a.notation == NotationOf(a.reader)
  }

  predicate AllTagged(tries: seq<Attempt>) {
    forall i :: 0 <= i < |tries| ==> WellTagged(tries[i])
  }

  lemma TaggedConcat(xs: seq<Attempt>, ys: seq<Attempt>)
    requires AllTagged(xs) && AllTagged(ys)
    ensures AllTagged(xs + ys)
  {
    forall i | 0 <= i < |xs + ys|
      ensures WellTagged((xs + ys)[i])
    {
      if i >= |xs| {
        assert (xs + ys)[i] == ys[i - |xs|];
      }
    }
  }

  function Outcome(a: Attempt, rd: Readers): Option<Rgb> {
    match a.reader
    case HexReader => rd.hex(a.text)
    case OklabReader => rd.oklab(a.text)
    case OklchReader => rd.oklch(a.text)
  }

  // ---------------------------------------------------------------------
  // The attempt list

  /** The hex readings: bare `RGB`/`RRGGBB` with `#` put in front, or the
      text itself when it starts with `#`. */
  function HexAttempts(syntax: string): (tries: seq<Attempt>)
    ensures AllTagged(tries)
  {
    (if |syntax| == 3 || |syntax| == 6 then [Attempt(HexReader, "#" + syntax, HEX)] else [])
    + (if (|syntax| == 4 || |syntax| == 7) && syntax[0] == '#' then [Attempt(HexReader, syntax, HEX)] else [])
  }

  /** The readings the function name at the front of the text asks for. */
  function PrefixAttempts(syntax: string): (tries: seq<Attempt>)
    ensures AllTagged(tries)
  {
    (if StartsWith(syntax, "oklab") then [Attempt(OklabReader, syntax, OKLAB)] else [])
    + (if StartsWith(syntax, "oklch") then [Attempt(OklchReader, syntax, OKLCH)] else [])
  }

  /** The reading of the notation currently selected in the docker. */
  function CurrentAttempts(syntax: string, cur: Notation): (tries: seq<Attempt>)
    ensures AllTagged(tries)
  {
    (if cur == OKLAB then [Attempt(OklabReader, syntax, OKLAB)] else [])
    + (if cur == OKLCH then [Attempt(OklchReader, syntax, OKLCH)] else [])
  }

  /** A hue unit at the end of a word. */
  predicate HasAngleUnit(w: string) {
    EndsWith(w, "deg") || EndsWith(w, "grad") || EndsWith(w, "rad") || EndsWith(w, "turn")
  }

  /** Three bare numbers: read as `oklab(...)` when the current notation is
      OKLAB or the second starts with a minus sign, and as `oklch(...)` when
      the current notation is OKLCH or the third carries a hue unit. */
  function BareAttempts(ws: seq<string>, cur: Notation): (tries: seq<Attempt>)
    requires forall i :: 0 <= i < |ws| ==> IsWord(ws[i])
    ensures AllTagged(tries)
  {
    if |ws| != 3 then []
    else
      assert IsWord(ws[1]);
      (if cur == OKLAB || ws[1][0] == '-' then [Attempt(OklabReader, Enclose("oklab", ws[0], ws[1], ws[2]), OKLAB)] else [])
      + (if cur == OKLCH || HasAngleUnit(ws[2]) then [Attempt(OklchReader, Enclose("oklch", ws[0], ws[1], ws[2]), OKLCH)] else [])
  }

  /** The `attempt` list of `parseAnything`, in order. */
  function Attempts(syntax: string, cur: Notation): (tries: seq<Attempt>)
    ensures forall i :: 0 <= i < |tries| ==> WellTagged(tries[i])
  {
    var h, p, c, b := HexAttempts(syntax), PrefixAttempts(syntax), CurrentAttempts(syntax, cur), BareAttempts(Words(syntax), cur);
    TaggedConcat(h, p);
    TaggedConcat(h + p, c);
    TaggedConcat(h + p + c, b);
    h + p + c + b
  }

  // ---------------------------------------------------------------------
  // First success

  /** The index of the first attempt that succeeds, or the length of the
      list when none does. */
  function FirstSuccess(tries: seq<Attempt>, rd: Readers): (k: nat)
    ensures k <= |tries|
    ensures k < |tries| ==> Outcome(tries[k], rd).Some?
    ensures forall j :: 0 <= j < k ==> Outcome(tries[j], rd).None?
  {
    if |tries| == 0 then 0
    else if Outcome(tries[0], rd).Some? then 0
    else 1 + FirstSuccess(tries[1..], rd)
  }

  /** The first success and its notation, or None. */
  function Try(tries: seq<Attempt>, rd: Readers): (r: Option<(Rgb, Notation)>)
    ensures r.None? <==> forall i :: 0 <= i < |tries| ==> Outcome(tries[i], rd).None?
  {
    var k := FirstSuccess(tries, rd);
    if k == |tries| then None else Some((Outcome(tries[k], rd).value, tries[k].notation))
  }

  /** The first success is the only index that succeeds with nothing
      succeeding before it. */
  lemma FirstSuccessUnique(tries: seq<Attempt>, k: nat, rd: Readers)
    requires k <= |tries|
    requires k < |tries| ==> Outcome(tries[k], rd).Some?
    requires forall j :: 0 <= j < k ==> Outcome(tries[j], rd).None?
    ensures FirstSuccess(tries, rd) == k
  {
  }

  /** Trying two lists one after the other is trying their concatenation. */
  lemma TryAppend(xs: seq<Attempt>, ys: seq<Attempt>, rd: Readers)
    ensures Try(xs + ys, rd) == if Try(xs, rd).Some? then Try(xs, rd) else Try(ys, rd)
  {
    var zs := xs + ys;
    var kx := FirstSuccess(xs, rd);
    if kx < |xs| {
      assert zs[kx] == xs[kx];
      FirstSuccessUnique(zs, kx, rd);
    } else {
      var ky := FirstSuccess(ys, rd);
      assert forall j :: |xs| <= j < |zs| ==> zs[j] == ys[j - |xs|];
      FirstSuccessUnique(zs, |xs| + ky, rd);
    }
  }

  /** Attempts that all fail can be skipped. */
  lemma SkipFailures(xs: seq<Attempt>, ys: seq<Attempt>, rd: Readers)
    requires Try(xs, rd).None?
    ensures Try(xs + ys, rd) == Try(ys, rd)
  {
    TryAppend(xs, ys, rd);
  }

  /** A first attempt that succeeds decides the outcome. */
  lemma FirstWins(tries: seq<Attempt>, rd: Readers)
    requires |tries| > 0 && Outcome(tries[0], rd).Some?
    ensures Try(tries, rd) == Some((Outcome(tries[0], rd).value, tries[0].notation))
  {
  }

  /** `parseAnything` with any three readers. */
  function ParseWith(syntax: string, cur: Notation, rd: Readers): Option<(Rgb, Notation)> {
    Try(Attempts(syntax, cur), rd)
  }

  /** None exactly when every attempt fails, and otherwise the reading and
      notation of an attempt that succeeds after only failures. */
  lemma FirstReadingWins(syntax: string, cur: Notation, rd: Readers)
    ensures ParseWith(syntax, cur, rd).None? <==> forall a :: a in Attempts(syntax, cur) ==> Outcome(a, rd).None?
    ensures var r := ParseWith(syntax, cur, rd); var tries := Attempts(syntax, cur);
      r.Some? ==>
        exists i :: (0 <= i < |tries| && tries[i].notation == r.value.1 && Outcome(tries[i], rd) == Some(r.value.0)
          && forall j :: 0 <= j < i ==> Outcome(tries[j], rd).None?)
  {
    var tries := Attempts(syntax, cur);
    assert (forall a :: a in tries ==> Outcome(a, rd).None?) <==>
      (forall i :: 0 <= i < |tries| ==> Outcome(tries[i], rd).None?);
    var k := FirstSuccess(tries, rd);
    if k < |tries| {
      assert tries[k].notation == ParseWith(syntax, cur, rd).value.1;
    }
  }

  /** `Convert.parseAnything(syntax, trc, curNotation)`. */
  function ParseAnything(syntax: string, trc: Trc, cur: Notation, n: Numerics): Option<(Rgb, Notation)> {
    ParseWith(syntax, cur, Library(trc, n))
  }

  // ---------------------------------------------------------------------
  // The order, for any readers

  /** The text the hex reader is given first: `#` put in front of three or
      six characters, else the text itself. */
  function HexInput(syntax: string): string {
    if |syntax| == 3 || |syntax| == 6 then "#" + syntax else syntax
  }

  /** Text that a hex attempt is made for. */
  predicate HexShaped(syntax: string) {
    |syntax| == 3 || |syntax| == 6 || ((|syntax| == 4 || |syntax| == 7) && syntax[0] == '#')
  }

  /** A hex reading of the text, when there is one, wins over every other. */
  lemma HexComesFirst(syntax: string, cur: Notation, rd: Readers)
    requires HexShaped(syntax) && rd.hex(HexInput(syntax)).Some?
    ensures ParseWith(syntax, cur, rd) == Some((rd.hex(HexInput(syntax)).value, HEX))
  {
    var tries := Attempts(syntax, cur);
    assert tries[0] == Attempt(HexReader, HexInput(syntax), HEX);
    FirstWins(tries, rd);
  }

  /** When the `oklab` and `oklch` readers need their function name, the
      attempt for the selected notation adds nothing: it repeats an attempt
      the function name at the front already made, or it fails. */
  lemma CurrentNotationAddsNothing(syntax: string, cur: Notation, rd: Readers)
    requires forall s :: rd.oklab(s).Some? ==> StartsWith(s, "oklab")
    requires forall s :: rd.oklch(s).Some? ==> StartsWith(s, "oklch")
    ensures ParseWith(syntax, cur, rd)
      == Try(HexAttempts(syntax) + PrefixAttempts(syntax) + BareAttempts(Words(syntax), cur), rd)
  {
    var hp, c, b := HexAttempts(syntax) + PrefixAttempts(syntax), CurrentAttempts(syntax, cur), BareAttempts(Words(syntax), cur);
    assert Attempts(syntax, cur) == (hp + c) + b;
    TryAppend(hp + c, b, rd);
    TryAppend(hp, c, rd);
    TryAppend(hp, b, rd);
    if Try(hp, rd).None? {
      CurrentRepeats(syntax, cur, rd);
    }
  }

  lemma CurrentRepeats(syntax: string, cur: Notation, rd: Readers)
    requires forall s :: rd.oklab(s).Some? ==> StartsWith(s, "oklab")
    requires forall s :: rd.oklch(s).Some? ==> StartsWith(s, "oklch")
    requires Try(HexAttempts(syntax) + PrefixAttempts(syntax), rd).None?
    ensures Try(CurrentAttempts(syntax, cur), rd).None?
  {
    var h, p, c := HexAttempts(syntax), PrefixAttempts(syntax), CurrentAttempts(syntax, cur);
    forall i | 0 <= i < |c| ensures Outcome(c[i], rd).None? {
      if c[i].reader == OklabReader && StartsWith(syntax, "oklab") {
        assert (h + p)[|h|] == c[i];
      } else if c[i].reader == OklchReader && StartsWith(syntax, "oklch") {
        assert (h + p)[|h + p| - 1] == c[i];
      }
    }
  }

  /** Text that starts with a function name, and that no hex attempt
      reads, goes to that function's reader first. */
  lemma NamedText(syntax: string, cur: Notation, rd: Readers)
    requires Try(HexAttempts(syntax), rd).None?
    requires StartsWith(syntax, "oklab") || StartsWith(syntax, "oklch")
    ensures |PrefixAttempts(syntax)| > 0
    ensures var a := PrefixAttempts(syntax)[0];
      Outcome(a, rd).Some? ==> ParseWith(syntax, cur, rd) == Some((Outcome(a, rd).value, a.notation))
  {
    var h, p := HexAttempts(syntax), PrefixAttempts(syntax);
    var rest := p + CurrentAttempts(syntax, cur) + BareAttempts(Words(syntax), cur);
    assert Attempts(syntax, cur) == h + rest;
    SkipFailures(h, rest, rd);
    assert rest[0] == p[0];
    if Outcome(p[0], rd).Some? {
      FirstWins(rest, rd);
    }
  }

  /** Text that names no function, and that no hex attempt reads, is read
      by the bare-number attempts alone. */
  lemma UnnamedText(syntax: string, cur: Notation, rd: Readers)
    requires forall s :: rd.oklab(s).Some? ==> StartsWith(s, "oklab")
    requires forall s :: rd.oklch(s).Some? ==> StartsWith(s, "oklch")
    requires Try(HexAttempts(syntax), rd).None?
    requires !StartsWith(syntax, "oklab") && !StartsWith(syntax, "oklch")
    ensures ParseWith(syntax, cur, rd) == Try(BareAttempts(Words(syntax), cur), rd)
  {
    var h, b := HexAttempts(syntax), BareAttempts(Words(syntax), cur);
    CurrentNotationAddsNothing(syntax, cur, rd);
    assert PrefixAttempts(syntax) == [];
    DropEmpty(h, PrefixAttempts(syntax), b);
    SkipFailures(h, b, rd);
  }

  lemma DropEmpty<T>(h: seq<T>, p: seq<T>, b: seq<T>)
    requires p == []
    ensures h + p + b == h + b
  {
  }

  // ---------------------------------------------------------------------
  // The library's readers

  /** The library's `oklab` and `oklch` readers need their function name. */
  lemma LibraryNeedsNames(trc: Trc, n: Numerics)
    ensures forall s :: Library(trc, n).oklab(s).Some? ==> StartsWith(s, "oklab")
    ensures forall s :: Library(trc, n).oklch(s).Some? ==> StartsWith(s, "oklch")
  {
  }

  /** With a leading `ok` no hex attempt can succeed. */
  lemma NoHexAfterOk(syntax: string, trc: Trc, n: Numerics)
    requires |syntax| >= 2 && syntax[0] == 'o' && syntax[1] == 'k'
    ensures Try(HexAttempts(syntax), Library(trc, n)).None?
  {
    var h := HexAttempts(syntax);
    forall i | 0 <= i < |h| ensures Outcome(h[i], Library(trc, n)).None? {
      NoHexCodesAfterOk(h[i].text);
    }
  }

  lemma NoHexCodesAfterOk(full: string)
    requires |full| >= 3 && full[1] == 'o' && (full[2] == 'k' || full[2] == 'o')
    ensures HexCodes(full).None?
  {
    assert IntHex('o', 'k').None? && IntHex('o', 'o').None?;
    if |full| == 4 || |full| == 7 {
      assert FieldValue(full, 1).None?;
    }
  }

  lemma OkStart(syntax: string, name: string)
    requires |name| == 5 && name[0] == 'o' && name[1] == 'k' && StartsWith(syntax, name)
    ensures |syntax| >= 2 && syntax[0] == 'o' && syntax[1] == 'k'
  {
    assert syntax[..5][0] == syntax[0] && syntax[..5][1] == syntax[1];
  }

  lemma NotBoth(syntax: string)
    ensures !(StartsWith(syntax, "oklab") && StartsWith(syntax, "oklch"))
  {
    if StartsWith(syntax, "oklch") {
      assert syntax[..5][3] == syntax[3];
    }
  }

  /** Text that is a hex colour with or without its `#`. */
  predicate HexText(syntax: string) {
    ((|syntax| == 3 || |syntax| == 6) && AllHex(syntax))
    || ((|syntax| == 4 || |syntax| == 7) && syntax[0] == '#' && AllHex(syntax[1..]))
  }

  /** Hex text is always read as hex, whatever notation is selected. */
  lemma HexTextIsHex(syntax: string, trc: Trc, cur: Notation, n: Numerics)
    requires HexText(syntax)
    ensures HexSToRgbF(HexInput(syntax), trc, n).Some?
    ensures ParseAnything(syntax, trc, cur, n) == Some((HexSToRgbF(HexInput(syntax), trc, n).value, HEX))
  {
    var full := HexInput(syntax);
    if |syntax| == 3 || |syntax| == 6 {
      assert full[1..] == syntax;
    }
    if |full| == 4 { ShortHexForm(full, trc, n); } else { LongHexForm(full, trc, n); }
    HexComesFirst(syntax, cur, Library(trc, n));
  }

  /** Text that starts with `oklab` and reads as Oklab is Oklab. */
  lemma OklabTextIsOklab(syntax: string, trc: Trc, cur: Notation, n: Numerics)
    requires StartsWith(syntax, "oklab")
    ensures OklabSToRgbF(syntax, trc, n).Some? ==>
      ParseAnything(syntax, trc, cur, n) == Some((OklabSToRgbF(syntax, trc, n).value, OKLAB))
  {
    var rd := Library(trc, n);
    NoHexBeforeName(syntax, "oklab", trc, n);
    if rd.oklab(syntax).Some? {
      NamedOklabFirst(syntax, cur, rd);
    }
  }

  /** Text that starts with `oklch` and reads as Oklch is Oklch. */
  lemma OklchTextIsOklch(syntax: string, trc: Trc, cur: Notation, n: Numerics)
    requires StartsWith(syntax, "oklch")
    ensures OklchSToRgbF(syntax, trc, n).Some? ==>
      ParseAnything(syntax, trc, cur, n) == Some((OklchSToRgbF(syntax, trc, n).value, OKLCH))
  {
    var rd := Library(trc, n);
    NoHexBeforeName(syntax, "oklch", trc, n);
    NotBoth(syntax);
    if rd.oklch(syntax).Some? {
      NamedOklchFirst(syntax, cur, rd);
    }
  }

  /** No hex attempt reads text that starts with an `ok` function name. */
  lemma NoHexBeforeName(syntax: string, name: string, trc: Trc, n: Numerics)
    requires |name| == 5 && name[0] == 'o' && name[1] == 'k' && StartsWith(syntax, name)
    ensures Try(HexAttempts(syntax), Library(trc, n)).None?
  {
    OkStart(syntax, name);
    NoHexAfterOk(syntax, trc, n);
  }

  /** Text named `oklab` goes to the Oklab reader first, for any readers. */
  lemma NamedOklabFirst(syntax: string, cur: Notation, rd: Readers)
    requires Try(HexAttempts(syntax), rd).None?
    requires StartsWith(syntax, "oklab") && rd.oklab(syntax).Some?
    ensures ParseWith(syntax, cur, rd) == Some((rd.oklab(syntax).value, OKLAB))
  {
    NamedText(syntax, cur, rd);
  }

  /** Text named `oklch` goes to the Oklch reader first, for any readers. */
  lemma NamedOklchFirst(syntax: string, cur: Notation, rd: Readers)
    requires Try(HexAttempts(syntax), rd).None?
    requires !StartsWith(syntax, "oklab") && StartsWith(syntax, "oklch") && rd.oklch(syntax).Some?
    ensures ParseWith(syntax, cur, rd) == Some((rd.oklch(syntax).value, OKLCH))
  {
    NamedText(syntax, cur, rd);
  }

  /** Three bare numbers that no hex attempt reads are read as `oklab(...)`
      of the same words when the selected notation is OKLAB or the second
      number is negative, if that reading succeeds. */
  lemma BareNumbersAsOklab(syntax: string, trc: Trc, cur: Notation, n: Numerics)
    requires Try(HexAttempts(syntax), Library(trc, n)).None?
    requires !StartsWith(syntax, "oklab") && !StartsWith(syntax, "oklch")
    requires |Words(syntax)| == 3
    requires var ws := Words(syntax); cur == OKLAB || ws[1][0] == '-'
    requires var ws := Words(syntax); OklabSToRgbF(Enclose("oklab", ws[0], ws[1], ws[2]), trc, n).Some?
    ensures var ws := Words(syntax);
      ParseAnything(syntax, trc, cur, n) == Some((OklabSToRgbF(Enclose("oklab", ws[0], ws[1], ws[2]), trc, n).value, OKLAB))
  {
    var rd := Library(trc, n);
    LibraryNeedsNames(trc, n);
    UnnamedText(syntax, cur, rd);
    BareFirst(Words(syntax), cur, rd);
  }

  /** Three bare numbers that no hex attempt reads and that are not taken
      as Oklab are read as `oklch(...)` of the same words when the selected
      notation is OKLCH or the hue carries a unit. */
  lemma BareNumbersAsOklch(syntax: string, trc: Trc, cur: Notation, n: Numerics)
    requires Try(HexAttempts(syntax), Library(trc, n)).None?
    requires !StartsWith(syntax, "oklab") && !StartsWith(syntax, "oklch")
    requires |Words(syntax)| == 3
    requires var ws := Words(syntax); cur != OKLAB && ws[1][0] != '-'
    requires var ws := Words(syntax); cur == OKLCH || HasAngleUnit(ws[2])
    requires var ws := Words(syntax); OklchSToRgbF(Enclose("oklch", ws[0], ws[1], ws[2]), trc, n).Some?
    ensures var ws := Words(syntax);
      ParseAnything(syntax, trc, cur, n) == Some((OklchSToRgbF(Enclose("oklch", ws[0], ws[1], ws[2]), trc, n).value, OKLCH))
  {
    var rd := Library(trc, n);
    LibraryNeedsNames(trc, n);
    UnnamedText(syntax, cur, rd);
    BareFirst(Words(syntax), cur, rd);
  }

  /** Which bare-number reading comes first, for any readers. */
  lemma BareFirst(ws: seq<string>, cur: Notation, rd: Readers)
    requires |ws| == 3 && IsWord(ws[0]) && IsWord(ws[1]) && IsWord(ws[2])
    ensures var lab := Enclose("oklab", ws[0], ws[1], ws[2]);
      (cur == OKLAB || ws[1][0] == '-') && rd.oklab(lab).Some? ==>
        Try(BareAttempts(ws, cur), rd) == Some((rd.oklab(lab).value, OKLAB))
    ensures var lch := Enclose("oklch", ws[0], ws[1], ws[2]);
      !(cur == OKLAB || ws[1][0] == '-') && (cur == OKLCH || HasAngleUnit(ws[2])) && rd.oklch(lch).Some? ==>
        Try(BareAttempts(ws, cur), rd) == Some((rd.oklch(lch).value, OKLCH))
  {
    var b := BareAttempts(ws, cur);
    if |b| > 0 && Outcome(b[0], rd).Some? {
      FirstWins(b, rd);
    }
  }

  /** Because `int(x, 16)` accepts a sign and blanks inside each pair,
      three single hex digits typed as `a -b c` (say `1 -1 0`, meant as
      three numbers) are read as the hex colour `#a -b c`, with a negative
      middle code, before any Oklab reading is tried. */
  lemma SpacedDigitsReadAsHex(a: char, b: char, c: char, cur: Notation, n: Numerics)
    requires IsHexDigit(a) && IsHexDigit(b) && IsHexDigit(c)
    ensures var syntax := [a, ' ', '-', b, ' ', c];
      ParseAnything(syntax, SRGB, cur, n)
        == Some((Rgb(Code(DigitValue(a)), Code(0 - DigitValue(b)), Code(DigitValue(c))), HEX))
  {
    var syntax := [a, ' ', '-', b, ' ', c];
    var full := "#" + syntax;
    assert full[1] == a && full[2] == ' ' && full[3] == '-' && full[4] == b && full[5] == ' ' && full[6] == c;
    SpacedCodes(full, a, b, c);
    var rgb := Rgb(Code(DigitValue(a)), Code(0 - DigitValue(b)), Code(DigitValue(c)));
    assert HexSToRgbF(full, SRGB, n) == Some(rgb);
    assert HexInput(syntax) == full;
    assert Library(SRGB, n).hex(full) == Some(rgb);
    HexComesFirst(syntax, cur, Library(SRGB, n));
  }

  lemma SpacedCodes(full: string, a: char, b: char, c: char)
    requires IsHexDigit(a) && IsHexDigit(b) && IsHexDigit(c)
    requires |full| == 7 && full[0] == '#'
    requires full[1] == a && full[2] == ' ' && full[3] == '-' && full[4] == b && full[5] == ' ' && full[6] == c
    ensures HexCodes(full) == Some((DigitValue(a) as int, 0 - DigitValue(b), DigitValue(c) as int))
  {
    assert StartsWith(full, "#");
    assert FieldValue(full, 1) == IntHex(a, ' ') == Some(DigitValue(a) as int);
    assert FieldValue(full, 2) == IntHex('-', b) == Some(0 - DigitValue(b));
    assert FieldValue(full, 3) == IntHex(' ', c) == Some(DigitValue(c) as int);
  }
}
