/** The pieces of Python's `str` API the notation parsers use: `isspace`,
    `startswith`, `endswith`, `strip(chars)` and `split()`. */
module Text {

  /** `str.isspace` for one character (whitespace, bidi types WS/B/S, Zs). */
  predicate IsSpace(c: char) {
    c == ' ' || '\t' <= c <= '\r' || '\U{1c}' <= c <= '\U{1f}'
    || c == '\U{85}' || c == '\U{a0}' || c == '\U{1680}'
    || '\U{2000}' <= c <= '\U{200a}' || c == '\U{2028}' || c == '\U{2029}'
    || c == '\U{202f}' || c == '\U{205f}' || c == '\U{3000}'
  }

  predicate StartsWith(s: string, prefix: string) {
    |prefix| <= |s| && s[..|prefix|] == prefix
  }

  predicate EndsWith(s: string, suffix: string) {
    |suffix| <= |s| && s[|s| - |suffix|..] == suffix
  }

  lemma EndsWithAppend(t: string, suffix: string)
    ensures EndsWith(t + suffix, suffix)
    ensures (t + suffix)[..|t|] == t
  {
    assert (t + suffix)[|t|..] == suffix;
  }

  /** The characters `strip` drops: whitespace (no argument) or a given set. */
  datatype CharClass = Whitespace | OneOf(chars: set<char>)

  predicate InClass(c: char, k: CharClass) {
    match k
    case Whitespace => IsSpace(c)
    case OneOf(cs) => c in cs
  }

  /** `s.strip()` / `s.strip(chars)`: drop leading and trailing characters of class `k`. */
  function Strip(s: string, k: CharClass): (t: string)
    ensures |t| <= |s|
    ensures |t| > 0 ==> !InClass(t[0], k) && !InClass(t[|t| - 1], k)
    ensures (forall j :: 0 <= j < |s| ==> !InClass(s[j], k)) ==> t == s
  {
    StripRight(StripLeft(s, k), k)
  }

  function StripLeft(s: string, k: CharClass): (t: string)
    ensures |t| <= |s|
    ensures |t| > 0 ==> !InClass(t[0], k)
    ensures |s| > 0 && !InClass(s[0], k) ==> t == s
  {
    if |s| > 0 && InClass(s[0], k) then StripLeft(s[1..], k) else s
  }

  function StripRight(s: string, k: CharClass): (t: string)
    ensures |t| <= |s|
    ensures |t| > 0 ==> !InClass(t[|t| - 1], k)
    ensures |s| > 0 && !InClass(s[|s| - 1], k) ==> t == s
    ensures |s| > 0 && !InClass(s[0], k) ==> |t| > 0 && !InClass(t[0], k)
  {
    if |s| > 0 && InClass(s[|s| - 1], k) then StripRight(s[..|s| - 1], k) else s
  }

  /** A word of `split()`: non-empty and free of whitespace. */
  predicate IsWord(w: string) {
    |w| > 0 && forall j :: 0 <= j < |w| ==> !IsSpace(w[j])
  }

  /** Length of the maximal whitespace-free prefix of `s`. */
  function WordLength(s: string): (k: nat)
    requires |s| > 0 && !IsSpace(s[0])
    ensures 1 <= k <= |s| && IsWord(s[..k])
    ensures k < |s| ==> IsSpace(s[k])
  {
    if |s| == 1 || IsSpace(s[1]) then 1 else 1 + WordLength(s[1..])
  }

  /** `s.split()`: the maximal runs of non-whitespace, in order. */
  function Words(s: string): (ws: seq<string>)
    ensures forall i :: 0 <= i < |ws| ==> IsWord(ws[i])
    ensures (forall j :: 0 <= j < |s| ==> !IsSpace(s[j])) && |s| > 0 ==> ws == [s]
    decreases |s|
  {
    if s == [] then []
    else if IsSpace(s[0]) then Words(s[1..])
    else
      var k := WordLength(s);
      assert (forall j :: 0 <= j < |s| ==> !IsSpace(s[j])) ==> k == |s| && s[..k] == s && s[k..] == [];
      [s[..k]] + Words(s[k..])
  }

  /** `strip` removes one enclosing pair of characters of its class when the
      text between them starts and ends outside the class. */
  lemma StripEnclosed(open: char, body: string, close: char, k: CharClass)
    requires InClass(open, k) && InClass(close, k)
    requires |body| > 0 && !InClass(body[0], k) && !InClass(body[|body| - 1], k)
    ensures Strip([open] + body + [close], k) == body
  {
    var s := [open] + body + [close];
    assert s[1..] == body + [close];
    assert StripLeft(s, k) == body + [close];
    assert (body + [close])[..|body|] == body;
  }

  /** `split()` skips leading whitespace. */
  lemma WordsAfterSpace(c: char, t: string)
    requires IsSpace(c)
    ensures Words([c] + t) == Words(t)
  {
    assert ([c] + t)[1..] == t;
  }

  lemma {:induction false} WordLengthOf(w: string, rest: string)
    requires IsWord(w) && |rest| > 0 && IsSpace(rest[0])
    ensures WordLength(w + rest) == |w|
  {
    var s := w + rest;
    if |w| == 1 {
      assert s[1] == rest[0];
    } else {
      assert s[1] == w[1];
      assert s[1..] == w[1..] + rest;
      assert IsWord(w[1..]);
      WordLengthOf(w[1..], rest);
    }
  }

  /** A word followed by whitespace is the first word of `split()`. */
  lemma WordsCons(w: string, rest: string)
    requires IsWord(w) && |rest| > 0 && IsSpace(rest[0])
    ensures Words(w + rest) == [w] + Words(rest)
  {
    var s := w + rest;
    WordLengthOf(w, rest);
    assert s[..|w|] == w;
    assert s[|w|..] == rest;
  }

  /** `split()` of two words joined by a single space gives them back. */
  lemma WordsOfTwo(w1: string, w2: string)
    requires IsWord(w1) && IsWord(w2)
    ensures Words(w1 + " " + w2) == [w1, w2]
  {
    var tail := [' '] + w2;
    assert w1 + " " + w2 == w1 + tail;
    WordsCons(w1, tail);
    WordsAfterSpace(' ', w2);
    assert Words(w2) == [w2];
  }

  /** `split()` of three words joined by single spaces gives them back. */
  lemma WordsOfThree(w0: string, w1: string, w2: string)
    requires IsWord(w0) && IsWord(w1) && IsWord(w2)
    ensures Words(w0 + " " + w1 + " " + w2) == [w0, w1, w2]
  {
    var rest := w1 + " " + w2;
    Regroup(w0, w1, w2);
    WordsThenSpace(w0, rest);
    WordsOfTwo(w1, w2);
  }

  lemma Regroup(a: string, b: string, c: string)
    ensures a + " " + b + " " + c == a + ([' '] + (b + " " + c))
  {
  }

  /** A word, a space, then any text: the word comes first. */
  lemma WordsThenSpace(w: string, rest: string)
    requires IsWord(w)
    ensures Words(w + ([' '] + rest)) == [w] + Words(rest)
  {
    WordsCons(w, [' '] + rest);
    WordsAfterSpace(' ', rest);
  }
}
