/** Decision rules of the `HCLSliders` docker (hclsliders/hclsliders.py)
    taken out of their widget methods: which transfer mode a colour profile
    means, the neighbours of the current notation, and how stored settings
    are validated when the docker starts. */
module Docker {
  import opened Wrappers
  import opened ColorTypes
  import Slider
  import Text

  /** The profile names the docker treats as sRGB-encoded. */
  const SRGB_PROFILES: seq<string> := ["sRGB-elle-V2-srgbtrc.icc", "sRGB built-in"]

  /** The profile names the docker treats as linear. */
  const LINEAR_PROFILES: seq<string> :=
    ["sRGB-elle-V2-g10.icc", "krita-2.5, lcms sRGB built-in with linear gamma TRC"]

  /** `HCLSliders.profileTRC`: an sRGB profile gives sRGB, a linear one
      gives linear, and any other profile keeps the docker's current mode. */
  function ProfileTRC(profile: string, current: Trc): (t: Trc)
    ensures profile in SRGB_PROFILES ==> t == SRGB
    ensures profile in LINEAR_PROFILES ==> t == Linear
    ensures profile !in SRGB_PROFILES && profile !in LINEAR_PROFILES ==> t == current
  {
    assert profile in LINEAR_PROFILES ==> profile !in SRGB_PROFILES by {
      assert |SRGB_PROFILES[0]| == 24 && |SRGB_PROFILES[1]| == 13;
      assert |LINEAR_PROFILES[0]| == 20 && |LINEAR_PROFILES[1]| == 51;
    }
    if profile in SRGB_PROFILES then SRGB
    else if profile in LINEAR_PROFILES then Linear
    else current
  }

  /** A compatible profile decides the mode on its own; an incompatible one
      never changes it. */
  lemma ProfileDecides(profile: string, t1: Trc, t2: Trc)
    ensures profile in SRGB_PROFILES + LINEAR_PROFILES ==> ProfileTRC(profile, t1) == ProfileTRC(profile, t2)
    ensures profile !in SRGB_PROFILES + LINEAR_PROFILES ==> ProfileTRC(profile, t1) == t1
  {
  }

  /** Position of a notation in `NOTATION`. */
  function IndexOfNotation(n: Notation): (i: nat)
    ensures i < |NOTATION| && NOTATION[i] == n
  {
    match n
    case HEX => 0
    case OKLAB => 1
    case OKLCH => 2
  }

  /** `HCLSliders.updateNotations`: the notations the previous and next
      buttons offer, as (previous, next). */
  function UpdateNotations(current: Notation): (pn: (Notation, Notation))
    ensures var i := IndexOfNotation(current);
      pn.0 == NOTATION[(i + |NOTATION| - 1) % |NOTATION|]
      && pn.1 == NOTATION[(i + 1) % |NOTATION|]
    ensures pn.0 != current && pn.1 != current && pn.0 != pn.1
  {
    var i := IndexOfNotation(current);
    if i == 0 then (NOTATION[|NOTATION| - 1], NOTATION[i + 1])
    else if i == |NOTATION| - 1 then (NOTATION[i - 1], NOTATION[0])
    else (NOTATION[i - 1], NOTATION[i + 1])
  }

  /** Following the next button and then the previous one, or the other
      way round, comes back to the same notation; three presses of either
      visit every notation. */
  lemma NotationsCycle(current: Notation)
    ensures UpdateNotations(UpdateNotations(current).1).0 == current
    ensures UpdateNotations(UpdateNotations(current).0).1 == current
    ensures var a := UpdateNotations(current).1;
      var b := UpdateNotations(a).1;
      UpdateNotations(b).1 == current && {current, a, b} == {HEX, OKLAB, OKLCH}
  {
  }

  /** The stored settings `readSettings` validates. */
  datatype Settings = Settings(
    displayOrder: seq<string>,
    historyEnabled: bool,
    memory: int,
    syntaxEnabled: bool,
    notation: Notation)

  /** The entries of `displayed` that name a channel, in stored order. */
  function KnownNames(displayed: seq<string>, channels: seq<string>): (r: seq<string>)
    ensures forall x :: x in r <==> x in displayed && x in channels
    ensures |r| <= |displayed|
  {
    if displayed == [] then []
    else
      var rest := KnownNames(displayed[1..], channels);
      if displayed[0] in channels then [displayed[0]] + rest else rest
  }

  /** Keeping the known names of a concatenation keeps those of each part,
      in order; so the result is the stored list with the unknown names
      taken out. */
  lemma {:induction false} KnownNamesAppend(a: seq<string>, b: seq<string>, channels: seq<string>)
    ensures KnownNames(a + b, channels) == KnownNames(a, channels) + KnownNames(b, channels)
    decreases |a|
  {
    if a == [] {
      assert a + b == b;
    } else {
      assert (a + b)[0] == a[0] && (a + b)[1..] == a[1..] + b;
      KnownNamesAppend(a[1..], b, channels);
    }
  }

  /** The display order `readSettings` settles on: the known stored names,
      or every channel when none is known. */
  function DisplayOrder(displayed: seq<string>, channels: seq<string>): (r: seq<string>)
    ensures KnownNames(displayed, channels) != [] ==> r == KnownNames(displayed, channels)
    ensures forall x :: x in r ==> x in channels
    ensures |channels| > 0 ==> |r| > 0
  {
    var known := KnownNames(displayed, channels);
    if known == [] then channels else known
  }

  /** The loop of `readSettings` that rebuilds the display order. */
  method ReadDisplayOrder(displayed: seq<string>, channels: seq<string>) returns (order: seq<string>)
    ensures order == DisplayOrder(displayed, channels)
  {
    order := [];
    var i := 0;
    while i < |displayed|
      invariant 0 <= i <= |displayed|
      invariant order == KnownNames(displayed[..i], channels)
    {
      var name := displayed[i];
      KnownNamesAppend(displayed[..i], [name], channels);
      assert displayed[..i + 1] == displayed[..i] + [name];
      if name in channels {
        order := order + [name];
      }
      i := i + 1;
    }
    assert displayed[..i] == displayed;
    if order == [] {
      order := channels;
    }
  }

  /** A memory setting is accepted when it is an integer from 0 to 999. */
  predicate MemoryInRange(m: int) {
    0 <= m <= 999
  }

  /** `readSettings` after its channel loop (see `ReadStored`), on the
      stored lists, each already split at commas: a history or syntax
      entry is read only when it has exactly two fields, a memory outside
      0..999 or not an integer is ignored, and a notation outside
      `NOTATION` is ignored. */
  function ReadSettings(s: Settings, displayed: seq<string>, channels: seq<string>,
                        history: seq<string>, syntax: seq<string>, n: Numerics): (r: Settings)
    ensures r.displayOrder == DisplayOrder(displayed, channels)
    ensures r.memory == s.memory || MemoryInRange(r.memory)
    ensures |history| != 2 ==> r.memory == s.memory && r.historyEnabled == s.historyEnabled
    ensures |history| == 2 ==> r.historyEnabled == (history[0] != "False")
    ensures |syntax| != 2 ==> r.notation == s.notation && r.syntaxEnabled == s.syntaxEnabled
    ensures |syntax| == 2 ==> r.syntaxEnabled == (syntax[0] != "False")
    ensures r.notation == s.notation || (|syntax| == 2 && NotationName(r.notation) == syntax[1])
    ensures |history| == 2 && n.parseInt(history[1]).Some? && MemoryInRange(n.parseInt(history[1]).value) ==>
      r.memory == n.parseInt(history[1]).value
    ensures |history| == 2 && !(n.parseInt(history[1]).Some? && MemoryInRange(n.parseInt(history[1]).value)) ==>
      r.memory == s.memory
    ensures |syntax| == 2 && NotationNamed(syntax[1]).Some? ==> r.notation == NotationNamed(syntax[1]).value
    ensures |syntax| == 2 && NotationNamed(syntax[1]).None? ==> r.notation == s.notation
  {
    var (enabled, memory) :=
      if |history| == 2 then
        var m := n.parseInt(history[1]);
        (history[0] != "False", if m.Some? && MemoryInRange(m.value) then m.value else s.memory)
      else (s.historyEnabled, s.memory);
    var (shown, notation) :=
      if |syntax| == 2 then
        var named := NotationNamed(syntax[1]);
        (syntax[0] != "False", if named.Some? then named.value else s.notation)
      else (s.syntaxEnabled, s.notation);
    Settings(DisplayOrder(displayed, channels), enabled, memory, shown, notation)
  }

  /** The defaults of `HCLSliders.__init__`: a memory of 30 entries and the
      first notation; the display order is only set by `readSettings`. */
  function InitialSettings(): (s: Settings)
    ensures MemoryInRange(s.memory) && s.notation == NOTATION[0]
  {
    Settings([], true, 30, true, HEX)
  }

  /** Reading the settings after the channel loop keeps the memory in range
      and the display order to known channels, whatever the history, syntax
      and display entries hold, and a well-formed stored memory is taken as
      stored. */
  lemma ReadSettingsValid(s: Settings, displayed: seq<string>, channels: seq<string>,
                          history: seq<string>, syntax: seq<string>, n: Numerics)
    requires MemoryInRange(s.memory)
    ensures var r := ReadSettings(s, displayed, channels, history, syntax, n);
      MemoryInRange(r.memory) && forall x :: x in r.displayOrder ==> x in channels
    ensures |history| == 2 && n.parseInt(history[1]).Some? && MemoryInRange(n.parseInt(history[1]).value) ==>
      ReadSettings(s, displayed, channels, history, syntax, n).memory == n.parseInt(history[1]).value
  {
  }

  /** The per-channel part of `readSettings`: a stored entry with at least
      two fields sets the slider's interval and displacement, each through
      its setter and each only when it parses as a float. */
  function ReadSliderSettings(s: Slider.Slider, settings: seq<string>, n: Numerics): (r: Slider.Slider)
    ensures |settings| <= 1 ==> r == s
    ensures r.(interval := s.interval, displacement := s.displacement) == s
    ensures |settings| > 1 && n.parseFloat(settings[0]).None? ==> r.interval == s.interval
    ensures |settings| > 1 && n.parseFloat(settings[1]).None? ==> r.displacement == s.displacement
    ensures Slider.Valid(s) ==> Slider.Valid(r)
  {
    if |settings| > 1 then
      var x := n.parseFloat(settings[0]);
      var withInterval := if x.Some? then Slider.SetInterval(s, x.value) else s;
      var y := n.parseFloat(settings[1]);
      if y.Some? then Slider.SetDisplacement(withInterval, y.value) else withInterval
    else s
  }

  // ---------------------------------------------------------------------
  // The channel loop of `readSettings` and its IndexError

  /** The channels whose entry carries a `scale` field: the hcy and okhcl
      channels other than the chroma ones. */
  predicate HasScale(name: string) {
    (Text.StartsWith(name, "hcy") || Text.StartsWith(name, "okhcl")) && !Text.EndsWith(name, "Chroma")
  }

  /** The number of fields `writeSettings` stores for a channel: interval
      and displacement, then scale, colourful and luma where they apply. */
  function WrittenWidth(name: string): nat {
    2 + (if HasScale(name) then 1 else 0) + (if Text.EndsWith(name, "Hue") then 1 else 0)
      + (if Text.StartsWith(name, "hcy") then 1 else 0)
  }

  /** A channel entry that `readSettings` reads but cannot finish: with more
      than one field it goes on to `settings[2]` for a scale or a colourful
      flag, which a two-field entry lacks, and Python raises IndexError. */
  predicate EntryAborts(name: string, settings: seq<string>) {
    |settings| > 1 && (HasScale(name) || Text.EndsWith(name, "Hue")) && |settings| < 3
  }

  /** The first channel whose entry aborts the loop, if any. */
  function FirstAbort(names: seq<string>, entries: seq<seq<string>>): (r: Option<nat>)
    requires |names| == |entries|
    ensures r.Some? ==> r.value < |names| && EntryAborts(names[r.value], entries[r.value])
    ensures r.Some? ==> forall j :: 0 <= j < r.value ==> !EntryAborts(names[j], entries[j])
    ensures r.None? <==> forall j :: 0 <= j < |names| ==> !EntryAborts(names[j], entries[j])
  {
    if names == [] then None
    else if EntryAborts(names[0], entries[0]) then Some(0)
    else
      match FirstAbort(names[1..], entries[1..])
      case None => None
      case Some(k) => Some(k + 1)
  }

  /** The sliders after the channel loop: every channel up to and including
      the first one that aborts has its interval and displacement read; the
      channels after it are never reached. */
  function ReadSliders(sliders: seq<Slider.Slider>, names: seq<string>, entries: seq<seq<string>>,
                       n: Numerics): (r: seq<Slider.Slider>)
    requires |sliders| == |names| == |entries|
    ensures |r| == |sliders|
    ensures forall i :: 0 <= i < |r| && (forall j :: 0 <= j < i ==> !EntryAborts(names[j], entries[j])) ==>
      r[i] == ReadSliderSettings(sliders[i], entries[i], n)
    ensures forall i, j :: 0 <= j < i < |r| && EntryAborts(names[j], entries[j]) ==> r[i] == sliders[i]
  {
    var stop := FirstAbort(names, entries);
    seq(|sliders|, i requires 0 <= i < |sliders| =>
      if stop.None? || i <= stop.value then ReadSliderSettings(sliders[i], entries[i], n) else sliders[i])
  }

  /** `readSettings` as a whole: when a channel entry aborts the loop, the
      display order, history and syntax settings are never read and stay as
      they were; otherwise they are read as `ReadSettings` describes. */
  function ReadStored(s: Settings, names: seq<string>, entries: seq<seq<string>>, displayed: seq<string>,
                      channels: seq<string>, history: seq<string>, syntax: seq<string>, n: Numerics): (r: Settings)
    requires |names| == |entries|
    ensures (exists i :: 0 <= i < |names| && EntryAborts(names[i], entries[i])) ==> r == s
    ensures (forall i :: 0 <= i < |names| ==> !EntryAborts(names[i], entries[i])) ==>
      r == ReadSettings(s, displayed, channels, history, syntax, n)
    ensures MemoryInRange(s.memory) ==> MemoryInRange(r.memory)
  {
    if FirstAbort(names, entries).Some? then s
    else ReadSettings(s, displayed, channels, history, syntax, n)
  }

  /** An entry as `writeSettings` stores it never aborts the loop. */
  lemma WrittenEntryReads(name: string, settings: seq<string>)
    requires |settings| == WrittenWidth(name)
    ensures !EntryAborts(name, settings)
  {
  }

  /** Settings as `writeSettings` leaves them are read in full: every slider
      entry and every later setting. */
  lemma WrittenSettingsRead(s: Settings, sliders: seq<Slider.Slider>, names: seq<string>,
                            entries: seq<seq<string>>, displayed: seq<string>, channels: seq<string>,
                            history: seq<string>, syntax: seq<string>, n: Numerics)
    requires |sliders| == |names| == |entries|
    requires forall i :: 0 <= i < |names| ==> |entries[i]| == WrittenWidth(names[i])
    ensures ReadStored(s, names, entries, displayed, channels, history, syntax, n)
      == ReadSettings(s, displayed, channels, history, syntax, n)
    ensures forall i :: 0 <= i < |sliders| ==>
      ReadSliders(sliders, names, entries, n)[i] == ReadSliderSettings(sliders[i], entries[i], n)
  {
    forall i | 0 <= i < |names|
      ensures !EntryAborts(names[i], entries[i])
    {
      WrittenEntryReads(names[i], entries[i]);
    }
  }

  /** A two-field hue entry, as the source never writes one, stops the loop. */
  lemma TwoFieldHueAborts(s: Settings, history: seq<string>, syntax: seq<string>, n: Numerics)
    ensures EntryAborts("hcyHue", ["1.0", "0.0"])
    ensures ReadStored(s, ["hcyHue"], [["1.0", "0.0"]], ["hcyHue"], ["hcyHue"], history, syntax, n) == s
  {
    assert EntryAborts(["hcyHue"][0], [["1.0", "0.0"]][0]);
  }
}
