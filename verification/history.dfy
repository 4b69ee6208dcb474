/** The colour history of the docker (hclsliders/hclsliders.py): a
    most-recently-used list of past colours, newest first. An entry is any
    value with equality; in the plugin it is an (rgb, profile) pair. The
    QListWidget that mirrors the list row for row is not modelled. */
module History {

  predicate NoDuplicates<T(==)>(s: seq<T>) {
    forall i, j :: 0 <= i < j < |s| ==> s[i] != s[j]
  }

  /** Python `list.index`: the first position of `x`. */
  function IndexOf<T(==)>(s: seq<T>, x: T): (i: nat)
    requires x in s
    ensures i < |s| && s[i] == x
    ensures forall j :: 0 <= j < i ==> s[j] != x
  {
    if s[0] == x then 0 else 1 + IndexOf(s[1..], x)
  }

  /** Python `list.pop(i)`, for the list left behind. */
  function RemoveAt<T>(s: seq<T>, i: nat): (r: seq<T>)
    requires i < |s|
    ensures |r| == |s| - 1
    ensures forall j :: 0 <= j < i ==> r[j] == s[j]
    ensures forall j :: i <= j < |r| ==> r[j] == s[j + 1]
    ensures multiset(r) + multiset{s[i]} == multiset(s)
  {
    assert s == s[..i] + [s[i]] + s[i + 1..];
    s[..i] + s[i + 1..]
  }

  /** How many entries survive the trim after a new colour is added: all
      of them when `memory` is zero, at most `memory` when it is positive,
      and none when it is negative (every index then exceeds `memory - 1`). */
  function Kept(count: nat, memory: int): (k: nat)
    ensures k <= count
    ensures memory > 0 ==> k <= memory && (count <= memory ==> k == count)
    ensures memory == 0 ==> k == count
  {
    if memory == 0 then count
    else if memory < 0 then 0
    else if count <= memory then count
    else memory
  }

  /** The trim loop of `HCLSliders.setHistory`: walk the indices from the
      last one down, dropping the last entry while the index is past the
      memory, and stop at the first index that is not. */
  method Trim<T>(past: seq<T>, memory: int) returns (r: seq<T>)
    ensures r == past[..Kept(|past|, memory)]
  {
    r := past;
    if memory != 0 {
      var i := |past|;
      while i > 0
        invariant Kept(|past|, memory) <= i <= |past|
        invariant r == past[..i]
        decreases i
      {
        if i - 1 > memory - 1 {
          r := r[..|r| - 1];
          i := i - 1;
        } else {
          break;
        }
      }
      assert i == Kept(|past|, memory);
    }
  }

  /** `HCLSliders.setHistory` for the current colour `color`. A colour
      already in the list moves to the front (nothing happens when it is
      there already); a new colour is put in front and the list trimmed to
      the memory. */
  function SetHistory<T(==)>(past: seq<T>, color: T, memory: int): (r: seq<T>)
    ensures color in past ==> |r| == |past| && multiset(r) == multiset(past)
    ensures color in past ==> r[0] == color
    ensures color in past && past[0] == color ==> r == past
    ensures color !in past ==> r == ([color] + past)[..Kept(|past| + 1, memory)]
  {
    if color in past then
      var index := IndexOf(past, color);
      if index != 0 then [color] + RemoveAt(past, index) else past
    else
      var added := [color] + past;
      added[..Kept(|added|, memory)]
  }

  /** A colour that moves to the front leaves the other entries in their
      relative order. */
  lemma MoveToFront<T>(past: seq<T>, color: T, memory: int)
    requires color in past
    ensures SetHistory(past, color, memory)[1..] == RemoveAt(past, IndexOf(past, color))
  {
  }

  /** A new colour is in front, and the list never outgrows a positive
      memory or loses more than the overflow. */
  lemma NewColorInFront<T>(past: seq<T>, color: T, memory: int)
    requires color !in past && memory >= 0
    ensures var r := SetHistory(past, color, memory);
      |r| > 0 && r[0] == color
      && (memory > 0 ==> |r| == if |past| + 1 <= memory then |past| + 1 else memory)
      && (memory == 0 ==> r == [color] + past)
      && r[1..] == past[..|r| - 1]
  {
    var r := SetHistory(past, color, memory);
    assert r[1..] == past[..|r| - 1];
  }

  /** A history bounded by a positive memory stays bounded. */
  lemma StaysWithinMemory<T>(past: seq<T>, color: T, memory: int)
    requires memory > 0 && |past| <= memory
    ensures |SetHistory(past, color, memory)| <= memory
  {
  }

  /** Recording a colour never introduces a duplicate. */
  lemma {:induction false} SetHistoryNoDuplicates<T>(past: seq<T>, color: T, memory: int)
    requires NoDuplicates(past)
    ensures NoDuplicates(SetHistory(past, color, memory))
  {
    var r := SetHistory(past, color, memory);
    if color in past {
      var index := IndexOf(past, color);
      if index != 0 {
        var rest := RemoveAt(past, index);
        forall i, j | 0 <= i < j < |r|
          ensures r[i] != r[j]
        {
          if i == 0 {
            assert r[j] == rest[j - 1];
            assert j - 1 < index ==> rest[j - 1] == past[j - 1];
            assert j - 1 >= index ==> rest[j - 1] == past[j];
          } else {
            assert r[i] == rest[i - 1] && r[j] == rest[j - 1];
          }
        }
      }
    } else {
      var added := [color] + past;
      forall i, j | 0 <= i < j < |r|
        ensures r[i] != r[j]
      {
        assert r[i] == added[i] && r[j] == added[j];
        if i > 0 {
          assert added[i] == past[i - 1] && added[j] == past[j - 1];
        } else {
          assert added[j] == past[j - 1];
        }
      }
    }
  }

  /** Recording the same colour twice is recording it once. */
  lemma SetHistoryIdempotent<T>(past: seq<T>, color: T, memory: int)
    ensures SetHistory(SetHistory(past, color, memory), color, memory)
      == SetHistory(past, color, memory)
  {
    var r := SetHistory(past, color, memory);
    if color !in past {
      if memory < 0 {
        assert r == [];
      } else {
        assert r[0] == color;
      }
    }
  }

  /** The entries between the two indices, inclusive, taken out. */
  function Without<T>(past: seq<T>, lo: nat, hi: nat): (r: seq<T>)
    requires lo <= hi < |past|
    ensures |r| == |past| - (hi - lo + 1)
    ensures multiset(r) + multiset(past[lo..hi + 1]) == multiset(past)
  {
    assert past == past[..lo] + past[lo..hi + 1] + past[hi + 1..];
    past[..lo] + past[hi + 1..]
  }

  /** In a history without duplicates, a colour survives the deletion
      exactly when it was outside the range. */
  lemma WithoutExactly<T>(past: seq<T>, lo: nat, hi: nat, x: T)
    requires lo <= hi < |past| && NoDuplicates(past)
    ensures x in Without(past, lo, hi) <==> x in past && x !in past[lo..hi + 1]
  {
    var r := Without(past, lo, hi);
    forall q | lo <= q <= hi
      ensures past[q] in past[lo..hi + 1]
    {
      assert past[lo..hi + 1][q - lo] == past[q];
    }
    if x in r {
      var k :| 0 <= k < |r| && r[k] == x;
      var p := if k < lo then k else k + (hi - lo + 1);
      assert past[p] == x;
      forall q | lo <= q <= hi
        ensures past[q] != x
      {
        assert p != q;
      }
    }
    if x in past && x !in past[lo..hi + 1] {
      var p :| 0 <= p < |past| && past[p] == x;
      assert p < lo || p > hi;
      if p < lo {
        assert r[p] == x;
      } else {
        assert r[p - (hi - lo + 1)] == x;
      }
    }
  }

  /** The Alt-drag release of `ColorHistory.mouseReleaseEvent`: with both
      the press row and the release row on an item (a row of -1 is empty
      space), pop every index from the larger row down to the smaller. */
  method DeleteRange<T>(past: seq<T>, press: int, release: int) returns (r: seq<T>)
    requires -1 <= press < |past| && -1 <= release < |past|
    ensures press == -1 || release == -1 ==> r == past
    ensures press != -1 && release != -1 ==>
      r == Without(past, if press < release then press else release,
                         if press < release then release else press)
  {
    r := past;
    if press != -1 && release != -1 {
      var start, stop := release, press;
      if press > release {
        start, stop := press, release;
      }
      var i := start;
      while i >= stop
        invariant stop - 1 <= i <= start
        invariant r == past[..i + 1] + past[start + 1..]
        decreases i
      {
        assert r[..i] + r[i + 1..] == past[..i] + past[start + 1..];
        r := RemoveAt(r, i);
        i := i - 1;
      }
      assert r == past[..stop] + past[start + 1..];
    }
  }
}
