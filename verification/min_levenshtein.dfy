/**
  `minLevenshtein(haystack, needle)` of `src/util.js`: the least edit
  distance from the needle to any window of the haystack whose width is the
  needle's length. JavaScript's `Infinity`, the result for an empty window
  list, is `None`.
 */
module FuzzyMatch {
  import opened Wrappers
  import opened Levenshtein
  import opened SubstringWindows

  /** `Math.min(acc, d)` with `None` standing for `Infinity`. */
  function MinWith(acc: Option<nat>, d: nat): (r: Option<nat>)
    ensures r.Some?
    ensures r.value <= d && (acc.Some? ==> r.value <= acc.value)
    ensures r.value == d || (acc.Some? && r.value == acc.value)
  {
    match acc
    case None => Some(d)
    case Some(a) => if a <= d then Some(a) else Some(d)
  }

  /** `ds.reduce(min, Infinity)`: the least element, or `None` for no elements. */
  function ReduceMin(ds: seq<nat>): (r: Option<nat>)
    ensures r.None? <==> |ds| == 0
    ensures r.Some? ==> forall i :: 0 <= i < |ds| ==> r.value <= ds[i]
    ensures r.Some? ==> exists i :: 0 <= i < |ds| && ds[i] == r.value
  {
    if |ds| == 0 then None else MinWith(ReduceMin(ds[..|ds| - 1]), ds[|ds| - 1])
  }

  /** `windows.map(s => levenshtein(s, needle))`. */
  function DistancesTo(windows: seq<string>, needle: string): (ds: seq<nat>)
    ensures |ds| == |windows|
    ensures forall i :: 0 <= i < |ds| ==> ds[i] == Distance(windows[i], needle)
  {
    seq(|windows|, i requires 0 <= i < |windows| => Distance(windows[i], needle))
  }

  /**
    `windows.map(s => levenshtein(s, needle)).reduce(min, Infinity)`: no
    window is closer than the result, some window is exactly that close, and
    there is no result only when there is no window at all.
   */
  function MinDistance(windows: seq<string>, needle: string): (r: Option<nat>)
    ensures r.None? <==> windows == []
    ensures forall w :: w in windows ==> r.Some? && r.value <= Distance(w, needle)
    ensures r.Some? ==> exists w :: w in windows && r.value == Distance(w, needle)
  {
    var r := ReduceMin(DistancesTo(windows, needle));
    assert forall w :: w in windows ==> r.Some? && r.value <= Distance(w, needle) by {
      forall w | w in windows
        ensures r.Some? && r.value <= Distance(w, needle)
      {
        var i :| 0 <= i < |windows| && windows[i] == w;
        assert DistancesTo(windows, needle)[i] == Distance(w, needle);
      }
    }
    r
  }

  /** `minLevenshtein(haystack, needle)`: the least distance to a window as wide as the needle. */
  function MinLevenshtein(haystack: string, needle: string): (r: Option<nat>)
    ensures r.None? <==> Substrings(haystack, |needle|) == []
    ensures forall w :: w in Substrings(haystack, |needle|) ==> r.Some? && r.value <= Distance(w, needle)
    ensures r.Some? ==> exists w :: w in Substrings(haystack, |needle|) && r.value == Distance(w, needle)
  {
    MinDistance(Substrings(haystack, |needle|), needle)
  }

  /**
    The result is "infinite" exactly for an empty haystack and a
    one-character needle: without padding, `aperture(1, [])` has no runs.
   */
  lemma MinLevenshteinInfinite(haystack: string, needle: string)
    ensures MinLevenshtein(haystack, needle).None? <==> haystack == "" && |needle| == 1
  {
    if haystack == "" {
      SubstringsOfEmpty(|needle|);
    } else {
      SubstringsOfNonEmpty(haystack, |needle|);
    }
  }

  /** Against an empty haystack every other needle is its own length away: the one window is `""`. */
  lemma MinLevenshteinOfEmptyHaystack(needle: string)
    requires |needle| != 1
    ensures MinLevenshtein("", needle) == Some(|needle|)
  {
    SubstringsOfEmpty(|needle|);
    assert "" in Substrings("", |needle|);
  }

  /** The result never exceeds the needle's length, since no window is longer than the needle. */
  lemma MinLevenshteinAtMostNeedle(haystack: string, needle: string)
    requires haystack != "" || |needle| != 1
    ensures MinLevenshtein(haystack, needle).Some?
    ensures MinLevenshtein(haystack, needle).value <= |needle|
  {
    var r := MinLevenshtein(haystack, needle);
    MinLevenshteinInfinite(haystack, needle);
    var w :| w in Substrings(haystack, |needle|) && r.value == Distance(w, needle);
    if haystack == "" {
      SubstringsOfEmpty(|needle|);
    } else if |needle| == 0 {
      var ws := Windows(haystack, 0);
      DropRepeatsSameElements(ws, w);
      var k :| 0 <= k < |ws| && ws[k] == w;
    } else {
      SubstringsAreShortSlices(haystack, |needle|, w);
    }
  }

  /**
    A lower bound from a character class: if no slice of the haystack as wide
    as the needle holds more than `bound` characters of `cs`, the needle is at
    least its own count of those characters minus `bound` away.
   */
  lemma {:induction false} MinLevenshteinAtLeast(haystack: string, needle: string, cs: set<char>, bound: nat)
    requires forall i: nat, j: nat :: i <= j <= |haystack| && j - i <= |needle| ==> CountIn(cs, haystack[i..j]) <= bound
    ensures MinLevenshtein(haystack, needle).Some? ==>
      MinLevenshtein(haystack, needle).value + bound >= CountIn(cs, needle)
  {
    var r := MinLevenshtein(haystack, needle);
    if r.Some? {
      var w :| w in Substrings(haystack, |needle|) && r.value == Distance(w, needle);
      WindowClassCount(haystack, needle, cs, bound, w);
      DistanceAtLeastClassDeficit(cs, w, needle);
    }
  }

  /** Under the hypothesis of `MinLevenshteinAtLeast`, each window holds at most `bound` characters of `cs`. */
  lemma WindowClassCount(haystack: string, needle: string, cs: set<char>, bound: nat, w: string)
    requires forall i: nat, j: nat :: i <= j <= |haystack| && j - i <= |needle| ==> CountIn(cs, haystack[i..j]) <= bound
    requires w in Substrings(haystack, |needle|)
    ensures CountIn(cs, w) <= bound
  {
    SubstringsAreSlices(haystack, |needle|, w);
    var i: nat, j: nat :| i <= j <= |haystack| && j - i <= |needle| && w == haystack[i..j];
  }

  /**
    `str.substr(i, len)` for non-negative arguments: the slice starting at
    `i`, as long as `len` unless the string ends first, and empty when `i` is
    past the end.
   */
  function Substr(s: string, i: nat, len: nat): (r: string)
    ensures |r| <= len
    ensures i >= |s| ==> r == ""
    ensures i < |s| ==> i + |r| <= |s| && r == s[i..i + |r|] && (|r| == len || i + |r| == |s|)
  {
    var a := if i < |s| then i else |s|;
    var b := if a + len < |s| then a + len else |s|;
    s[a..b]
  }

  /** A needle that is itself one of the windows is found at distance zero. */
  lemma {:induction false} MinLevenshteinOfWindow(haystack: string, needle: string)
    requires needle in Substrings(haystack, |needle|)
    ensures MinLevenshtein(haystack, needle) == Some(0)
  {
    MinDistanceOfMember(Substrings(haystack, |needle|), needle);
  }

  /** A list that holds the needle itself has least distance zero. */
  lemma MinDistanceOfMember(windows: seq<string>, needle: string)
    requires needle in windows
    ensures MinDistance(windows, needle) == Some(0)
  {
    DistanceToSelf(needle);
  }

  /** A piece cut out of the haystack is always found at distance zero. */
  lemma {:induction false} MinLevenshteinOfSubstr(s: string, i: nat, len: nat)
    ensures MinLevenshtein(s, Substr(s, i, len)) == Some(0)
  {
    var needle := Substr(s, i, len);
    var a: nat := if i < |s| then i else |s|;
    assert a + |needle| <= |s| && needle == s[a..a + |needle|];
    FullSliceIsSubstring(s, |needle|, a);
    MinLevenshteinOfWindow(s, needle);
  }
}
