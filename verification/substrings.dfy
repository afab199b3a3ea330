/**
  The window list behind the fuzzy matcher of `src/util.js`: the string is
  split into one-character strings, padded with `len - 1` empty strings on
  each side, cut into every run of `len` consecutive pieces (Ramda's
  `aperture`), each run joined back into a string, and adjacent duplicates
  dropped (Ramda's `dropRepeats`).
 */
module SubstringWindows {

  /** `R.repeat(e, n)`. */
  function Repeat<T>(e: T, n: nat): (r: seq<T>)
    ensures |r| == n
    ensures forall i :: 0 <= i < n ==> r[i] == e
  {
    seq(n, _ => e)
  }

  /** The padding width of `padArray`: `Math.max(count, 0)`. */
  function PadWidth(count: int): nat
  {
    if count < 0 then 0 else count
  }

  /** `padArray(e, count, arr)`: `count` copies of `e` before and after `arr`. */
  function PadArray<T>(e: T, count: int, xs: seq<T>): (r: seq<T>)
    ensures |r| == |xs| + 2 * PadWidth(count)
    ensures forall i :: 0 <= i < |r| ==>
      r[i] == if PadWidth(count) <= i < PadWidth(count) + |xs| then xs[i - PadWidth(count)] else e
  {
    var padding := Repeat(e, PadWidth(count));
    padding + xs + padding
  }

  /**
    The loop of Ramda's `_aperture` from index `idx` on: while
    `idx < |xs| - (n - 1)`, the run `xs[idx..idx + n]` is emitted and `idx`
    moves on by one.
   */
  function ApertureFrom<T>(n: nat, xs: seq<T>, idx: nat): (r: seq<seq<T>>)
    ensures |r| == if idx + n <= |xs| then |xs| + 1 - n - idx else 0
    ensures forall i :: 0 <= i < |r| ==> r[i] == xs[idx + i..idx + i + n]
    decreases |xs| + 1 - idx
  {
    if idx + n > |xs| then []
    else [xs[idx..idx + n]] + ApertureFrom(n, xs, idx + 1)
  }

  /** `R.aperture(n, xs)`: every run of `n` consecutive elements, in order. */
  function Aperture<T>(n: nat, xs: seq<T>): (r: seq<seq<T>>)
    ensures |r| == if n <= |xs| + 1 then |xs| + 1 - n else 0
    ensures forall i :: 0 <= i < |r| ==> r[i] == xs[i..i + n]
  {
    ApertureFrom(n, xs, 0)
  }

  /** `str.split('')`: one single-character string per character. */
  function Chars(s: string): (r: seq<string>)
    ensures |r| == |s|
    ensures forall i :: 0 <= i < |s| ==> r[i] == [s[i]]
  {
    seq(|s|, i requires 0 <= i < |s| => [s[i]])
  }

  /** `parts.join('')`. */
  function Join(parts: seq<string>): string
  {
    if |parts| == 0 then "" else Join(parts[..|parts| - 1]) + parts[|parts| - 1]
  }

  /** The element at `k` equals its successor. */
  predicate DupAt<T(==)>(xs: seq<T>, k: nat)
    requires k + 1 < |xs|
  {
    xs[k] == xs[k + 1]
  }

  predicate NoAdjacentDuplicates<T(==)>(xs: seq<T>)
  {
    forall k: nat :: k + 1 < |xs| ==> !DupAt(xs, k)
  }

  /**
    `R.dropRepeats(xs)`: the first element is kept, and every later one is
    kept unless it equals the last element kept so far.
   */
  function DropRepeats<T(==)>(xs: seq<T>): (r: seq<T>)
    ensures |r| <= |xs|
    ensures |r| == 0 <==> |xs| == 0
    ensures |xs| > 0 ==> r[0] == xs[0] && r[|r| - 1] == xs[|xs| - 1]
    ensures NoAdjacentDuplicates(r)
  {
    if |xs| == 0 then []
    else
      var kept := DropRepeats(xs[..|xs| - 1]);
      if |kept| > 0 && kept[|kept| - 1] == xs[|xs| - 1] then kept
      else
        NoAdjacentDuplicatesSnoc(kept, xs[|xs| - 1]);
        kept + [xs[|xs| - 1]]
  }

  lemma NoAdjacentDuplicatesSnoc<T>(xs: seq<T>, x: T)
    requires NoAdjacentDuplicates(xs)
    requires |xs| > 0 ==> xs[|xs| - 1] != x
    ensures NoAdjacentDuplicates(xs + [x])
  {
    var ys := xs + [x];
    forall k: nat | k + 1 < |ys|
      ensures !DupAt(ys, k)
    {
      if k + 1 < |xs| {
        assert !DupAt(xs, k);
      }
    }
  }

  /** `dropRepeats` keeps every value that occurs and adds none. */
  lemma {:induction false} DropRepeatsSameElements<T>(xs: seq<T>, x: T)
    ensures x in DropRepeats(xs) <==> x in xs
  {
    if |xs| > 0 {
      var init := xs[..|xs| - 1];
      DropRepeatsSameElements(init, x);
      assert xs == init + [xs[|xs| - 1]];
    }
  }

  /** The number of positions `k` in `[lo, hi)` where `xs[k] == xs[k + 1]`. */
  function DupsIn<T(==)>(xs: seq<T>, lo: nat, hi: nat): nat
    requires lo <= hi < |xs|
    decreases hi - lo
  {
    if lo == hi then 0 else DupsIn(xs, lo, hi - 1) + (if DupAt(xs, hi - 1) then 1 else 0)
  }

  lemma {:induction false} DupsInPrefix<T>(xs: seq<T>, m: nat, lo: nat, hi: nat)
    requires lo <= hi < m <= |xs|
    ensures DupsIn(xs[..m], lo, hi) == DupsIn(xs, lo, hi)
    decreases hi - lo
  {
    if lo < hi {
      DupsInPrefix(xs, m, lo, hi - 1);
    }
  }

  lemma {:induction false} DupsInSplit<T>(xs: seq<T>, lo: nat, mid: nat, hi: nat)
    requires lo <= mid <= hi < |xs|
    ensures DupsIn(xs, lo, hi) == DupsIn(xs, lo, mid) + DupsIn(xs, mid, hi)
    decreases hi - mid
  {
    if mid < hi {
      DupsInSplit(xs, lo, mid, hi - 1);
    }
  }

  lemma {:induction false} DupsInNone<T>(xs: seq<T>, lo: nat, hi: nat)
    requires lo <= hi < |xs|
    requires forall k: nat :: lo <= k < hi ==> !DupAt(xs, k)
    ensures DupsIn(xs, lo, hi) == 0
    decreases hi - lo
  {
    if lo < hi {
      DupsInNone(xs, lo, hi - 1);
    }
  }

  lemma {:induction false} DupsInAll<T>(xs: seq<T>, lo: nat, hi: nat)
    requires lo <= hi < |xs|
    requires forall k: nat :: lo <= k < hi ==> DupAt(xs, k)
    ensures DupsIn(xs, lo, hi) == hi - lo
    decreases hi - lo
  {
    if lo < hi {
      DupsInAll(xs, lo, hi - 1);
    }
  }

  lemma DupsInSome<T>(xs: seq<T>, lo: nat, k: nat, hi: nat)
    requires lo <= k < hi < |xs|
    requires DupAt(xs, k)
    ensures DupsIn(xs, lo, hi) >= 1
  {
    DupsInSplit(xs, lo, k + 1, hi);
  }

  /** `dropRepeats` removes exactly one element per adjacent equal pair. */
  lemma {:induction false} DropRepeatsLength<T>(xs: seq<T>)
    requires |xs| > 0
    ensures |DropRepeats(xs)| + DupsIn(xs, 0, |xs| - 1) == |xs|
  {
    if |xs| > 1 {
      var init := xs[..|xs| - 1];
      DropRepeatsLength(init);
      DupsInPrefix(xs, |xs| - 1, 0, |xs| - 2);
    }
  }

  /** A list without adjacent duplicates passes through `dropRepeats` unchanged. */
  lemma {:induction false} DropRepeatsKeepsDistinctNeighbours<T>(xs: seq<T>)
    requires NoAdjacentDuplicates(xs)
    ensures DropRepeats(xs) == xs
  {
    if |xs| > 0 {
      var init := xs[..|xs| - 1];
      forall k: nat | k + 1 < |init|
        ensures !DupAt(init, k)
      {
        assert !DupAt(xs, k);
      }
      DropRepeatsKeepsDistinctNeighbours(init);
      if |xs| > 1 {
        assert !DupAt(xs, |xs| - 2);
      }
      assert init + [xs[|xs| - 1]] == xs;
    }
  }

  /** A non-empty list of one repeated value collapses to that value alone. */
  lemma {:induction false} DropRepeatsConstant<T>(xs: seq<T>, x: T)
    requires |xs| > 0
    requires forall k :: 0 <= k < |xs| ==> xs[k] == x
    ensures DropRepeats(xs) == [x]
  {
    if |xs| > 1 {
      DropRepeatsConstant(xs[..|xs| - 1], x);
    }
  }

  /** Position `k` of `xs` starts a run of equal neighbours in the input. */
  predicate StartsRun<T(==)>(xs: seq<T>, k: nat)
    requires k < |xs|
  {
    k == 0 || xs[k - 1] != xs[k]
  }

  /**
    The elements at the positions below `m` that start a run, in the order of
    their positions: a filter over the input, independent of what was kept.
   */
  function RunStarts<T(==)>(xs: seq<T>, m: nat): seq<T>
    requires m <= |xs|
  {
    if m == 0 then []
    else RunStarts(xs, m - 1) + (if StartsRun(xs, m - 1) then [xs[m - 1]] else [])
  }

  lemma {:induction false} DropRepeatsOfPrefix<T>(xs: seq<T>, m: nat)
    requires m <= |xs|
    ensures DropRepeats(xs[..m]) == RunStarts(xs, m)
  {
    if m > 0 {
      DropRepeatsOfPrefix(xs, m - 1);
      assert xs[..m][..m - 1] == xs[..m - 1];
    }
  }

  /**
    `dropRepeats` keeps exactly the elements that start a run of equal
    neighbours, in their original order.
   */
  lemma {:induction false} DropRepeatsIsRunStarts<T>(xs: seq<T>)
    ensures DropRepeats(xs) == RunStarts(xs, |xs|)
  {
    DropRepeatsOfPrefix(xs, |xs|);
    assert xs[..|xs|] == xs;
  }

  /** The number of empty strings padded on each side for windows of length `len`. */
  function Pad(len: nat): nat
  {
    if len == 0 then 0 else len - 1
  }

  function Clamp(x: int, n: nat): (r: nat)
    ensures r <= n
    ensures 0 <= x <= n ==> r == x
  {
    if x < 0 then 0 else if x > n then n else x
  }

  /** The padded piece list `padArray('', len - 1, str.split(''))`. */
  function Padded(s: string, len: nat): seq<string>
  {
    PadArray("", len - 1, Chars(s))
  }

  /** Joining pieces `a` to `b` of the padded list yields the matching slice of `s`. */
  lemma {:induction false} JoinPadded(s: string, p: nat, a: nat, b: nat)
    requires a <= b <= |s| + 2 * p
    ensures Join(PadArray("", p, Chars(s))[a..b]) == s[Clamp(a - p, |s|)..Clamp(b - p, |s|)]
    decreases b - a
  {
    if a < b {
      JoinPadded(s, p, a, b - 1);
      var xs := PadArray("", p, Chars(s));
      assert xs[a..b][..b - 1 - a] == xs[a..b - 1];
      if p <= b - 1 < p + |s| {
        JoinPaddedCharacter(s, p, a, b);
      } else {
        JoinPaddedPadding(s, p, a, b);
      }
    }
  }

  /** One more piece from inside the string extends the slice by one character. */
  lemma JoinPaddedCharacter(s: string, p: nat, a: nat, b: nat)
    requires a < b <= |s| + 2 * p && p <= b - 1 < p + |s|
    requires Join(PadArray("", p, Chars(s))[a..b - 1]) == s[Clamp(a - p, |s|)..Clamp(b - 1 - p, |s|)]
    ensures Join(PadArray("", p, Chars(s))[a..b]) == s[Clamp(a - p, |s|)..Clamp(b - p, |s|)]
  {
    var xs := PadArray("", p, Chars(s));
    var n := |s|;
    var lo, mid, hi := Clamp(a - p, n), Clamp(b - 1 - p, n), Clamp(b - p, n);
    JoinSliceSnoc(xs, a, b);
    assert xs[b - 1] == [s[b - 1 - p]];
    assert mid == b - 1 - p && hi == b - p;
    SliceSnoc(s, lo, mid);
  }

  /** Joining one more part appends that part. */
  lemma JoinSliceSnoc(parts: seq<string>, a: nat, b: nat)
    requires a < b <= |parts|
    ensures Join(parts[a..b]) == Join(parts[a..b - 1]) + parts[b - 1]
  {
    assert parts[a..b][..b - 1 - a] == parts[a..b - 1];
  }

  /** A slice extended by one character. */
  lemma SliceSnoc(s: string, lo: nat, mid: nat)
    requires lo <= mid < |s|
    ensures s[lo..mid + 1] == s[lo..mid] + [s[mid]]
  {
  }

  /** One more piece of padding leaves the slice as it is. */
  lemma JoinPaddedPadding(s: string, p: nat, a: nat, b: nat)
    requires a < b <= |s| + 2 * p && !(p <= b - 1 < p + |s|)
    requires Join(PadArray("", p, Chars(s))[a..b - 1]) == s[Clamp(a - p, |s|)..Clamp(b - 1 - p, |s|)]
    ensures Join(PadArray("", p, Chars(s))[a..b]) == s[Clamp(a - p, |s|)..Clamp(b - p, |s|)]
  {
    var xs := PadArray("", p, Chars(s));
    JoinSliceSnoc(xs, a, b);
    assert xs[b - 1] == "";
    assert Clamp(b - 1 - p, |s|) == Clamp(b - p, |s|);
  }

  /** Where window `k` starts in a string of length `n`. */
  function WindowLo(n: nat, len: nat, k: nat): nat
  {
    Clamp(k - Pad(len), n)
  }

  /** Where window `k` ends in a string of length `n`. */
  function WindowHi(n: nat, len: nat, k: nat): nat
  {
    Clamp(k - Pad(len) + len, n)
  }

  /** `runs.map(a => a.join(''))`. */
  function JoinEach(runs: seq<seq<string>>): (r: seq<string>)
    ensures |r| == |runs|
    ensures forall k :: 0 <= k < |r| ==> r[k] == Join(runs[k])
  {
    seq(|runs|, k requires 0 <= k < |runs| => Join(runs[k]))
  }

  /**
    The windows before duplicates are dropped: window `k` is the slice of `s`
    that the `k`-th run of the padded piece list covers, clipped to the ends
    of `s`.
   */
  function Windows(s: string, len: nat): (r: seq<string>)
    ensures |r| == if len == 0 then |s| + 1 else |s| + len - 1
    ensures forall k :: 0 <= k < |r| ==> |r[k]| <= len
  {
    var count := if len == 0 then |s| + 1 else |s| + len - 1;
    seq(count, k requires 0 <= k < count => s[WindowLo(|s|, len, k)..WindowHi(|s|, len, k)])
  }

  /**
    The pipeline of `substrings`,
    `R.aperture(len, padArray('', len-1, str.split(''))).map(a => a.join(''))`,
    yields exactly the windows: padding with empty strings and joining the
    runs back together only clips each run to the ends of the string.
   */
  lemma {:induction false} PipelineIsWindows(s: string, len: nat)
    ensures JoinEach(Aperture(len, Padded(s, len))) == Windows(s, len)
  {
    var xs := JoinEach(Aperture(len, Padded(s, len)));
    forall k | 0 <= k < |xs|
      ensures xs[k] == Windows(s, len)[k]
    {
      PipelineWindowAt(s, len, k);
    }
  }

  /** The `k`-th joined run of the padded list is window `k`. */
  lemma PipelineWindowAt(s: string, len: nat, k: nat)
    requires k < |Aperture(len, Padded(s, len))|
    ensures Join(Aperture(len, Padded(s, len))[k]) == s[WindowLo(|s|, len, k)..WindowHi(|s|, len, k)]
  {
    PaddedRun(s, len, k);
    JoinPadded(s, Pad(len), k, k + len);
    assert WindowLo(|s|, len, k) == Clamp(k - Pad(len), |s|);
    assert WindowHi(|s|, len, k) == Clamp(k + len - Pad(len), |s|);
  }

  /** The `k`-th run of the padded list, with the padding width written as `Pad(len)`. */
  lemma PaddedRun(s: string, len: nat, k: nat)
    requires k < |Aperture(len, Padded(s, len))|
    ensures k + len <= |s| + 2 * Pad(len)
    ensures Aperture(len, Padded(s, len))[k] == PadArray("", Pad(len), Chars(s))[k..k + len]
  {
    assert Padded(s, len) == PadArray("", Pad(len), Chars(s));
  }

  /**
    `substrings(str, len)` of `src/util.js`: no two neighbouring substrings
    are equal.
   */
  function Substrings(s: string, len: nat): (r: seq<string>)
    ensures NoAdjacentDuplicates(r)
  {
    DropRepeats(Windows(s, len))
  }

  /** `substrings` as written: `dropRepeats` applied to the joined runs of the padded pieces. */
  lemma SubstringsAsWritten(s: string, len: nat)
    ensures Substrings(s, len) == DropRepeats(JoinEach(Aperture(len, PadArray("", len - 1, Chars(s)))))
  {
    PipelineIsWindows(s, len);
  }

  /**
    The slices of `s` that occur as windows of length `len`: a full run of
    `len` characters, or a shorter prefix or suffix of `s`.
   */
  predicate IsWindowSlice(s: string, len: nat, i: nat, j: nat)
  {
    i < j <= |s| && j - i <= len && (j - i == len || i == 0 || j == |s|)
  }

  /** Each window of a non-empty string is a window slice. */
  lemma WindowIsWindowSlice(s: string, len: nat, k: nat)
    requires |s| > 0 && len >= 1 && k < |s| + len - 1
    ensures IsWindowSlice(s, len, WindowLo(|s|, len, k), WindowHi(|s|, len, k))
  {
  }

  /** Each window slice is the window at a position that can be computed from it. */
  lemma WindowSliceIsWindow(s: string, len: nat, i: nat, j: nat) returns (k: nat)
    requires len >= 1 && IsWindowSlice(s, len, i, j)
    ensures k < |s| + len - 1
    ensures WindowLo(|s|, len, k) == i && WindowHi(|s|, len, k) == j
  {
    k := if j - i == len || j == |s| then i + len - 1 else j - 1;
  }

  /**
    For a non-empty string and `len >= 1`, the elements of `substrings` are
    exactly the window slices: contiguous, non-empty, at most `len` long, and
    shorter than `len` only at the two ends of the string.
   */
  lemma SubstringsElements(s: string, len: nat, w: string)
    requires |s| > 0 && len >= 1
    ensures w in Substrings(s, len) <==> exists i: nat, j: nat :: IsWindowSlice(s, len, i, j) && w == s[i..j]
  {
    var ws := Windows(s, len);
    DropRepeatsSameElements(ws, w);
    if w in Substrings(s, len) {
      var k :| 0 <= k < |ws| && ws[k] == w;
      WindowIsWindowSlice(s, len, k);
      assert w == s[WindowLo(|s|, len, k)..WindowHi(|s|, len, k)];
    }
    if exists i: nat, j: nat :: IsWindowSlice(s, len, i, j) && w == s[i..j] {
      var i: nat, j: nat :| IsWindowSlice(s, len, i, j) && w == s[i..j];
      var k := WindowSliceIsWindow(s, len, i, j);
      assert ws[k] == s[i..j];
    }
  }

  /** Every element is a contiguous piece of `s` of length between 1 and `len`. */
  lemma SubstringsAreShortSlices(s: string, len: nat, w: string)
    requires |s| > 0 && len >= 1
    requires w in Substrings(s, len)
    ensures exists i: nat, j: nat :: i < j <= |s| && j - i <= len && w == s[i..j]
  {
    SubstringsElements(s, len, w);
  }

  /** Whatever the string and width, every element is a slice of `s` at most `len` long. */
  lemma SubstringsAreSlices(s: string, len: nat, w: string)
    requires w in Substrings(s, len)
    ensures exists i: nat, j: nat :: i <= j <= |s| && j - i <= len && w == s[i..j]
  {
    var ws := Windows(s, len);
    DropRepeatsSameElements(ws, w);
    var k :| 0 <= k < |ws| && ws[k] == w;
    var i, j := WindowLo(|s|, len, k), WindowHi(|s|, len, k);
    assert i <= j <= |s| && j - i <= len;
    assert w == s[i..j];
  }

  /** Every run of `len` consecutive characters of `s` is among the windows. */
  lemma FullSliceIsSubstring(s: string, len: nat, i: nat)
    requires i + len <= |s|
    ensures s[i..i + len] in Substrings(s, len)
  {
    var ws := Windows(s, len);
    var k := if len == 0 then i else i + len - 1;
    assert WindowLo(|s|, len, k) == i && WindowHi(|s|, len, k) == i + len;
    assert ws[k] == s[i..i + len];
    DropRepeatsSameElements(ws, ws[k]);
  }

  /**
    The empty haystack: no characters to pad, so one-character windows do not
    exist, while every other width yields the single empty window.
   */
  lemma {:induction false} SubstringsOfEmpty(len: nat)
    ensures Substrings("", len) == if len == 1 then [] else [""]
  {
    var ws := Windows("", len);
    if len != 1 {
      forall k | 0 <= k < |ws|
        ensures ws[k] == ""
      {
      }
      DropRepeatsConstant(ws, "");
    }
  }

  /** A non-empty string always has at least one window. */
  lemma SubstringsOfNonEmpty(s: string, len: nat)
    requires |s| > 0
    ensures |Substrings(s, len)| > 0
  {
  }

  /** `s[i..i + len + 1]` is one character repeated `len + 1` times. */
  predicate RunAt(s: string, i: nat, len: nat)
    requires i + len < |s|
  {
    forall m :: i <= m < i + len ==> s[m] == s[m + 1]
  }

  /** No character of `s` repeats more than `len` times in a row. */
  predicate NoLongRun(s: string, len: nat)
  {
    forall i: nat :: i + len < |s| ==> !RunAt(s, i, len)
  }

  function Min(a: nat, b: nat): nat
  {
    if a <= b then a else b
  }

  /** While the leading padding is being consumed, each window is one character longer. */
  lemma WindowsGrowAtStart(s: string, len: nat, k: nat)
    requires len >= 1 && k + 1 < |s| && k + 1 <= len - 1
    ensures !DupAt(Windows(s, len), k)
  {
    var ws := Windows(s, len);
    assert WindowLo(|s|, len, k) == 0 && WindowHi(|s|, len, k) == k + 1;
    assert WindowLo(|s|, len, k + 1) == 0 && WindowHi(|s|, len, k + 1) == k + 2;
    assert |ws[k]| != |ws[k + 1]|;
  }

  /** Once the trailing padding is reached, each window is one character shorter. */
  lemma WindowsShrinkAtEnd(s: string, len: nat, k: nat)
    requires len >= 1 && |s| <= k + 1 && len - 1 <= k && k + 1 < |s| + len - 1
    ensures !DupAt(Windows(s, len), k)
  {
    var ws, p := Windows(s, len), len - 1;
    assert WindowLo(|s|, len, k) == k - p && WindowHi(|s|, len, k) == |s|;
    assert WindowLo(|s|, len, k + 1) == k + 1 - p && WindowHi(|s|, len, k + 1) == |s|;
    assert |ws[k]| != |ws[k + 1]|;
  }

  /** When `len` exceeds the string, the middle windows are all the whole string. */
  lemma WindowsWholeString(s: string, len: nat, k: nat)
    requires |s| > 0 && len >= 1 && |s| <= k + 1 && k + 1 <= len - 1
    ensures Windows(s, len)[k] == s == Windows(s, len)[k + 1]
    ensures DupAt(Windows(s, len), k)
  {
    assert WindowLo(|s|, len, k) == 0 && WindowHi(|s|, len, k) == |s|;
    assert WindowLo(|s|, len, k + 1) == 0 && WindowHi(|s|, len, k + 1) == |s|;
  }

  /** Shifting a slice by one leaves it unchanged exactly over a run of equal characters. */
  lemma SliceShiftEqual(s: string, i: nat, len: nat)
    requires i + len < |s|
    ensures s[i..i + len] == s[i + 1..i + 1 + len] <==> RunAt(s, i, len)
  {
    if s[i..i + len] == s[i + 1..i + 1 + len] {
      forall m | i <= m < i + len
        ensures s[m] == s[m + 1]
      {
        assert s[i..i + len][m - i] == s[i + 1..i + 1 + len][m - i];
      }
    }
  }

  /** Two neighbouring full windows are equal exactly over a run of `len + 1` equal characters. */
  lemma WindowsFull(s: string, len: nat, k: nat)
    requires len >= 1 && len - 1 <= k && k + 1 < |s|
    ensures DupAt(Windows(s, len), k) <==> RunAt(s, k - (len - 1), len)
  {
    var i := k - (len - 1);
    assert WindowLo(|s|, len, k) == i && WindowHi(|s|, len, k) == i + len;
    assert WindowLo(|s|, len, k + 1) == i + 1 && WindowHi(|s|, len, k + 1) == i + 1 + len;
    SliceShiftEqual(s, i, len);
  }

  /**
    Dropping repeats only ever shortens the window list, so `substrings`
    has at most `|s| + min(|s|, len) - 1` elements.
   */
  lemma SubstringsCountAtMost(s: string, len: nat)
    requires |s| > 0 && len >= 1
    ensures |Substrings(s, len)| <= |s| + Min(|s|, len) - 1
  {
    var ws, n, p := Windows(s, len), |s|, len - 1;
    DropRepeatsLength(ws);
    if n - 1 <= p {
      forall k: nat | n - 1 <= k < p
        ensures DupAt(ws, k)
      {
        WindowsWholeString(s, len, k);
      }
      DupsAtLeast(ws, n - 1, p);
    }
  }

  /** A stretch `[a, b)` of duplicates contributes all its positions to the count. */
  lemma DupsAtLeast<T>(xs: seq<T>, a: nat, b: nat)
    requires |xs| > 0 && a <= b < |xs|
    requires forall k: nat :: a <= k < b ==> DupAt(xs, k)
    ensures DupsIn(xs, 0, |xs| - 1) >= b - a
  {
    DupsInAll(xs, a, b);
    DupsInSplit(xs, 0, a, b);
    DupsInSplit(xs, 0, b, |xs| - 1);
  }

  /** When nothing outside `[a, b)` is a duplicate, only `[a, b)` counts. */
  lemma DupsInMiddleOnly<T>(xs: seq<T>, a: nat, b: nat)
    requires |xs| > 0 && a <= b < |xs|
    requires forall k: nat :: k < a ==> !DupAt(xs, k)
    requires forall k: nat :: b <= k < |xs| - 1 ==> !DupAt(xs, k)
    ensures DupsIn(xs, 0, |xs| - 1) == DupsIn(xs, a, b)
  {
    DupsInNone(xs, 0, a);
    DupsInNone(xs, b, |xs| - 1);
    DupsInSplit(xs, 0, a, b);
    DupsInSplit(xs, 0, b, |xs| - 1);
  }

  /** The windows before the whole-string or full-window stretch, and after it, are pairwise distinct. */
  lemma WindowsDistinctOutsideMiddle(s: string, len: nat, a: nat, b: nat)
    requires |s| > 0 && len >= 1
    requires a == Min(|s| - 1, len - 1) && b == (if |s| - 1 <= len - 1 then len - 1 else |s| - 1)
    ensures forall k: nat :: k < a ==> !DupAt(Windows(s, len), k)
    ensures forall k: nat :: b <= k < |s| + len - 2 ==> !DupAt(Windows(s, len), k)
  {
    forall k: nat | k < a
      ensures !DupAt(Windows(s, len), k)
    {
      WindowsGrowAtStart(s, len, k);
    }
    forall k: nat | b <= k < |s| + len - 2
      ensures !DupAt(Windows(s, len), k)
    {
      WindowsShrinkAtEnd(s, len, k);
    }
  }

  /** Duplicates exactly on `[a, b)` count `b - a`. */
  lemma DupsExactlyBetween<T>(xs: seq<T>, a: nat, b: nat)
    requires |xs| > 0 && a <= b < |xs|
    requires forall k: nat :: k < a ==> !DupAt(xs, k)
    requires forall k: nat :: a <= k < b ==> DupAt(xs, k)
    requires forall k: nat :: b <= k < |xs| - 1 ==> !DupAt(xs, k)
    ensures DupsIn(xs, 0, |xs| - 1) == b - a
  {
    DupsInMiddleOnly(xs, a, b);
    DupsInAll(xs, a, b);
  }

  /** A string no longer than the window: the repeated whole-string windows are the only duplicates. */
  lemma WindowDupsShort(s: string, len: nat)
    requires |s| > 0 && len >= 1 && |s| <= len
    ensures DupsIn(Windows(s, len), 0, |Windows(s, len)| - 1) == len - |s|
  {
    var ws, n, p := Windows(s, len), |s|, len - 1;
    WindowsDistinctOutsideMiddle(s, len, n - 1, p);
    forall k: nat | n - 1 <= k < p
      ensures DupAt(ws, k)
    {
      WindowsWholeString(s, len, k);
    }
    DupsExactlyBetween(ws, n - 1, p);
  }

  /** A longer string without long runs: no two adjacent windows are equal. */
  lemma WindowDupsNoRun(s: string, len: nat)
    requires |s| > 0 && len >= 1 && |s| > len && NoLongRun(s, len)
    ensures DupsIn(Windows(s, len), 0, |Windows(s, len)| - 1) == 0
  {
    var ws, n, p := Windows(s, len), |s|, len - 1;
    WindowsDistinctOutsideMiddle(s, len, p, n - 1);
    forall k: nat | p <= k < n - 1
      ensures !DupAt(ws, k)
    {
      WindowsFull(s, len, k);
    }
    DupsInNone(ws, 0, |ws| - 1);
  }

  /** A run longer than `len` makes two adjacent full windows equal. */
  lemma WindowDupsRun(s: string, len: nat)
    requires |s| > 0 && len >= 1 && |s| > len && !NoLongRun(s, len)
    ensures DupsIn(Windows(s, len), 0, |Windows(s, len)| - 1) >= 1
  {
    var i: nat :| i + len < |s| && RunAt(s, i, len);
    WindowDupsAtRun(s, len, i);
  }

  /** The run starting at `i` makes the full windows ending at `i + len - 1` and `i + len` equal. */
  lemma WindowDupsAtRun(s: string, len: nat, i: nat)
    requires len >= 1 && i + len < |s| && RunAt(s, i, len)
    ensures DupsIn(Windows(s, len), 0, |Windows(s, len)| - 1) >= 1
  {
    var ws := Windows(s, len);
    WindowsFull(s, len, i + len - 1);
    DupsInSome(ws, 0, i + len - 1, |ws| - 1);
  }

  /**
    The count formula `|s| + min(|s|, len) - 1` holds exactly when no
    character of `s` repeats more than `len` times in a row; a longer run
    makes two adjacent windows equal and `dropRepeats` removes one.
   */
  lemma SubstringsCountExact(s: string, len: nat)
    requires |s| > 0 && len >= 1
    ensures |Substrings(s, len)| == |s| + Min(|s|, len) - 1 <==> NoLongRun(s, len)
  {
    DropRepeatsLength(Windows(s, len));
    if |s| <= len {
      WindowDupsShort(s, len);
    } else if NoLongRun(s, len) {
      WindowDupsNoRun(s, len);
    } else {
      WindowDupsRun(s, len);
    }
  }
}
