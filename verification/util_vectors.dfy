/**
  The concrete examples that `test/util.js` checks, proved from the
  definitions. The lower bounds on the edit distance come from counting a
  class of characters: a table of prefix counts of the haystack bounds the
  count in every window at once.
 */
module UtilVectors {
  import opened Wrappers
  import opened Levenshtein
  import opened SubstringWindows
  import opened FuzzyMatch

  /** `t[i]` is how many of the first `i` characters of `h` belong to `cs`. */
  predicate PrefixCounts(cs: set<char>, h: string, t: seq<nat>)
  {
    && |t| == |h| + 1
    && t[0] == 0
    && forall i :: 0 <= i < |h| ==> t[i + 1] == t[i] + (if h[i] in cs then 1 else 0)
  }

  lemma {:induction false} PrefixCountsAt(cs: set<char>, h: string, t: seq<nat>, i: nat)
    requires PrefixCounts(cs, h, t) && i <= |h|
    ensures CountIn(cs, h[..i]) == t[i]
  {
    if i > 0 {
      PrefixCountsAt(cs, h, t, i - 1);
      assert h[..i] == h[..i - 1] + [h[i - 1]];
      CountInAppend(cs, h[..i - 1], [h[i - 1]]);
    }
  }

  /** Reading further into the haystack never lowers the count. */
  lemma {:induction false} PrefixCountsMonotone(cs: set<char>, h: string, t: seq<nat>, a: nat, b: nat)
    requires PrefixCounts(cs, h, t) && a <= b <= |h|
    ensures t[a] <= t[b]
  {
    if a < b {
      PrefixCountsMonotone(cs, h, t, a, b - 1);
    }
  }

  /**
    If every stretch of `width` entries of the table grows by at most
    `bound`, no slice of `h` that is at most `width` long holds more than
    `bound` characters of `cs`.
   */
  lemma SlicesCountAtMost(cs: set<char>, h: string, t: seq<nat>, width: nat, bound: nat)
    requires PrefixCounts(cs, h, t)
    requires forall lo :: 0 <= lo <= |h| ==> t[Clamp(lo + width, |h|)] <= t[lo] + bound
    ensures forall i: nat, j: nat :: i <= j <= |h| && j - i <= width ==> CountIn(cs, h[i..j]) <= bound
  {
    forall i: nat, j: nat | i <= j <= |h| && j - i <= width
      ensures CountIn(cs, h[i..j]) <= bound
    {
      CountInSlice(cs, h, i, j);
      PrefixCountsAt(cs, h, t, i);
      PrefixCountsAt(cs, h, t, j);
      assert h[..|h|][i..j] == h[i..j];
      PrefixCountsMonotone(cs, h, t, j, Clamp(i + width, |h|));
    }
  }

  /** The seven windows of a five-character string at width 3, before repeats are dropped. */
  lemma WindowsOfFive(s: string)
    requires |s| == 5
    ensures Windows(s, 3) == [s[0..1], s[0..2], s[0..3], s[1..4], s[2..5], s[3..5], s[4..5]]
  {
  }

  lemma WindowsHello()
    ensures Windows("hello", 3) == ["h", "he", "hel", "ell", "llo", "lo", "o"]
  {
    var s := "hello";
    WindowsOfFive(s);
    assert s[0..1] == "h" && s[0..2] == "he" && s[0..3] == "hel";
    assert s[1..4] == "ell" && s[2..5] == "llo" && s[3..5] == "lo" && s[4..5] == "o";
  }

  /** The example `substrings('hello', 3)`. */
  lemma SubstringsHello()
    ensures Substrings("hello", 3) == ["h", "he", "hel", "ell", "llo", "lo", "o"]
  {
    var ws: seq<string> := ["h", "he", "hel", "ell", "llo", "lo", "o"];
    WindowsHello();
    assert NoAdjacentDuplicates(ws) by {
      forall k: nat | k + 1 < |ws|
        ensures !DupAt(ws, k)
      {
        assert |ws[k]| != |ws[k + 1]| || ws[k][0] != ws[k + 1][0];
      }
    }
    DropRepeatsKeepsDistinctNeighbours(ws);
  }

  /**
    A doubled letter at width 1: both windows are `"a"` and `dropRepeats`
    keeps one, so the count `|s| + min(|s|, len) - 1 = 2` that the count
    property of the tests states is not reached.
   */
  lemma SubstringsOfDoubledLetter()
    ensures Substrings("aa", 1) == ["a"]
    ensures |Substrings("aa", 1)| < |"aa"| + Min(|"aa"|, 1) - 1
  {
    var ws := Windows("aa", 1);
    assert ws[0] == "a" && ws[1] == "a";
    DropRepeatsConstant(ws, "a");
  }

  /** The first haystack of the examples, spelled in two pieces. */
  const Dog: string := "my dog is " + "named lars"

  lemma DogSpelledOut()
    ensures Dog == "my dog is named lars"
  {
  }

  const DogClass: set<char> := {'o', 'g'}

  /** The prefix counts of `DogClass` in `Dog`, in the same two pieces. */
  const DogTable: seq<nat> := [0, 0, 0, 0, 0, 1, 2, 2, 2, 2] + [2, 2, 2, 2, 2, 2, 2, 2, 2, 2, 2]

  lemma DogTableSteps0()
    ensures forall i | 0 <= i < 10 :: DogTable[i + 1] == DogTable[i] + (if Dog[i] in DogClass then 1 else 0)
  {
  }

  lemma DogTableSteps1()
    ensures forall i | 10 <= i < 20 :: DogTable[i + 1] == DogTable[i] + (if Dog[i] in DogClass then 1 else 0)
  {
  }

  lemma DogTableCounts()
    ensures PrefixCounts(DogClass, Dog, DogTable)
  {
    DogTableSteps0();
    DogTableSteps1();
  }

  /** No slice of `Dog` holds more than two of the letters `o` and `g`. */
  lemma DogClassCount()
    ensures forall i: nat, j: nat :: i <= j <= |Dog| && j - i <= 5 ==> CountIn(DogClass, Dog[i..j]) <= 2
  {
    DogTableCounts();
    SlicesCountAtMost(DogClass, Dog, DogTable, 5, 2);
  }

  /** `Dog[3..8]`, that is `"dog i"`, is one of the windows. */
  lemma DogWindow()
    ensures "dog i" in Substrings(Dog, 5)
  {
    FullSliceIsSubstring(Dog, 5, 3);
    assert Dog[3..8] == "dog i";
  }

  /** `"dog i"` is two edits from `"doggo"`: they share the prefix `"dog"`. */
  lemma DogWindowDistance()
    ensures Distance("dog i", "doggo") <= 2
  {
    assert "dog i" == "dog" + " i";
    assert "doggo" == "dog" + "go";
    DistanceSharedPrefix("dog", " i", "go");
  }

  lemma DoggoAtLeast()
    ensures MinLevenshtein(Dog, "doggo").Some? ==> MinLevenshtein(Dog, "doggo").value >= 2
  {
    DogClassCount();
    assert CountIn(DogClass, "doggo") == 4;
    MinLevenshteinAtLeast(Dog, "doggo", DogClass, 2);
  }

  lemma DoggoAtMost()
    ensures MinLevenshtein(Dog, "doggo").Some? && MinLevenshtein(Dog, "doggo").value <= 2
  {
    DogWindow();
    DogWindowDistance();
  }

  /** `minLevenshtein('my dog is named lars', 'doggo')` is 2. */
  lemma MinLevenshteinDoggo()
    ensures MinLevenshtein(Dog, "doggo") == Some(2)
  {
    DoggoAtLeast();
    DoggoAtMost();
  }

  /** The second haystack of the examples, spelled in four pieces. */
  const Cool: string := "you think th" + "at is cool? " + "i got somet" + "hing cooler"

  lemma CoolSpelledOut()
    ensures Cool == "you think that is cool? i got something cooler"
  {
    var a := "you think th" + "at is cool? ";
    var b := "i got somet" + "hing cooler";
    assert a == "you think that is cool? ";
    assert b == "i got something cooler";
    assert a + b == "you think that is cool? i got something cooler";
  }

  /** `minLevenshtein('you think that is cool? i got something cooler', 'cool')` is 0. */
  lemma MinLevenshteinCool()
    ensures MinLevenshtein(Cool, "cool") == Some(0)
  {
    assert Cool[18..22] == "cool";
    FullSliceIsSubstring(Cool, 4, 18);
    MinLevenshteinOfWindow(Cool, "cool");
  }

  const CoolClass: set<char> := {'c', 'o', 'l', 'e', 's', 't'}

  /** The prefix counts of `CoolClass` in `Cool`, in the same four pieces. */
  const CoolTable: seq<nat> :=
    [0, 0, 1, 1, 1, 2, 2, 2, 2, 2, 2, 3] + [3, 3, 4, 4, 4, 5, 5, 6, 7, 8, 9, 9] +
    [9, 9, 9, 9, 10, 11, 11, 12, 13, 13, 14] + [15, 15, 15, 15, 15, 15, 16, 17, 18, 19, 20, 20]

  lemma CoolTableSteps0()
    ensures forall i | 0 <= i < 12 :: CoolTable[i + 1] == CoolTable[i] + (if Cool[i] in CoolClass then 1 else 0)
  {
  }

  lemma CoolTableSteps1()
    ensures forall i | 12 <= i < 24 :: CoolTable[i + 1] == CoolTable[i] + (if Cool[i] in CoolClass then 1 else 0)
  {
  }

  lemma CoolTableSteps2()
    ensures forall i | 24 <= i < 35 :: CoolTable[i + 1] == CoolTable[i] + (if Cool[i] in CoolClass then 1 else 0)
  {
  }

  lemma CoolTableSteps3()
    ensures forall i | 35 <= i < 46 :: CoolTable[i + 1] == CoolTable[i] + (if Cool[i] in CoolClass then 1 else 0)
  {
  }

  lemma CoolTableCounts()
    ensures PrefixCounts(CoolClass, Cool, CoolTable)
  {
    CoolTableSteps0();
    CoolTableSteps1();
    CoolTableSteps2();
    CoolTableSteps3();
  }

  /** Any seven consecutive entries of the table grow by at most five. */
  lemma CoolTableGrowth()
    ensures forall lo :: 0 <= lo <= |Cool| ==> CoolTable[Clamp(lo + 7, |Cool|)] <= CoolTable[lo] + 5
  {
    CoolTableGrowth0();
    CoolTableGrowth1();
  }

  lemma CoolTableGrowth0()
    ensures forall lo :: 0 <= lo < 24 ==> CoolTable[Clamp(lo + 7, |Cool|)] <= CoolTable[lo] + 5
  {
  }

  lemma CoolTableGrowth1()
    ensures forall lo :: 24 <= lo <= 46 ==> CoolTable[Clamp(lo + 7, |Cool|)] <= CoolTable[lo] + 5
  {
  }

  /** No seven characters of `Cool` in a row hold more than five letters of `"coolest"`. */
  lemma CoolClassCount()
    ensures forall i: nat, j: nat :: i <= j <= |Cool| && j - i <= 7 ==> CountIn(CoolClass, Cool[i..j]) <= 5
  {
    CoolTableCounts();
    CoolTableGrowth();
    SlicesCountAtMost(CoolClass, Cool, CoolTable, 7, 5);
  }

  /** The tail `"cooler"` of `Cool` is one of the windows: it is cut short by the end of the string. */
  lemma CoolerWindow()
    ensures "cooler" in Substrings(Cool, 7)
  {
    assert IsWindowSlice(Cool, 7, 40, 46);
    assert Cool[40..46] == "cooler";
    SubstringsElements(Cool, 7, "cooler");
  }

  /** `"cooler"` is two edits from `"coolest"`: they share the prefix `"coole"`. */
  lemma CoolerDistance()
    ensures Distance("cooler", "coolest") <= 2
  {
    assert "cooler" == "coole" + "r";
    assert "coolest" == "coole" + "st";
    DistanceSharedPrefix("coole", "r", "st");
  }

  lemma CoolestAtLeast()
    ensures MinLevenshtein(Cool, "coolest").Some? ==> MinLevenshtein(Cool, "coolest").value >= 2
  {
    CoolClassCount();
    CountInAll(CoolClass, "coolest");
    MinLevenshteinAtLeast(Cool, "coolest", CoolClass, 5);
  }

  lemma CoolestAtMost()
    ensures MinLevenshtein(Cool, "coolest").Some? && MinLevenshtein(Cool, "coolest").value <= 2
  {
    CoolerWindow();
    CoolerDistance();
  }

  /** `minLevenshtein('you think that is cool? i got something cooler', 'coolest')` is 2. */
  lemma MinLevenshteinCoolest()
    ensures MinLevenshtein(Cool, "coolest") == Some(2)
  {
    CoolestAtLeast();
    CoolestAtMost();
  }
}
