/**
  Edit distance between two strings, written as the textbook recursive
  definition (insertion, deletion and substitution each cost one), together
  with the bounds the matcher's properties rest on.
 */
module Levenshtein {

  function Min3(x: nat, y: nat, z: nat): (m: nat)
    ensures m <= x && m <= y && m <= z
    ensures m == x || m == y || m == z
  {
    if x <= y && x <= z then x else if y <= z then y else z
  }

  /**
    The least number of single-character edits turning `a` into `b`. It lies
    between the difference of the lengths and the length of the longer string.
   */
  function Distance(a: string, b: string): (d: nat)
    ensures d >= |a| - |b| && d >= |b| - |a|
    ensures d <= if |a| <= |b| then |b| else |a|
    decreases |a| + |b|
  {
    if |a| == 0 then |b|
    else if |b| == 0 then |a|
    else if a[0] == b[0] then Distance(a[1..], b[1..])
    else 1 + Min3(Distance(a[1..], b), Distance(a, b[1..]), Distance(a[1..], b[1..]))
  }

  /** A string is at distance zero from itself. */
  lemma {:induction false} DistanceToSelf(a: string)
    ensures Distance(a, a) == 0
  {
    if |a| > 0 {
      DistanceToSelf(a[1..]);
    }
  }

  /** Distance zero means equal, and only equal strings are at distance zero. */
  lemma {:induction false} DistanceZeroIff(a: string, b: string)
    ensures Distance(a, b) == 0 <==> a == b
    decreases |a| + |b|
  {
    if a == b {
      DistanceToSelf(a);
    } else if |a| > 0 && |b| > 0 && a[0] == b[0] {
      DistanceZeroIff(a[1..], b[1..]);
      assert a == [a[0]] + a[1..] && b == [b[0]] + b[1..];
    }
  }

  /** The distance does not depend on which string is the source. */
  lemma {:induction false} DistanceSymmetric(a: string, b: string)
    ensures Distance(a, b) == Distance(b, a)
    decreases |a| + |b|
  {
    if |a| > 0 && |b| > 0 {
      DistanceSymmetric(a[1..], b[1..]);
      if a[0] != b[0] {
        DistanceSymmetric(a[1..], b);
        DistanceSymmetric(a, b[1..]);
      }
    }
  }

  /** A shared prefix costs nothing. */
  lemma {:induction false} DistanceSharedPrefix(p: string, a: string, b: string)
    ensures Distance(p + a, p + b) == Distance(a, b)
  {
    if |p| == 0 {
      assert p + a == a && p + b == b;
    } else {
      assert (p + a)[1..] == p[1..] + a;
      assert (p + b)[1..] == p[1..] + b;
      DistanceSharedPrefix(p[1..], a, b);
    }
  }

  /** How many characters of `s` belong to the class `cs`. */
  function CountIn(cs: set<char>, s: string): (k: nat)
    ensures k <= |s|
  {
    if |s| == 0 then 0 else (if s[0] in cs then 1 else 0) + CountIn(cs, s[1..])
  }

  lemma {:induction false} CountInAppend(cs: set<char>, a: string, b: string)
    ensures CountIn(cs, a + b) == CountIn(cs, a) + CountIn(cs, b)
  {
    if |a| == 0 {
      assert a + b == b;
    } else {
      assert (a + b)[1..] == a[1..] + b;
      CountInAppend(cs, a[1..], b);
    }
  }

  /** Counting over `s[..hi]` splits at any `lo` between. */
  lemma CountInSlice(cs: set<char>, s: string, lo: nat, hi: nat)
    requires lo <= hi <= |s|
    ensures CountIn(cs, s[..hi]) == CountIn(cs, s[..lo]) + CountIn(cs, s[lo..hi])
  {
    assert s[..hi] == s[..lo] + s[lo..hi];
    CountInAppend(cs, s[..lo], s[lo..hi]);
  }

  /** A string made only of characters of the class counts all of them. */
  lemma {:induction false} CountInAll(cs: set<char>, s: string)
    requires forall i :: 0 <= i < |s| ==> s[i] in cs
    ensures CountIn(cs, s) == |s|
  {
    if |s| > 0 {
      CountInAll(cs, s[1..]);
    }
  }

  /**
    Each edit supplies at most one missing character of a class, so the
    distance from `a` to `b` is at least the number of class characters `b`
    has beyond those of `a`.
   */
  lemma {:induction false} DistanceAtLeastClassDeficit(cs: set<char>, a: string, b: string)
    ensures Distance(a, b) + CountIn(cs, a) >= CountIn(cs, b)
    decreases |a| + |b|
  {
    if |a| == 0 {
    } else if |b| == 0 {
    } else {
      DistanceAtLeastClassDeficit(cs, a[1..], b[1..]);
      if a[0] != b[0] {
        DistanceAtLeastClassDeficit(cs, a[1..], b);
        DistanceAtLeastClassDeficit(cs, a, b[1..]);
      }
    }
  }
}
