/**
  `fixPokemonName` of `src/index.js`: a Pokémon's API name such as
  `"deoxys-attack"` loses its form suffix, except for the two species whose
  own name holds a hyphen. The suffix is removed by
  `name.replace(/\-.+/g, '')`, modelled here as the scan that a global
  regular-expression replacement performs.
 */
module PokemonName {
  import opened Text

  /**
    A match of `/\-.+/` starts at `i`: a hyphen followed by at least one
    character that `.` accepts.
   */
  predicate CutAt(s: string, i: nat)
    requires i < |s|
  {
    s[i] == '-' && i + 1 < |s| && !IsLineTerminator(s[i + 1])
  }

  /** The pattern `/\-.+/` matches nowhere in `s`. */
  predicate NoCut(s: string)
  {
    forall i: nat :: i < |s| ==> !CutAt(s, i)
  }

  /** How far the greedy `.+` runs: the length of the longest prefix without a line terminator. */
  function RunLength(s: string): (n: nat)
    ensures n <= |s|
    ensures forall i :: 0 <= i < n ==> !IsLineTerminator(s[i])
    ensures n < |s| ==> IsLineTerminator(s[n])
  {
    if |s| == 0 || IsLineTerminator(s[0]) then 0 else 1 + RunLength(s[1..])
  }

  /**
    `s.replace(/\-.+/g, '')`: scanning left to right, every hyphen that is
    followed by a character other than a line terminator is deleted together
    with everything up to the next line terminator; all other characters are
    copied. Nothing the pattern could match is left in the result.
   */
  function StripSuffixes(s: string): (r: string)
    ensures |r| <= |s|
    ensures NoCut(r)
    ensures |s| > 0 && s[0] != '-' ==> |r| > 0 && r[0] == s[0]
    decreases |s|
  {
    if |s| == 0 then ""
    else if CutAt(s, 0) then
      var n := RunLength(s[1..]);
      StripSuffixes(s[1 + n..])
    else
      var rest := StripSuffixes(s[1..]);
      assert NoCut([s[0]] + rest) by {
        forall i: nat | i < |[s[0]] + rest|
          ensures !CutAt([s[0]] + rest, i)
        {
          if i > 0 {
            assert !CutAt(rest, i - 1);
          }
        }
      }
      [s[0]] + rest
  }

  /**
    The two names compared by `['ho-oh', 'mr-mime'].includes(name.toLowerCase())`.
    Both hold a hyphen followed by a letter, so the suffix pattern would cut them.
   */
  predicate KeptWhole(name: string)
    ensures KeptWhole(name) ==> |name| > 3 && CutAt(name, 2)
  {
    Lower(name) == "ho-oh" || Lower(name) == "mr-mime"
  }

  /**
    The name used for the quiz: `"ho-oh"` and `"mr-mime"` in any letter case
    are returned as they are, every other name loses its suffixes. Either way
    the result is no longer than the name, and apart from those two the
    result holds no hyphen that starts a suffix.
   */
  function FixPokemonName(name: string): (r: string)
    ensures |r| <= |name|
    ensures KeptWhole(name) ==> r == name
    ensures !KeptWhole(name) ==> NoCut(r)
  {
    if KeptWhole(name) then name else StripSuffixes(name)
  }

  /** A string the pattern does not match is copied unchanged. */
  lemma {:induction false} StripSuffixesOfCutFree(s: string)
    requires NoCut(s)
    ensures StripSuffixes(s) == s
    decreases |s|
  {
    if |s| > 0 {
      assert !CutAt(s, 0);
      assert NoCut(s[1..]) by {
        forall i: nat | i < |s[1..]|
          ensures !CutAt(s[1..], i)
        {
          assert !CutAt(s, i + 1);
        }
      }
      StripSuffixesOfCutFree(s[1..]);
      assert s == [s[0]] + s[1..];
    }
  }

  /** Stripping changes nothing exactly when the pattern matches nowhere. */
  lemma StripSuffixesFixedIff(s: string)
    ensures StripSuffixes(s) == s <==> NoCut(s)
  {
    if NoCut(s) {
      StripSuffixesOfCutFree(s);
    }
  }

  /** Without line terminators, a `-` starts a match exactly when it is not the last character. */
  lemma NoCutWithoutTerminators(s: string)
    requires NoLineTerminators(s)
    ensures NoCut(s) <==> forall i :: 0 <= i < |s| - 1 ==> s[i] != '-'
  {
    if !NoCut(s) {
      var i: nat :| i < |s| && CutAt(s, i);
      assert 0 <= i < |s| - 1 && s[i] == '-';
    }
    if exists i :: 0 <= i < |s| - 1 && s[i] == '-' {
      var i :| 0 <= i < |s| - 1 && s[i] == '-';
      assert CutAt(s, i);
    }
  }

  /**
    On a single line, everything from the first hyphen that is not the last
    character onwards is removed.
   */
  lemma {:induction false} StripSuffixesAtFirstHyphen(s: string, h: nat)
    requires NoLineTerminators(s)
    requires h + 1 < |s| && s[h] == '-'
    requires forall i :: 0 <= i < h ==> s[i] != '-'
    ensures StripSuffixes(s) == s[..h]
    decreases h
  {
    if h == 0 {
      assert CutAt(s, 0);
      var n := RunLength(s[1..]);
      assert n == |s| - 1;
      assert s[1 + n..] == "";
    } else {
      assert !CutAt(s, 0);
      StripSuffixesAtFirstHyphen(s[1..], h - 1);
      assert s[..h] == [s[0]] + s[1..][..h - 1];
    }
  }

  /** `"ho-oh"` and `"mr-mime"`, in any letter case, are kept as they are. */
  lemma FixPokemonNameKeepsExceptions(name: string)
    requires Lower(name) in ["ho-oh", "mr-mime"]
    ensures FixPokemonName(name) == name
    ensures name != StripSuffixes(name)
  {
    StripSuffixesFixedIff(name);
  }

  /**
    Any other single-line name whose first hyphen is not its last character
    becomes exactly the text before that hyphen.
   */
  lemma FixPokemonNameBeforeFirstHyphen(name: string, h: nat)
    requires !KeptWhole(name) && NoLineTerminators(name)
    requires h + 1 < |name| && name[h] == '-'
    requires forall i :: 0 <= i < h ==> name[i] != '-'
    ensures FixPokemonName(name) == name[..h]
  {
    StripSuffixesAtFirstHyphen(name, h);
  }

  /** A name without a hyphen, or whose only hyphens end it, is unchanged. */
  lemma FixPokemonNameWithoutSuffix(name: string)
    requires forall i :: 0 <= i < |name| - 1 ==> name[i] != '-'
    ensures FixPokemonName(name) == name
  {
    assert NoCut(name) by {
      forall i: nat | i < |name|
        ensures !CutAt(name, i)
      {
      }
    }
    StripSuffixesOfCutFree(name);
  }

  /**
    The name is kept exactly when it is one of the two exceptions or has no
    suffix to strip.
   */
  lemma FixPokemonNameUnchangedIff(name: string)
    ensures FixPokemonName(name) == name <==> KeptWhole(name) || NoCut(name)
  {
    StripSuffixesFixedIff(name);
  }

  /** On a single line the result is always a prefix of the name. */
  lemma FixPokemonNameIsPrefix(name: string)
    requires NoLineTerminators(name)
    ensures FixPokemonName(name) <= name
  {
    if !KeptWhole(name) {
      if h :| 0 <= h < |name| - 1 && name[h] == '-' {
        var first := FirstHyphen(name, h);
        StripSuffixesAtFirstHyphen(name, first);
      } else {
        FixPokemonNameWithoutSuffix(name);
      }
    }
  }

  /** The leftmost hyphen at or before a known one. */
  lemma {:induction false} FirstHyphen(s: string, h: nat) returns (first: nat)
    requires h < |s| && s[h] == '-'
    ensures first <= h && s[first] == '-'
    ensures forall i :: 0 <= i < first ==> s[i] != '-'
    decreases h
  {
    if exists i :: 0 <= i < h && s[i] == '-' {
      var i :| 0 <= i < h && s[i] == '-';
      first := FirstHyphen(s, i);
    } else {
      first := h;
    }
  }

  /** Fixing a fixed name changes nothing. */
  lemma FixPokemonNameIdempotent(name: string)
    ensures FixPokemonName(FixPokemonName(name)) == FixPokemonName(name)
  {
    var r := FixPokemonName(name);
    if !KeptWhole(name) {
      StripSuffixesOfCutFree(r);
    }
  }
}
