/**
  The question the bot posts and the test it applies to guesses
  (`src/index.js`). The name is compiled with `new RegExp(name, 'ig')`; for a
  name without pattern metacharacters that regular expression matches the
  name literally, ignoring the case of ASCII letters, which is what is
  modelled here.
 */
module Quiz {
  import opened Wrappers
  import opened Text
  import opened PokemonName

  /** The characters with a special meaning in a JavaScript regular expression. */
  predicate IsMetaChar(c: char)
  {
    c in {'^', '$', '\\', '.', '*', '+', '?', '(', ')', '[', ']', '{', '}', '|'}
  }

  /** A name that `new RegExp` reads as a plain sequence of characters. */
  predicate IsLiteralPattern(name: string)
  {
    forall i :: 0 <= i < |name| ==> !IsMetaChar(name[i])
  }

  /** The name occurs at position `i` of `text`, ignoring the case of ASCII letters. */
  predicate MatchesAt(text: string, i: nat, name: string)
  {
    i + |name| <= |text| && forall k :: 0 <= k < |name| ==> LowerChar(text[i + k]) == LowerChar(name[k])
  }

  /**
    Matching at `i` is the `toLowerCase` comparison: the slice of `text` at `i`
    and the name are equal once lower-cased.
   */
  lemma MatchesAtIgnoringCase(text: string, i: nat, name: string)
    ensures MatchesAt(text, i, name) <==>
      i + |name| <= |text| && EqualIgnoringCase(text[i..i + |name|], name)
  {
  }

  /** The name occurs somewhere in `text`. */
  predicate Occurs(text: string, name: string)
  {
    exists i: nat | i <= |text| :: MatchesAt(text, i, name)
  }

  /** Dropping the first character shifts every occurrence one place left. */
  lemma MatchesAtTail(text: string, i: nat, name: string)
    requires |text| > 0
    ensures MatchesAt(text[1..], i, name) <==> MatchesAt(text, i + 1, name)
  {
  }

  /** Where the name is not at the head, the occurrences are those in the tail, moved one place right. */
  lemma FindFirstStep(text: string, name: string, r: Option<nat>)
    requires |text| > 0 && !MatchesAt(text, 0, name)
    requires r.Some? ==> MatchesAt(text[1..], r.value, name)
    requires r.Some? ==> forall i: nat :: i < r.value ==> !MatchesAt(text[1..], i, name)
    requires r.None? ==> forall i: nat :: !MatchesAt(text[1..], i, name)
    ensures r.Some? ==> MatchesAt(text, r.value + 1, name)
    ensures r.Some? ==> forall i: nat :: i < r.value + 1 ==> !MatchesAt(text, i, name)
    ensures r.None? ==> forall i: nat :: !MatchesAt(text, i, name)
  {
    if r.Some? {
      MatchesAtTail(text, r.value, name);
    }
    forall i: nat | 0 < i
      ensures MatchesAt(text, i, name) <==> MatchesAt(text[1..], i - 1, name)
    {
      MatchesAtTail(text, i - 1, name);
    }
  }

  /** An occurrence inside the second part of a concatenation. */
  lemma MatchesAtInSuffix(a: string, b: string, i: nat, name: string)
    ensures MatchesAt(a + b, |a| + i, name) <==> MatchesAt(b, i, name)
  {
  }

  /** An occurrence inside the first part of a concatenation. */
  lemma MatchesAtInPrefix(a: string, b: string, i: nat, name: string)
    requires i + |name| <= |a|
    ensures MatchesAt(a + b, i, name) <==> MatchesAt(a, i, name)
  {
  }

  /**
    `nameRegex.exec(text)` searching from the start: the leftmost position
    where the name occurs, or `None` when it occurs nowhere.
   */
  function FindFirst(text: string, name: string): (r: Option<nat>)
    ensures r.Some? ==> MatchesAt(text, r.value, name)
    ensures r.Some? ==> forall i: nat :: i < r.value ==> !MatchesAt(text, i, name)
    ensures r.None? ==> forall i: nat :: !MatchesAt(text, i, name)
    decreases |text|
  {
    if MatchesAt(text, 0, name) then Some(0)
    else if |text| == 0 then None
    else
      var r := FindFirst(text[1..], name);
      FindFirstStep(text, name, r);
      match r
      case None => None
      case Some(p) => Some(p + 1)
  }

  const Marker: string := "[REDACTED]"
  const Intro: string := "Who's that Pokémon!? ```"
  const Fence: string := "```"

  /**
    What replacing with an empty pattern gives: the empty pattern matches at
    every position, the end included, so the marker goes before every
    character and after the last.
   */
  function MarkEveryPosition(text: string): (r: string)
    ensures |r| == |text| + (|text| + 1) * |Marker|
  {
    Marker + (if |text| == 0 then "" else [text[0]] + MarkEveryPosition(text[1..]))
  }

  /**
    The layout of `MarkEveryPosition(text)`: one block of 11 characters (the
    10-character marker, then character `i`) per character of `text`,
    followed by one final marker.
   */
  lemma {:induction false} MarkEveryPositionLayout(text: string)
    ensures var r := MarkEveryPosition(text);
      && (forall i :: 0 <= i < |text| ==> r[11 * i..11 * i + 11] == Marker + [text[i]])
      && r[|r| - |Marker|..] == Marker
  {
    forall i | 0 <= i < |text|
      ensures MarkEveryPosition(text)[11 * i..11 * i + 11] == Marker + [text[i]]
    {
      MarkEveryPositionBlock(text, i);
    }
    MarkEveryPositionEnd(text);
  }

  lemma {:induction false} MarkEveryPositionBlock(text: string, i: nat)
    requires i < |text|
    ensures MarkEveryPosition(text)[11 * i..11 * i + 11] == Marker + [text[i]]
  {
    var block := Marker + [text[0]];
    var rest := MarkEveryPosition(text[1..]);
    assert MarkEveryPosition(text) == block + rest;
    if i > 0 {
      MarkEveryPositionBlock(text[1..], i - 1);
      SliceAfterPrefix(block, rest, 11 * i, 11 * i + 11);
    }
  }

  lemma {:induction false} MarkEveryPositionEnd(text: string)
    ensures var r := MarkEveryPosition(text); r[|r| - |Marker|..] == Marker
  {
    if |text| > 0 {
      var block := Marker + [text[0]];
      var rest := MarkEveryPosition(text[1..]);
      assert MarkEveryPosition(text) == block + rest;
      MarkEveryPositionEnd(text[1..]);
      SliceAfterPrefix(block, rest, |block + rest| - |Marker|, |block + rest|);
    }
  }

  /** A slice that lies past the first part of a concatenation is a slice of the second. */
  lemma SliceAfterPrefix<T>(a: seq<T>, b: seq<T>, lo: nat, hi: nat)
    requires |a| <= lo <= hi <= |a| + |b|
    ensures (a + b)[lo..hi] == b[lo - |a|..hi - |a|]
  {
  }

  /**
    `text.replace(nameRegex, '[REDACTED]')`: the text before the leftmost
    occurrence is copied, the occurrence becomes the marker, and the search
    resumes after it. A text in which the name does not occur is returned
    as it is.
   */
  function Redact(text: string, name: string): (r: string)
    ensures !Occurs(text, name) ==> r == text
    decreases |text|
  {
    if |name| == 0 then
      assert MatchesAt(text, 0, name);
      MarkEveryPosition(text)
    else
      match FindFirst(text, name)
      case None => text
      case Some(p) => text[..p] + Marker + Redact(text[p + |name|..], name)
  }

  /**
    The question for a Pokémon with API name `pokemonName` and the chosen
    flavour text: the fixed name is redacted from the text, which is set in
    a code block after the fixed heading.
   */
  function Question(flavorText: string, pokemonName: string): (q: string)
    requires IsLiteralPattern(FixPokemonName(pokemonName))
    ensures |q| >= |Intro| + |Fence|
    ensures q[..|Intro|] == Intro && q[|q| - |Fence|..] == Fence
    ensures !Occurs(flavorText, FixPokemonName(pokemonName)) ==> q == Intro + flavorText + Fence
  {
    Intro + Redact(flavorText, FixPokemonName(pokemonName)) + Fence
  }

  /**
    The filter on guesses, `nameRegex.test(guess)` read without the
    `lastIndex` state: the guess contains the fixed name in some letter case.
   */
  function IsCorrectGuess(guess: string, pokemonName: string): (b: bool)
    requires IsLiteralPattern(FixPokemonName(pokemonName))
    ensures b <==> Occurs(guess, FixPokemonName(pokemonName))
  {
    FindFirst(guess, FixPokemonName(pokemonName)).Some?
  }

  /** Typing the fixed name, in any letter case, is a correct guess. */
  lemma IsCorrectGuessOfName(guess: string, pokemonName: string)
    requires IsLiteralPattern(FixPokemonName(pokemonName))
    requires EqualIgnoringCase(guess, FixPokemonName(pokemonName))
    ensures IsCorrectGuess(guess, pokemonName)
  {
    var name := FixPokemonName(pokemonName);
    assert |Lower(guess)| == |Lower(name)|;
    forall k | 0 <= k < |name|
      ensures LowerChar(guess[0 + k]) == LowerChar(name[k])
    {
      assert Lower(guess)[k] == Lower(name)[k];
    }
    assert MatchesAt(guess, 0, name);
  }

  /**
    Each leftmost occurrence of a non-empty name is replaced: the text before
    it is copied, the occurrence becomes the marker, and the rest is
    redacted in turn.
   */
  lemma {:induction false} RedactAtFirstMatch(text: string, name: string, p: nat)
    requires |name| > 0 && MatchesAt(text, p, name)
    requires forall i: nat :: i < p ==> !MatchesAt(text, i, name)
    ensures Redact(text, name) == text[..p] + Marker + Redact(text[p + |name|..], name)
  {
    FindFirstIsLeftmost(text, name, p);
    var rest := Redact(text[p + |name|..], name);
    assert Redact(text, name) == text[..p] + Marker + rest;
  }

  /** The search returns the leftmost occurrence, whichever way it was found. */
  lemma FindFirstIsLeftmost(text: string, name: string, p: nat)
    requires MatchesAt(text, p, name)
    requires forall i: nat :: i < p ==> !MatchesAt(text, i, name)
    ensures FindFirst(text, name) == Some(p)
  {
    var r := FindFirst(text, name);
    assert r.Some?;
    assert !(r.value < p) && !(p < r.value);
  }

  /** A character that lower-cases to `[` or `]` is that bracket. */
  lemma LowerCharOfBracket(c: char)
    ensures LowerChar(c) == '[' ==> c == '['
    ensures LowerChar(c) == ']' ==> c == ']'
  {
  }

  /** A stretch of text equal to a literal name up to case holds no bracket. */
  lemma MatchHasNoBracket(text: string, i: nat, name: string, j: nat)
    requires IsLiteralPattern(name) && MatchesAt(text, i, name)
    requires i <= j < i + |name|
    ensures text[j] != '[' && text[j] != ']'
  {
    assert LowerChar(text[i + (j - i)]) == LowerChar(name[j - i]);
    assert !IsMetaChar(name[j - i]);
    LowerCharOfBracket(name[j - i]);
  }

  /**
    An occurrence of a literal name in `a + Marker + rest` cannot overlap the
    marker, so it lies in `a`, in the marker, or in `rest`.
   */
  lemma MatchAroundMarker(a: string, rest: string, name: string, i: nat)
    requires IsLiteralPattern(name) && |name| > 0
    requires MatchesAt(a + Marker + rest, i, name)
    ensures || (i + |name| <= |a| && MatchesAt(a, i, name))
            || (|a| <= i && MatchesAt(Marker, i - |a|, name))
            || (|a| + |Marker| <= i && MatchesAt(rest, i - |a| - |Marker|, name))
  {
    var r := a + Marker + rest;
    var p := |a|;
    var n := |name|;
    if i + n <= p {
      assert r == a + (Marker + rest);
      MatchesAtInPrefix(a, Marker + rest, i, name);
    } else if p + |Marker| <= i {
      MatchesAtInSuffix(a + Marker, rest, i - p - |Marker|, name);
    } else if i < p {
      assert r[p] == '[';
      MatchHasNoBracket(r, i, name, p);
    } else if i + n <= p + |Marker| {
      assert r == a + (Marker + rest);
      MatchesAtInSuffix(a, Marker + rest, i - p, name);
      MatchesAtInPrefix(Marker, rest, i - p, name);
    } else {
      assert r[p + |Marker| - 1] == ']';
      MatchHasNoBracket(r, i, name, p + |Marker| - 1);
    }
  }

  /**
    Writing the marker between two pieces that do not contain the name does
    not create an occurrence, unless the name is part of the marker.
   */
  lemma MarkerJoinHidesName(a: string, rest: string, name: string)
    requires IsLiteralPattern(name) && |name| > 0 && !Occurs(Marker, name)
    requires !Occurs(a, name) && !Occurs(rest, name)
    ensures !Occurs(a + Marker + rest, name)
  {
    forall i: nat | i <= |a + Marker + rest|
      ensures !MatchesAt(a + Marker + rest, i, name)
    {
      if MatchesAt(a + Marker + rest, i, name) {
        MatchAroundMarker(a, rest, name, i);
      }
    }
  }

  /** The text before the leftmost occurrence does not contain the name. */
  lemma NoMatchBeforeFirst(text: string, name: string, p: nat)
    requires |name| > 0 && p <= |text|
    requires forall i: nat :: i < p ==> !MatchesAt(text, i, name)
    ensures !Occurs(text[..p], name)
  {
    forall i: nat | i <= p
      ensures !MatchesAt(text[..p], i, name)
    {
      if i + |name| <= p {
        assert text == text[..p] + text[p..];
        MatchesAtInPrefix(text[..p], text[p..], i, name);
      }
    }
  }

  /**
    Unless the name is itself part of the marker (as `"red"` or `"act"` are),
    the redacted text no longer contains the name in any letter case.
   */
  lemma {:induction false} RedactHidesName(text: string, name: string)
    requires IsLiteralPattern(name) && |name| > 0
    requires !Occurs(Marker, name)
    ensures !Occurs(Redact(text, name), name)
    decreases |text|
  {
    match FindFirst(text, name)
    case None =>
    case Some(p) =>
      RedactAtFirstMatch(text, name, p);
      RedactHidesName(text[p + |name|..], name);
      NoMatchBeforeFirst(text, name, p);
      MarkerJoinHidesName(text[..p], Redact(text[p + |name|..], name), name);
  }

  /**
    For a literal name, the text comes back unchanged exactly when the name
    does not occur in it.
   */
  lemma {:induction false} RedactUnchangedIff(text: string, name: string)
    requires IsLiteralPattern(name)
    ensures Redact(text, name) == text <==> !Occurs(text, name)
  {
    if Occurs(text, name) {
      if |name| == 0 {
        assert |Redact(text, name)| > |text|;
      } else {
        RedactChangesOccurrence(text, name);
      }
    }
  }

  /** The leftmost occurrence of a literal name comes out as `[`, which the name cannot hold. */
  lemma {:induction false} RedactChangesOccurrence(text: string, name: string)
    requires IsLiteralPattern(name) && |name| > 0 && Occurs(text, name)
    ensures Redact(text, name) != text
  {
    var p := FindFirst(text, name).value;
    var rest := Redact(text[p + |name|..], name);
    RedactAtFirstMatch(text, name, p);
    assert (text[..p] + Marker + rest)[p] == '[';
    MatchHasNoBracket(text, p, name, p);
  }

  /**
    The question never gives the name away between its fences, unless the
    name is part of the marker itself.
   */
  lemma {:induction false} QuestionHidesName(flavorText: string, pokemonName: string)
    requires IsLiteralPattern(FixPokemonName(pokemonName))
    requires |FixPokemonName(pokemonName)| > 0 && !Occurs(Marker, FixPokemonName(pokemonName))
    ensures var q := Question(flavorText, pokemonName);
      !Occurs(q[|Intro|..|q| - |Fence|], FixPokemonName(pokemonName))
  {
    var name := FixPokemonName(pokemonName);
    var q := Question(flavorText, pokemonName);
    RedactHidesName(flavorText, name);
    assert q[|Intro|..|q| - |Fence|] == Redact(flavorText, name);
  }
}
