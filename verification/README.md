# Who's that Pokémon? — the string core, in Dafny

A Discord quiz bot posts a Pokémon's flavour text with the Pokémon's name
blanked out, and accepts the first message that contains the name. This
project models the pure string logic behind it.

- The windowed fuzzy matcher of `src/util.js`:
  - `substrings`: every window of a given width, padded at both ends, with adjacent repeats dropped.
  - `minLevenshtein`: the least edit distance from a needle to one of those windows.
  - `levenshtein`, stated as the textbook recursive edit distance.
- The name and question logic of `src/index.js`:
  - `fixPokemonName`: strips a form suffix such as `-attack`, except for `ho-oh` and `mr-mime`.
  - The question string: the flavour text with every occurrence of the name replaced by `[REDACTED]`, inside a fixed heading and a code fence.
  - The test applied to guesses: the guess contains the name, in any letter case.

Modules, one file each:

| module | file | what it holds |
|---|---|---|
| `Wrappers` | `wrappers.dfy` | `Option`; JavaScript's `Infinity` result is `None` |
| `Text` | `text.dfy` | ASCII lower-casing and the line terminators of JavaScript regular expressions |
| `Levenshtein` | `levenshtein.dfy` | the edit distance and its bounds |
| `SubstringWindows` | `substrings.dfy` | `padArray`, Ramda's `aperture` and `dropRepeats`, the windows and `substrings` |
| `FuzzyMatch` | `min_levenshtein.dfy` | `minLevenshtein` and `String.prototype.substr` |
| `PokemonName` | `pokemon_name.dfy` | `fixPokemonName` and the `/\-.+/g` replacement |
| `Quiz` | `question.dfy` | name matching, redaction, the question and the answer test |
| `UtilVectors` | `util_vectors.dfy` | the concrete examples of `test/util.js`, proved from the definitions |

Design points:

- **Windows.** `Windows(s, len)` is defined directly: window `k` is the slice of `s` that the `k`-th run of the padded list covers, clipped to the ends of `s`. `SubstringWindows.SubstringsAsWritten` proves that `substrings` as written gives exactly `dropRepeats` of these windows. As written, that is padding, `aperture`, join, `dropRepeats`.
- **Name matching.** The bot compiles the fixed name with `new RegExp(name, 'ig')`. For a name without regular-expression metacharacters, that pattern matches the name literally, ignoring case. `Quiz.IsLiteralPattern` states this restriction, and the question and the answer test require it.
- **Replacing with an empty pattern.** An empty pattern matches at every position, the end included. `Quiz.MarkEveryPosition` models that case.
- **The suffix pattern.** `/\-.+/g` is modelled as the scan a global replacement performs: each hyphen that is followed by a character other than a line terminator is removed, together with the rest of its line.
- **The count formula of the tests.** `test/util.js:21-23` asserts that `substrings(str, len)` has `|str| + min(|str|, len) - 1` elements. Because `dropRepeats` also merges equal neighbouring windows inside a run of one character, that count is reached exactly when no character repeats more than `len` times in a row; this is `SubstringWindows.SubstringsCountExact`. In general the count is only an upper bound, and `substrings("aa", 1)` is `["a"]`.
- **The bot does not use the fuzzy matcher.** `src/index.js` never imports `./util`. Guesses are checked with the name's regular expression, there are no hints, and the quiz times out after 15 seconds. The model follows the code; `minLevenshtein` is modelled as the library function it is.

## Model

| member | source | states |
|---|---|---|
| Levenshtein.Distance | src/util.js:6-8 | the edit distance is at least the difference of the two lengths and at most the length of the longer string |
| Levenshtein.DistanceToSelf | src/util.js:6-8 | a string is at distance 0 from itself |
| Levenshtein.DistanceZeroIff | src/util.js:6-8 | the distance is 0 exactly when the two strings are equal |
| Levenshtein.DistanceSymmetric | src/util.js:6-8 | the distance is the same in both directions, so the order `levenshtein(s, needle)` does not matter |
| Levenshtein.DistanceSharedPrefix | src/util.js:6-8 | a common prefix costs nothing: `d(p+a, p+b) == d(a, b)` |
| Levenshtein.DistanceAtLeastClassDeficit | src/util.js:6-8 | for any character class, the distance is at least the needle's count of that class minus the other string's count |
| SubstringWindows.PadArray | src/util.js:10-14 | `max(count, 0)` copies of the element on each side, and the array unchanged in between |
| SubstringWindows.ApertureFrom | src/util.js:18 | the loop of `aperture` started at index `idx` emits `|xs| + 1 - n - idx` runs (none once `idx + n > |xs|`), run `i` being `xs[idx+i..idx+i+n]` |
| SubstringWindows.Aperture | src/util.js:18 | `aperture(n, xs)` has `|xs| + 1 - n` runs (none when `n > |xs| + 1`), run `i` being `xs[i..i+n]` |
| SubstringWindows.DropRepeats | src/util.js:17 | no two neighbours in the result are equal; it keeps the first and last element and is empty only for an empty input |
| SubstringWindows.DropRepeatsIsRunStarts | src/util.js:17 | `dropRepeats` returns exactly the elements at the positions that start a run of equal neighbours in the input, in their original order |
| SubstringWindows.DropRepeatsSameElements | src/util.js:17 | `dropRepeats` keeps every value that occurs and adds none |
| SubstringWindows.DropRepeatsLength | src/util.js:17 | exactly one element is removed per pair of equal neighbours |
| SubstringWindows.DropRepeatsKeepsDistinctNeighbours | src/util.js:17 | a list without equal neighbours is returned unchanged |
| SubstringWindows.Windows | src/util.js:18-21 | there are `|s| + len - 1` windows (`|s| + 1` at width 0), and none is longer than `len` |
| SubstringWindows.PipelineIsWindows | src/util.js:18-21 | joining each run of the padded one-character list gives the slice of the string that the run covers, clipped to the ends of the string |
| SubstringWindows.Substrings | src/util.js:16-22 | no two neighbouring elements of `substrings` are equal |
| SubstringWindows.SubstringsAsWritten | src/util.js:16-22 | `substrings` equals `dropRepeats` of the joined runs of the padded list |
| SubstringWindows.SubstringsElements | src/util.js:16-22 | for a non-empty string and `len >= 1`, an element is exactly a non-empty slice of length at most `len` that is either full length or touches an end of the string (both directions) |
| SubstringWindows.SubstringsAreShortSlices | src/util.js:16-22 | every element is a contiguous slice of length between 1 and `len` |
| SubstringWindows.SubstringsAreSlices | src/util.js:16-22 | for every string and width, the empty string included, each element is a slice of the string at most `len` long |
| SubstringWindows.FullSliceIsSubstring | src/util.js:16-22 | every run of `len` consecutive characters is an element |
| SubstringWindows.SubstringsOfEmpty | src/util.js:16-22 | for the empty string: no windows at width 1, otherwise the single window `""` |
| SubstringWindows.SubstringsOfNonEmpty | src/util.js:16-22 | a non-empty string has at least one window |
| SubstringWindows.SubstringsCountAtMost | test/util.js:20-26 | the count is at most `|s| + min(|s|, len) - 1` |
| SubstringWindows.SubstringsCountExact | test/util.js:20-26 | the count equals `|s| + min(|s|, len) - 1` exactly when no character repeats more than `len` times in a row |
| FuzzyMatch.MinWith | src/util.js:4 | `Math.min` against `Infinity`: the result is finite, no larger than either argument, and equal to one of them |
| FuzzyMatch.ReduceMin | src/util.js:27 | `reduce(min, Infinity)` is `None` exactly for an empty list, is at most every element and is one of them |
| FuzzyMatch.MinDistance | src/util.js:26-27 | the least distance over a list of windows: none is closer, one is exactly that close, and `Infinity` only for an empty list |
| FuzzyMatch.MinLevenshtein | src/util.js:24-28 | no window of the needle's width is closer than the result, some window is exactly that close, and the result is `None` exactly when there are no windows |
| FuzzyMatch.MinLevenshteinInfinite | src/util.js:24-28 | the result is `Infinity` exactly for an empty haystack and a one-character needle |
| FuzzyMatch.MinLevenshteinOfEmptyHaystack | src/util.js:24-28 | against the empty haystack, any needle of another length is its own length away |
| FuzzyMatch.MinLevenshteinAtMostNeedle | src/util.js:24-28 | outside the empty-haystack, one-character-needle case, the result is finite and at most the needle's length |
| FuzzyMatch.MinLevenshteinAtLeast | src/util.js:24-28 | a bound on a character class in every needle-wide slice of the haystack gives a lower bound on the result |
| FuzzyMatch.MinLevenshteinOfWindow | src/util.js:24-28 | a needle that is itself a window is found at distance 0 |
| FuzzyMatch.Substr | test/util.js:37 | `substr(i, len)` is the slice starting at `i`, `len` long unless the string ends first, and empty past the end |
| FuzzyMatch.MinLevenshteinOfSubstr | test/util.js:35-41 | every piece cut from a string, the empty one included, is found in it at distance 0 |
| UtilVectors.SubstringsHello | test/util.js:8-18 | `substrings("hello", 3)` is `["h","he","hel","ell","llo","lo","o"]` |
| UtilVectors.SubstringsOfDoubledLetter | test/util.js:20-26 | `substrings("aa", 1)` is `["a"]`, below the count of 2 that the test asserts |
| UtilVectors.MinLevenshteinDoggo | test/util.js:29 | `minLevenshtein("my dog is named lars", "doggo")` is 2 |
| UtilVectors.MinLevenshteinCool | test/util.js:31 | `minLevenshtein("you think that is cool? i got something cooler", "cool")` is 0 |
| UtilVectors.MinLevenshteinCoolest | test/util.js:32 | the same haystack with `"coolest"` gives 2 |
| PokemonName.StripSuffixes | src/index.js:21 | the replacement is never longer than the name, leaves nothing the pattern could match, and keeps a first character that is not a hyphen |
| PokemonName.StripSuffixesFixedIff | src/index.js:21 | the replacement changes nothing exactly when the pattern matches nowhere |
| PokemonName.NoCutWithoutTerminators | src/index.js:21 | on one line, the pattern matches somewhere exactly when some hyphen is not the last character |
| PokemonName.StripSuffixesAtFirstHyphen | src/index.js:21 | on one line, everything from the first hyphen that is not the last character is removed |
| PokemonName.KeptWhole | src/index.js:17 | each of the two exceptions, compared after lower-casing, has a hyphen at position 2 followed by a character the pattern accepts, so the replacement would cut it |
| PokemonName.FixPokemonName | src/index.js:16-22 | `ho-oh` and `mr-mime` in any case are returned as they are; every other result contains no hyphen followed by another character on its line |
| PokemonName.FixPokemonNameKeepsExceptions | src/index.js:17-19 | the two exceptions are kept, although the replacement would have changed them |
| PokemonName.FixPokemonNameBeforeFirstHyphen | src/index.js:21 | any other single-line name whose first hyphen is not its last character becomes the text before that hyphen |
| PokemonName.FixPokemonNameWithoutSuffix | src/index.js:21 | a name without a hyphen, or whose only hyphen is its last character, is unchanged |
| PokemonName.FixPokemonNameUnchangedIff | src/index.js:16-22 | the name comes back unchanged exactly when it is an exception or has no suffix |
| PokemonName.FixPokemonNameIsPrefix | src/index.js:16-22 | for a name on one line, the result is a prefix of the name |
| PokemonName.FixPokemonNameIdempotent | src/index.js:16-22 | fixing a fixed name changes nothing |
| Quiz.MatchesAtIgnoringCase | src/index.js:60 | the case-insensitive pattern matches at `i` exactly when the slice of the text at `i` equals the name once both are lower-cased |
| Quiz.FindFirst | src/index.js:60 | the search returns the leftmost occurrence of the name, ignoring case, or `None` when the name occurs nowhere |
| Quiz.MarkEveryPosition | src/index.js:68 | replacing with an empty pattern adds one marker for each of the `|text| + 1` positions, so the text grows by that many markers |
| Quiz.MarkEveryPositionLayout | src/index.js:68 | with an empty pattern, the result is the marker followed by character `i`, once for each `i` in order, and then one last marker |
| Quiz.Redact | src/index.js:68 | a text in which the name does not occur is returned unchanged |
| Quiz.RedactAtFirstMatch | src/index.js:68 | the text before the leftmost occurrence is copied, the occurrence becomes `[REDACTED]` and the rest is redacted in turn |
| Quiz.RedactHidesName | src/index.js:68 | a name that does not occur in the marker does not occur anywhere in the redacted text |
| Quiz.RedactUnchangedIff | src/index.js:68 | the text comes back unchanged exactly when the name does not occur in it |
| Quiz.Question | src/index.js:68 | the question starts with the heading and ends with the fence; without an occurrence, the flavour text sits between them unchanged |
| Quiz.QuestionHidesName | src/index.js:68 | for a non-empty fixed name that is not part of `[REDACTED]`, the name does not occur between the heading and the fence |
| Quiz.IsCorrectGuess | src/index.js:71 | a guess is accepted exactly when the fixed name occurs in it, ignoring case |
| Quiz.IsCorrectGuessOfName | src/index.js:71 | a guess equal to the fixed name in any letter case is accepted |

## Left out

- Rx orchestration (`quizObservable`, `quizPokemonObservable`, `repeat(50)`, `takeUntil`, `delay(10)`, `src/index.js:24-86` and `147-158`): it depends on timers and the Rx scheduler. Only the strings it passes along are modelled.
- The Discord client, login, environment variables, the invite command and logging (`src/index.js:88-175`): these are I/O.
- The stop command's pattern `/[end|stop]/` (`src/index.js:118`): part of the message transport, not of the quiz strings.
- Quiz.IsCorrectGuess: models `nameRegex.test` without the `lastIndex` state that the `g` flag keeps between calls, so in the bot a guess that contains the name can still be rejected when it comes right after a successful test. The guess is the message's `cleanContent`, taken as a parameter.
- The random choice of Pokémon and flavour text (`randomItem`, `src/pokemon.js`): the chosen flavour text and name are parameters.
- `src/pokemon.js` (HTTP requests and the Keyv cache) and `testmodel.js`: network I/O; these files are not part of this model.
- The npm `levenshtein` package: its internals are not part of this model; `Levenshtein.Distance` is the recursive edit distance with unit costs that it computes.
- JavaScript numbers: lengths and distances are unbounded naturals, and `Infinity` is `None`.
- Strings are sequences of Dafny `char`s, which are Unicode scalar values. JavaScript strings are sequences of UTF-16 code units, so for a character outside the Basic Multilingual Plane the model counts one character where `split('')` and `.length` count two surrogate halves. Window widths, lengths and distances agree with the code only for text without such characters; the API's Pokémon names are plain ASCII.
- Lower-casing is modelled for ASCII letters only, which covers the API's Pokémon names.
- Quiz.Question: requires a fixed name without regular-expression metacharacters; such a name would be compiled as a pattern rather than a literal.
- Quiz.IsCorrectGuess: requires a fixed name without regular-expression metacharacters, for the same reason.
- PokemonName.FixPokemonNameIsPrefix: requires a name without line terminators. On several lines the replacement keeps the text after a line break, and the result need not be a prefix.
- The hint stream (always empty) and the 15-second timeout of `src/index.js:74-77`: there is no hint generator or clock in the model.
