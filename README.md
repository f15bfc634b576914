# regex-thing in Dafny

A model of `index.js` of regex-thing, a tool that builds a short regular
expression accepting every word of an include list and rejecting every word
of an exclude list. `getRegex` goes through these stages, each a module:

- **Guard**: `getRegex` rejects a word found in both lists, or any word holding `^` or `$`.
- **Partials**: `getAllPartials` wraps every word as `^w$`. For each include word it lists every substring of its wrapped form that no wrapped exclude word contains, shorter substrings first.
- **LengthCap**: `filterPartialsByLength` takes the longest of the per-word shortest candidates and drops every candidate longer than that.
- **Scoring** and **Selector**: `findBestPartials` runs a greedy `do … while` loop. Each round it:
  - re-estimates every unlocked candidate from its longest shared prefixes with the other words' candidates;
  - sorts each list by that estimate;
  - gives every list head a "savings" score;
  - picks the first unlocked list with the greatest savings;
  - collapses every list holding that value to one locked entry.
- **Rewriter**: `unescapeStartEnd` and `optimizeRegex` are chains of `String.prototype.replace` calls on the pattern text. Each call is modelled as an explicit left-to-right scanner that follows the matching order of ECMAScript regular expressions (greedy groups with backtracking, alternatives tried left to right). A `g` replace rewrites every match; a replace without `g` rewrites only the leftmost match.
- **Pipeline**: `getRegex` chains the stages, then `sanityCheck` rejects a pattern that does not separate the two lists.

Supporting modules:
- `Strings` holds `includes` and prefix tests, each with a mathematical definition.
- `Sorting` holds the stable sort used at index.js:296 and index.js:305.
- `Wrappers` holds `Option` and `Result`.

The imperative parts of the source keep their loops, as methods proved against specification functions:
- the nested loops of `getAllPartials`;
- the `maxLength` loop;
- the rescoring, savings, selection and blend loops;
- the `do … while`.

The expression-only parts (the guard, the rewrites, `sanityCheck`) are functions with lemmas.

The external generator `regexgen` is a parameter `synth: seq<string> -> string`. The regular-expression engine's `test` is a parameter `matches(pattern, word)`. `Math.pow(n, 1.5)` is a parameter `pow15`, of which only `pow15(n) >= n` for `n >= 1` is assumed (predicate `Scoring.ValidPow`).

The written contract of the guard says that any word in both lists is rejected. The code lets the empty word through (see Findings). The model keeps the code's behaviour as `Guard.CheckAsWritten` and builds the pipeline on the intended check, `Guard.Check`.

## Model

| member | source | states |
|---|---|---|
| Guard.FindFirst | index.js:181-183 | `find` yields the first index whose word satisfies the test, and none exactly when no word does |
| Guard.CheckAsWritten | index.js:180-185 | the guard as written only ever reports a non-empty word, and the word breaks the rule reported: in both lists for the overlap error, holding `^` or `$` for the anchor error. Guard.AsWrittenAgreesWithoutEmptyWord and Guard.EmptyWordSlipsThrough relate it to the intended guard |
| Guard.Check | index.js:180-185 | the intended guard's error names a word that breaks the rule it reports; Guard.CheckSpec states when it fails and which word it names |
| Guard.CheckSpec | index.js:180-185 | the guard fails exactly when the lists overlap or some word holds `^`/`$`; the overlap test comes first and names the first include word that is also excluded; an anchor error implies disjoint lists and names the first word, include words before exclude words, that holds an anchor |
| Guard.AsWrittenAgreesWithoutEmptyWord | index.js:181-185 | the guard as written (truthiness test on the found word) agrees with the intended guard whenever the empty word is not an include word |
| Guard.EmptyWordSlipsThrough | index.js:181-182 | `[""]`/`[""]` passes the guard as written, though the input is not acceptable and the intended guard names `""` |
| Strings.IncludesIffOccurs | index.js:237 | `includes` is true exactly when the substring occurs at some position |
| Partials.GetAllPartials | index.js:226-245 | the nested loops build exactly one candidate list per include word, in include order, each equal to the specification `AllPartials` |
| Partials.KeepOfSize | index.js:235-240 | the inner position loop keeps, left to right, exactly the substrings of one size that no wrapped exclude word contains, as the specification `KeptOfSize` lists them |
| Partials.WordPartials | index.js:232-241 | the size loop over one wrapped word concatenates the kept substrings of every size from 1 up to the word's length, as `CandidatesFrom` lists them |
| Partials.CandidateSound | index.js:234-238 | every candidate of word k is a non-empty substring of `^w$` that occurs in no wrapped exclude word |
| Partials.CandidateComplete | index.js:234-238 | every substring occurrence of `^w$` that no wrapped exclude word contains is a candidate of word k |
| Partials.CandidatesOrdered | index.js:234-235 | candidate lengths never decrease along a list |
| Partials.CandidatesEnumerated | index.js:234-238 | candidate j of a word is the substring of `^w$` at a recorded position, and the pairs (length, position) strictly increase along the list: ordered by length, then left to right, one entry per occurrence, so text found at two positions is listed twice |
| Partials.CandidateOccurrenceListed | index.js:234-238 | every substring occurrence of `^w$` that no wrapped exclude word contains is listed as an entry with exactly that position and length |
| Partials.WrappedInsideWrapped | index.js:227-228 | for anchor-free words, `^w$` occurs inside `^e$` only when `w == e` |
| Partials.CandidatesNonEmpty | index.js:234-238 | for input the guard accepts, `^w$` itself is a candidate, so every list is non-empty and `partials[0]` at index.js:256 exists |
| LengthCap.CapListMembers | index.js:261 | the filter keeps exactly the candidates no longer than the cap |
| LengthCap.CapListIsPrefix | index.js:261 | on a list ordered by length, the filter keeps a prefix: everything before the cut fits, everything after is longer |
| LengthCap.FilterPartialsByLength | index.js:253-262 | `maxLength` bounds every list's first candidate and equals one of them (0 for no lists); each output list is its input filtered to that length, non-empty, with the same head |
| Sorting.SortBySpec | index.js:296 | the sort orders by key and is a permutation of its input (same multiset, same length) |
| Sorting.SortByMembers | index.js:305 | sorting keeps exactly the same elements |
| Scoring.Chance | index.js:289 | the ratio `(other.length - otherIndex) / other.length^1.5` lies in (0, 1] |
| Scoring.FindPrefixed | index.js:287 | `findIndex` yields the first candidate starting with the prefix, and none exactly when no candidate does |
| Scoring.SharesPrefixFound | index.js:286-288 | `findIndex` succeeds exactly when some candidate starts with the prefix |
| Scoring.PrefixMatchFromSpec | index.js:285-293 | the size loop reports no match exactly when no prefix is shared; otherwise the match has size `value.length - k` for the LONGEST shared prefix length k, with the chance of the first candidate starting with it |
| Scoring.PrefixMatchFromBounds | index.js:285-293 | a prefix match is shorter than the candidate and has a chance in (0, 1] |
| Scoring.LongestPrefixMatch | index.js:285-293 | the `for (size …)` loop with its `break` computes the specified longest-prefix match |
| Scoring.CollectMatches | index.js:281-295 | the loop over the other words builds the no-overlap entry followed by one optional match per other word |
| Scoring.MatchesUpToBounds | index.js:282-295 | each other word adds at most one match, none from the candidate's own list, each of size below `value.length` with chance in (0, 1] |
| Scoring.Blend | index.js:297-303 | the blend loop computes the specified `(estimatedSize, done)` fold |
| Scoring.StepBounds | index.js:300-302 | one blend step keeps `done` in [0, 1] and the estimate within [0, done × bound] |
| Scoring.BlendBounds | index.js:297-303 | with sizes at most `bound` and chances in [0, 1], the blended weights stay within 1 and the estimate within [0, done × bound] |
| Scoring.BlendWeightsTotalOne | index.js:297-303 | when the last match has chance 1 the weights total exactly 1 |
| Scoring.Estimate | index.js:280-304 | a candidate's estimated size lies in [0, value.length]; Scoring.EstimateWeightsTotalOne shows it is a weighted average of match sizes, and Scoring.EstimateSize computes it with the source's loops |
| Scoring.EstimateWeightsTotalOne | index.js:281-303 | the no-overlap entry sorts last, so the blend's weights total 1: the estimate is a weighted average of match sizes |
| Scoring.EstimateSize | index.js:280-304 | the scoring loops compute the specified estimate, which lies in [0, value.length] |
| Selector.RescoreAll | index.js:276-305 | the rescoring loops leave locked candidates as they are, re-estimate the rest against the previous round, and sort each list by estimate |
| Selector.RescoredKeepsShape | index.js:276-305 | rescoring leaves a locked list unchanged, keeps an open list open, and keeps every candidate within its word's original list |
| Selector.SetSavings | index.js:307-313 | the savings loop writes each head's savings and changes nothing else |
| Selector.HeadSavings | index.js:308-312 | a head's savings is `Infinity` exactly when its list has one candidate, and otherwise a gap that is non-negative on a list sorted by estimate |
| Selector.SavingsKeepShape | index.js:307-313 | writing savings changes no value, lock or length, and leaves every head scored |
| Selector.GreaterStep | index.js:319 | JavaScript's `>` on savings is transitive in the way the scan needs |
| Selector.SelectBest | index.js:315-322 | the scan picks nothing exactly when every list is locked; otherwise it picks an open list whose savings nothing beats, strictly greater than every earlier open list's |
| Selector.SingleCandidateChosenFirst | index.js:307-322 | when an open list has one candidate, the pick is a single-candidate list no later than it |
| Selector.Collapse | index.js:324-329 | a list becomes the single locked copy of the chosen candidate exactly when it holds the chosen value; the number of lists is unchanged and locked lists stay locked |
| Selector.CollapseProgress | index.js:324-329 | collapsing onto the picked head locks the picked list, keeps locked lists locked, leaves every list without the chosen value as it was, keeps candidates within their original lists, and reduces the number of open lists |
| Selector.Initial | index.js:273 | the first `result` has one unlocked entry per candidate, list by list, each value from its own word's list |
| Selector.InitialShape | index.js:273 | the first `result` has every list open and every candidate from its own list |
| Selector.OpenCountDecreases | index.js:331 | locking one more list lowers the loop's termination measure |
| Selector.NoneOpenAllLocked | index.js:315-325 | when no head is open, every list is a single locked entry |
| Selector.Round | index.js:276-329 | on a non-empty `result` with an open list, a round rescores and writes the savings, then collapses onto the head of the list the scan picks (the first open list with the greatest savings, `IsBest`), so `bestMatch` is defined at index.js:325; at least one more list is locked |
| Selector.FindBestPartials | index.js:272-336 | the loop terminates with one value per include word, each from that word's candidate list |
| Rewriter.MatchAt | index.js:204-216 | every match of every rule is non-empty and changes the length by the rule's fixed amount |
| Rewriter.FirstMatch | index.js:213-216 | the search finds the leftmost matching position, and none exactly when no position matches |
| Rewriter.ReplaceAllLength | index.js:204-212 | a global replace changes the length by the per-match amount times the number of matches |
| Rewriter.ReplaceAllNoMatch | index.js:210-212 | a global replace leaves text the rule never matches unchanged |
| Rewriter.ReplaceFirstSpec | index.js:213-216 | a replace without `g` changes nothing when no position matches; otherwise it rewrites only the leftmost match and keeps the text before and after it |
| Rewriter.UnescapeRoundTrip | index.js:204 | dropping the backslash before `^`/`$` (and before `-`, index.js:211) undoes escaping those characters in any text |
| Rewriter.UnbracketRoundTrip | index.js:212 | `[c]` → `c` undoes writing every character as a one-character class, for text without line terminators |
| Rewriter.UnmarkRoundTrip | index.js:210 | `(?:` → `(` undoes turning every group opener into a non-capturing one |
| Rewriter.AnchorClassSpec | index.js:204 | the anchor-in-class rule matches exactly when a class with an anchor opens at the position. The class ends at its first `]`; the greedy first group backtracks to the LAST anchor; the class becomes a non-capturing group of the anchor or a class of the remaining characters |
| Rewriter.OptimizeRegex | index.js:207-218 | `optimizeRegex` never makes the pattern longer |
| Rewriter.UnescapeStartEnd | index.js:203-205 | `unescapeStartEnd` removes one character per unescaped anchor and adds five per rewritten class |
| Pipeline.FilterMembers | index.js:196-197 | `filter` keeps exactly the words passing the test |
| Pipeline.SanityCheck | index.js:195-201 | the check passes exactly when the pattern accepts every include word and rejects every exclude word; its error lists exactly the misclassified words of each kind |
| Pipeline.GetRegex | index.js:179-193 | with the intended guard `Guard.Check` in place of the truthiness test (see Findings), `getRegex` fails with that guard's error exactly on inputs it rejects. Otherwise it returns a pattern only when that pattern separates the lists, and the pattern is the rewritten synthesis of one candidate per include word |
| Pipeline.AsWrittenReachesEmptyCandidates | index.js:253-256 | with the guard as written, `[""]`/`[""]` gets through to an empty candidate list, on which `partials[0].length` throws |

## Left out

- `regexgen` (index.js:1, 188) is an external library whose source is not part of this model. It is the parameter `synth`, and nothing is assumed about its output.
- `new RegExp(...)` and `regex.test` (index.js:196-197, 204, 208) depend on the JavaScript regex engine. Matching is the parameter `matches`. The model does not capture that `new RegExp` throws on an ill-formed pattern.
- Scoring.Chance: `Math.pow(n, 1.5)` is the parameter `pow15`, and only `pow15(n) >= n` is assumed, which keeps every chance in (0, 1].
- Scoring: the estimates, savings and blend are computed over exact `real`s, not IEEE doubles, so rounding ties between estimates are not modelled.
- Sorting.SortBySpec states ordering and permutation, not stability. The insertion sort is stable, as ECMAScript's sort is, but that is not proved.
- Selector.FindBestPartials states that the result has one candidate per word, taken from that word's list. It does not state which candidate wins overall. Each round is stated by Round: it collapses the rescored lists, with their savings written, onto the pick `IsBest` describes.
- LengthCap.FilterPartialsByLength and Selector.FindBestPartials require non-empty lists, where the source would throw on `partials[0]`. Partials.CandidatesNonEmpty proves that the pipeline only gives them non-empty lists.
- Error messages are modelled by their kind and offending words, not their text. Thrown errors are `Result` values.
- The word lists, the `test` driver and its `console.log` output (index.js:4-177), the unused `random-word` import, and test.js are not part of this model.
- Strings are sequences of Dafny `char`s, so UTF-16 surrogate pairs are not distinguished from single characters.

## Findings

| source | as written | input that shows it | evidently intended | confidence | as-written member | corrected member |
|---|---|---|---|---|---|---|
| index.js:181 | `if (bad = includeList.find(...))` tests the found word for truthiness, so a word found in both lists is ignored when it is the empty string; its candidate list is then empty and `partials[0].length` at index.js:256 throws a TypeError instead of the intended error | includeList `[""]`, excludeList `[""]` | every word found in both lists is rejected with the "included in both" error | not executed | Guard.EmptyWordSlipsThrough | Guard.CheckSpec |
