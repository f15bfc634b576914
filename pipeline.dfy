/** `getRegex` and `sanityCheck` (index.js:179-201): the guard, the
    candidate pipeline, the external generator, the textual rewrites and the
    final check against both word lists. The generator `regexgen` and the
    regular-expression engine's `test` are parameters: `synth` maps the
    chosen partials to pattern text, `matches(pattern, word)` answers
    whether the compiled pattern accepts the word. */
module Pipeline {
  import opened Wrappers
  import opened Strings
  import opened Guard
  import opened Partials
  import opened LengthCap
  import opened Scoring
  import opened Selector
  import opened Rewriter

  /** Every error `getRegex` can throw. */
  datatype RegexError =
    | Rejected(reason: GuardError)                        // the guard of index.js:181-185
    | Mismatch(matched: seq<string>, unmatched: seq<string>)  // index.js:198-199

  /** `words.filter(keep)`. */
  function Filter(words: seq<string>, keep: string -> bool): (r: seq<string>)
    ensures |r| <= |words|
  {
    if words == [] then []
    else (if keep(words[0]) then [words[0]] else []) + Filter(words[1..], keep)
  }

  /** The filter keeps exactly the words satisfying `keep`, in their order. */
  lemma {:induction false} FilterMembers(words: seq<string>, keep: string -> bool)
    ensures forall w :: w in Filter(words, keep) <==> w in words && keep(w)
  {
    if words != [] {
      FilterMembers(words[1..], keep);
      assert words == [words[0]] + words[1..];
    }
  }

  /** The pattern accepts every include word and rejects every exclude word. */
  predicate Separates(pattern: string, includeList: seq<string>, excludeList: seq<string>,
                      matches: (string, string) -> bool)
  {
    && (forall w :: w in includeList ==> matches(pattern, w))
    && (forall w :: w in excludeList ==> !matches(pattern, w))
  }

  /** `sanityCheck`: the exclude words the pattern accepts and the include
      words it rejects; an error when either list is non-empty. The check
      passes exactly when the pattern separates the lists, and its error
      names exactly the misclassified words. */
  function SanityCheck(pattern: string, includeList: seq<string>, excludeList: seq<string>,
                       matches: (string, string) -> bool): (r: Option<RegexError>)
    ensures r.None? <==> Separates(pattern, includeList, excludeList, matches)
    ensures r.Some? ==>
      && r.value.Mismatch?
      && (forall w :: w in r.value.matched <==> w in excludeList && matches(pattern, w))
      && (forall w :: w in r.value.unmatched <==> w in includeList && !matches(pattern, w))
  {
    var matchedBad := Filter(excludeList, e => matches(pattern, e));
    var unmatchedBad := Filter(includeList, i => !matches(pattern, i));
    FilterMembers(excludeList, e => matches(pattern, e));
    FilterMembers(includeList, i => !matches(pattern, i));
    assert |matchedBad| > 0 ==> matchedBad[0] in matchedBad;
    assert |unmatchedBad| > 0 ==> unmatchedBad[0] in unmatchedBad;
    if |matchedBad| > 0 || |unmatchedBad| > 0 then Some(Mismatch(matchedBad, unmatchedBad)) else None
  }

  /** A choice of one partial per include word, each taken from that word's
      candidate list. */
  ghost predicate Chosen(best: seq<string>, includeList: seq<string>, excludeList: seq<string>)
  {
    && |best| == |includeList|
    && forall i :: 0 <= i < |best| ==> best[i] in AllPartials(includeList, excludeList)[i]
  }

  /** `getRegex`: rejects bad input with the guard's error, otherwise builds
      the pattern from one candidate per include word and returns it only
      when it separates the two lists. */
  method GetRegex(includeList: seq<string>, excludeList: seq<string>,
                  synth: seq<string> -> string, matches: (string, string) -> bool, pow15: nat -> real)
    returns (r: Result<string, RegexError>)
    requires ValidPow(pow15)
    ensures (r.Err? && r.error.Rejected?) <==> !Accepted(includeList, excludeList)
    ensures r.Err? && r.error.Rejected? ==> Check(includeList, excludeList) == Some(r.error.reason)
    ensures r.Err? && r.error.Mismatch? ==>
      exists best :: Chosen(best, includeList, excludeList)
        && !Separates(OptimizeRegex(UnescapeStartEnd(synth(best))), includeList, excludeList, matches)
    ensures r.Ok? ==> Separates(r.value, includeList, excludeList, matches)
    ensures r.Ok? ==>
      exists best :: Chosen(best, includeList, excludeList)
        && r.value == OptimizeRegex(UnescapeStartEnd(synth(best)))
  {
    CheckSpec(includeList, excludeList);
    var bad := Check(includeList, excludeList);
    if bad.Some? {
      return Err(Rejected(bad.value));
    }
    var allPartials := GetAllPartials(includeList, excludeList);
    forall k | 0 <= k < |allPartials| ensures |allPartials[k]| > 0 {
      CandidatesNonEmpty(includeList, excludeList, k);
    }
    var maxLength, capped := FilterPartialsByLength(allPartials);
    var best := FindBestPartials(capped, pow15);
    forall i | 0 <= i < |best| ensures best[i] in allPartials[i] {
      CapListMembers(allPartials[i], maxLength);
    }
    assert Chosen(best, includeList, excludeList);
    var regex := OptimizeRegex(UnescapeStartEnd(synth(best)));
    var failure := SanityCheck(regex, includeList, excludeList, matches);
    if failure.Some? {
      return Err(failure.value);
    }
    return Ok(regex);
  }

  /** With the guard as written, an empty word in both lists is let
      through, and its candidate list is empty: `partials[0]` at
      index.js:256 is then `undefined` and reading its length throws. */
  lemma AsWrittenReachesEmptyCandidates()
    ensures CheckAsWritten([""], [""]).None?
    ensures AllPartials([""], [""]) == [[]]
  {
    EmptyWordSlipsThrough();
    var t := Wrap("");
    assert t == "^$";
    var ex := WrapAll([""]);
    assert ex[0] == t && "^$" in ex;
    assert t[0..1] == "^" && Includes("^$", "^");
    assert t[1..2] == "$" && Includes("^$", "$");
    assert t[0..2] == "^$" && Includes("^$", "^$");
    assert KeptOfSize("^$", ex, 1, 2) == [];
    assert KeptOfSize("^$", ex, 2, 1) == [];
    assert CandidatesFrom("^$", ex, 3) == [];
  }
}
