/** Scoring of one candidate inside `findBestPartials` (index.js:280-304):
    its longest-shared-prefix matches against the other words' lists and
    the probability-weighted blend of them. */
module Scoring {
  import opened Wrappers
  import opened Strings
  import opened Sorting

  /** `savings` of a list head: unset on a freshly scored candidate, a finite
      gap, or `Infinity` for a list with one candidate. */
  datatype Savings = Unset | Finite(gap: real) | Infinite

  /** One element of a candidate list, `{ value, estimatedSize, savings, locked }`. */
  datatype Partial = Partial(value: string, estimatedSize: real, savings: Savings, locked: bool)

  /** One element of `matches`, `{ size, chance }`. */
  datatype Match = Match(size: nat, chance: real)

  /** `Math.pow(n, 1.5)` is given as a parameter; all the model needs of it is
      that it is at least `n` for every list length `n >= 1`. */
  ghost predicate ValidPow(pow15: nat -> real)
  {
    forall n: nat :: 1 <= n ==> n as real <= pow15(n)
  }

  /** `(other.length - otherIndex) / Math.pow(other.length, 1.5)` (index.js:289). */
  function Chance(n: nat, idx: nat, pow15: nat -> real): (c: real)
    requires ValidPow(pow15) && idx < n
    ensures 0.0 < c <= 1.0
  {
    assert 1 <= n;
    var c := (n - idx) as real / pow15(n);
    assert c * pow15(n) == (n - idx) as real;
    c
  }

  /** `other.findIndex(o => o.value.indexOf(substring) === 0)` (index.js:287). */
  function FindPrefixed(other: seq<Partial>, sub: string): (r: Option<nat>)
    ensures r.None? <==> forall j :: 0 <= j < |other| ==> !IsPrefix(sub, other[j].value)
    ensures r.Some? ==> r.value < |other| && IsPrefix(sub, other[r.value].value)
    ensures r.Some? ==> forall j :: 0 <= j < r.value ==> !IsPrefix(sub, other[j].value)
  {
    if other == [] then None
    else if IsPrefix(sub, other[0].value) then Some(0)
    else match FindPrefixed(other[1..], sub)
      case None => None
      case Some(j) => Some(j + 1)
  }

  /** Some candidate of `other` starts with the first `k` characters of `value`. */
  predicate SharesPrefix(value: string, other: seq<Partial>, k: nat)
    requires k <= |value|
  {
    exists j :: 0 <= j < |other| && IsPrefix(value[..k], other[j].value)
  }

  /** The `for (size = value.length; size > 0; size--)` search of index.js:285-293,
      started at `size`: the first prefix length, counting down, that some
      candidate of `other` starts with, reported as a match of size
      `value.length - k` for a shared prefix of length `k`. */
  function PrefixMatchFrom(value: string, other: seq<Partial>, size: nat, pow15: nat -> real): Option<Match>
    requires ValidPow(pow15) && size <= |value|
    decreases size
  {
    if size == 0 then None
    else match FindPrefixed(other, value[..size])
      case Some(idx) => Some(Match(|value| - size, Chance(|other|, idx, pow15)))
      case None => PrefixMatchFrom(value, other, size - 1, pow15)
  }

  /** A prefix is shared exactly when `findIndex` finds a candidate for it. */
  lemma SharesPrefixFound(value: string, other: seq<Partial>, k: nat)
    requires k <= |value|
    ensures SharesPrefix(value, other, k) <==> FindPrefixed(other, value[..k]).Some?
  {
    var found := FindPrefixed(other, value[..k]);
    if found.Some? {
      assert IsPrefix(value[..k], other[found.value].value);
    }
  }

  /** The size loop in terms of `findIndex`: no match exactly when every
      prefix length from 1 to `size` finds nothing. */
  lemma {:induction false} PrefixMatchFromNone(value: string, other: seq<Partial>, size: nat, pow15: nat -> real)
    requires ValidPow(pow15) && size <= |value|
    ensures PrefixMatchFrom(value, other, size, pow15).None? <==>
      forall k :: 1 <= k <= size ==> FindPrefixed(other, value[..k]).None?
    decreases size
  {
    if size == 0 {
    } else if FindPrefixed(other, value[..size]).Some? {
      assert PrefixMatchFrom(value, other, size, pow15).Some?;
    } else {
      assert PrefixMatchFrom(value, other, size, pow15) == PrefixMatchFrom(value, other, size - 1, pow15);
      PrefixMatchFromNone(value, other, size - 1, pow15);
    }
  }

  /** A match is for a prefix length `k` that finds a candidate, with that
      candidate's chance. */
  lemma {:induction false} PrefixMatchFromSome(value: string, other: seq<Partial>, size: nat, pow15: nat -> real)
    requires ValidPow(pow15) && size <= |value|
    ensures PrefixMatchFrom(value, other, size, pow15).Some? ==>
      var k := |value| - PrefixMatchFrom(value, other, size, pow15).value.size;
      && 1 <= k <= size
      && FindPrefixed(other, value[..k]).Some?
      && PrefixMatchFrom(value, other, size, pow15).value.chance
         == Chance(|other|, FindPrefixed(other, value[..k]).value, pow15)
    decreases size
  {
    if size > 0 && FindPrefixed(other, value[..size]).None? {
      PrefixMatchFromSome(value, other, size - 1, pow15);
    }
  }

  /** No prefix longer than the matched one, up to `size`, finds a candidate. */
  lemma {:induction false} PrefixMatchFromLongest(value: string, other: seq<Partial>, size: nat, pow15: nat -> real)
    requires ValidPow(pow15) && size <= |value|
    ensures PrefixMatchFrom(value, other, size, pow15).Some? ==>
      var k := |value| - PrefixMatchFrom(value, other, size, pow15).value.size;
      forall k': nat :: k < k' <= size ==> FindPrefixed(other, value[..k']).None?
    decreases size
  {
    if size > 0 && FindPrefixed(other, value[..size]).None? {
      PrefixMatchFromLongest(value, other, size - 1, pow15);
    }
  }

  /** The search finds the LONGEST shared prefix: no match when no prefix
      of length 1 to `size` is shared; otherwise a match whose prefix length
      `k` is shared while no longer one is, with the chance of the first
      candidate of `other` starting with that prefix. */
  lemma PrefixMatchFromSpec(value: string, other: seq<Partial>, size: nat, pow15: nat -> real)
    requires ValidPow(pow15) && size <= |value|
    ensures PrefixMatchFrom(value, other, size, pow15).None? <==>
      forall k :: 1 <= k <= size ==> !SharesPrefix(value, other, k)
    ensures PrefixMatchFrom(value, other, size, pow15).Some? ==>
      var k := |value| - PrefixMatchFrom(value, other, size, pow15).value.size;
      && 1 <= k <= size
      && SharesPrefix(value, other, k)
      && (forall k' :: k < k' <= size ==> !SharesPrefix(value, other, k'))
      && FindPrefixed(other, value[..k]).Some?
      && PrefixMatchFrom(value, other, size, pow15).value.chance
         == Chance(|other|, FindPrefixed(other, value[..k]).value, pow15)
  {
    PrefixMatchFromNone(value, other, size, pow15);
    PrefixMatchFromSome(value, other, size, pow15);
    PrefixMatchFromLongest(value, other, size, pow15);
    forall k | 1 <= k <= size
      ensures SharesPrefix(value, other, k) <==> FindPrefixed(other, value[..k]).Some?
    {
      SharesPrefixFound(value, other, k);
    }
  }

  /** A match is never the full length of the candidate and its chance is in (0, 1]. */
  lemma {:induction false} PrefixMatchFromBounds(value: string, other: seq<Partial>, size: nat, pow15: nat -> real)
    requires ValidPow(pow15) && size <= |value|
    ensures var m := PrefixMatchFrom(value, other, size, pow15);
      m.Some? ==> m.value.size < |value| && 0.0 < m.value.chance <= 1.0
    decreases size
  {
    if size > 0 && FindPrefixed(other, value[..size]).None? {
      PrefixMatchFromBounds(value, other, size - 1, pow15);
    }
  }

  function PrefixMatch(value: string, other: seq<Partial>, pow15: nat -> real): Option<Match>
    requires ValidPow(pow15)
  {
    PrefixMatchFrom(value, other, |value|, pow15)
  }

  /** The size loop as a method: it stops at the first (longest) shared prefix. */
  method LongestPrefixMatch(value: string, other: seq<Partial>, pow15: nat -> real) returns (m: Option<Match>)
    requires ValidPow(pow15)
    ensures m == PrefixMatch(value, other, pow15)
  {
    var size := |value|;
    while size > 0
      invariant 0 <= size <= |value|
      invariant PrefixMatchFrom(value, other, size, pow15) == PrefixMatch(value, other, pow15)
    {
      var substring := value[..size];
      var otherIndex := FindPrefixed(other, substring);
      if otherIndex.Some? {
        return Some(Match(|value| - size, Chance(|other|, otherIndex.value, pow15)));
      }
      size := size - 1;
    }
    return None;
  }

  /** The matches gathered from lists `0 .. i-1`, skipping the candidate's own list. */
  function MatchesUpTo(value: string, result: seq<seq<Partial>>, index: nat, i: nat, pow15: nat -> real): seq<Match>
    requires ValidPow(pow15) && i <= |result|
  {
    if i == 0 then []
    else
      var m := if i - 1 != index then PrefixMatch(value, result[i - 1], pow15) else None;
      MatchesUpTo(value, result, index, i - 1, pow15) + (if m.Some? then [m.value] else [])
  }

  /** `matches` before sorting (index.js:281-295): the no-overlap entry first. */
  function Matches(value: string, result: seq<seq<Partial>>, index: nat, pow15: nat -> real): seq<Match>
    requires ValidPow(pow15)
  {
    [Match(|value|, 1.0)] + MatchesUpTo(value, result, index, |result|, pow15)
  }

  /** The loop over the other words (index.js:282-295). */
  method CollectMatches(value: string, result: seq<seq<Partial>>, index: nat, pow15: nat -> real)
    returns (matches: seq<Match>)
    requires ValidPow(pow15)
    ensures matches == Matches(value, result, index, pow15)
  {
    matches := [Match(|value|, 1.0)];
    for i := 0 to |result|
      invariant matches == [Match(|value|, 1.0)] + MatchesUpTo(value, result, index, i, pow15)
    {
      if i != index {
        var m := LongestPrefixMatch(value, result[i], pow15);
        if m.Some? {
          matches := matches + [m.value];
        }
      }
    }
  }

  /** Each other word adds at most one match, of size below `value.length`
      and with a chance in (0, 1]. */
  lemma {:induction false} MatchesUpToBounds(value: string, result: seq<seq<Partial>>, index: nat, i: nat, pow15: nat -> real)
    requires ValidPow(pow15) && i <= |result|
    ensures |MatchesUpTo(value, result, index, i, pow15)| <= (if index < i then i - 1 else i)
    ensures forall m :: m in MatchesUpTo(value, result, index, i, pow15) ==>
      m.size < |value| && 0.0 < m.chance <= 1.0
  {
    if i > 0 {
      MatchesUpToBounds(value, result, index, i - 1, pow15);
      PrefixMatchFromBounds(value, result[i - 1], |value|, pow15);
    }
  }

  /** One pass of the blend loop body (index.js:300-302) on `(estimatedSize, done)`. */
  function Step(prev: (real, real), m: Match): (real, real)
  {
    var ratio := (1.0 - prev.1) * m.chance;
    (prev.0 + m.size as real * ratio, prev.1 + ratio)
  }

  /** `(estimatedSize, done)` after the blend loop of index.js:297-303 has run over `ms`. */
  function BlendState(ms: seq<Match>): (real, real)
  {
    if ms == [] then (0.0, 0.0) else Step(BlendState(ms[..|ms| - 1]), ms[|ms| - 1])
  }

  /** The blend loop as a method. */
  method Blend(ms: seq<Match>) returns (estimatedSize: real)
    ensures estimatedSize == BlendState(ms).0
  {
    estimatedSize := 0.0;
    var done := 0.0;
    for k := 0 to |ms|
      invariant estimatedSize == BlendState(ms[..k]).0 && done == BlendState(ms[..k]).1
    {
      assert ms[..k + 1][..k] == ms[..k];
      var next := Step(BlendState(ms[..k]), ms[k]);
      assert BlendState(ms[..k + 1]) == next;
      var ratio := (1.0 - done) * ms[k].chance;
      assert next.0 == estimatedSize + ms[k].size as real * ratio;
      assert next.1 == done + ratio;
      estimatedSize := estimatedSize + ms[k].size as real * ratio;
      done := done + ratio;
    }
    assert ms[..|ms|] == ms;
  }

  lemma MulNonNegative(a: real, b: real)
    requires 0.0 <= a && 0.0 <= b
    ensures 0.0 <= a * b
  {
  }

  lemma MulMonotone(a: real, b: real, c: real)
    requires 0.0 <= a && b <= c
    ensures a * b <= a * c
  {
    assert a * c - a * b == a * (c - b);
    MulNonNegative(a, c - b);
  }

  /** The weights used so far total at most 1 and the estimate lies in [0, done * bound]. */
  predicate Bounded(state: (real, real), bound: nat)
  {
    0.0 <= state.1 <= 1.0 && 0.0 <= state.0 <= state.1 * bound as real
  }

  lemma RatioBounds(done: real, chance: real)
    requires 0.0 <= done <= 1.0 && 0.0 <= chance <= 1.0
    ensures 0.0 <= (1.0 - done) * chance <= 1.0 - done
  {
    MulNonNegative(1.0 - done, chance);
    MulMonotone(1.0 - done, chance, 1.0);
  }

  lemma ContributionBound(size: real, ratio: real, bound: real)
    requires 0.0 <= size <= bound && 0.0 <= ratio
    ensures 0.0 <= size * ratio <= bound * ratio
  {
    MulNonNegative(ratio, size);
    MulMonotone(ratio, size, bound);
  }

  lemma Distribute(done: real, ratio: real, bound: real)
    ensures (done + ratio) * bound == done * bound + ratio * bound
  {
  }

  /** One blend step keeps the bounds when the match's size is at most
      `bound` and its chance is in [0, 1]. */
  lemma StepBounds(prev: (real, real), m: Match, bound: nat)
    requires Bounded(prev, bound)
    requires m.size <= bound && 0.0 <= m.chance <= 1.0
    ensures Bounded(Step(prev, m), bound)
  {
    var est, done, size, b := prev.0, prev.1, m.size as real, bound as real;
    var ratio := (1.0 - done) * m.chance;
    RatioBounds(done, m.chance);
    ContributionBound(size, ratio, b);
    Distribute(done, ratio, b);
    assert Step(prev, m).0 == est + size * ratio;
    assert Step(prev, m).1 == done + ratio;
  }

  predicate MatchesWithin(ms: seq<Match>, bound: nat)
  {
    forall m :: m in ms ==> m.size <= bound && 0.0 <= m.chance <= 1.0
  }

  /** With every chance in [0, 1] and every size at most `bound`, the blend
      keeps its weights within 1 and its estimate within [0, done * bound]. */
  lemma {:induction false} BlendBounds(ms: seq<Match>, bound: nat)
    requires MatchesWithin(ms, bound)
    ensures Bounded(BlendState(ms), bound)
  {
    if ms != [] {
      var init := ms[..|ms| - 1];
      assert MatchesWithin(init, bound);
      BlendBounds(init, bound);
      assert ms[|ms| - 1] in ms;
      StepBounds(BlendState(init), ms[|ms| - 1], bound);
    }
  }

  /** When the last match has chance 1, the weights total exactly 1: the
      estimate is a weighted average of the match sizes. */
  lemma BlendWeightsTotalOne(ms: seq<Match>)
    requires ms != [] && ms[|ms| - 1].chance == 1.0
    ensures BlendState(ms).1 == 1.0
  {
  }

  function SizeKey(m: Match): real
  {
    m.size as real
  }

  /** The estimated size of a candidate (index.js:280-304): its matches,
      sorted by size, blended. It never exceeds the candidate's own length
      and is never negative. */
  function Estimate(value: string, result: seq<seq<Partial>>, index: nat, pow15: nat -> real): (r: real)
    requires ValidPow(pow15)
    ensures 0.0 <= r <= |value| as real
  {
    var ms := Matches(value, result, index, pow15);
    var sorted := SortBy(ms, SizeKey);
    MatchesWithinLength(value, result, index, pow15);
    SortByMembers(ms, SizeKey);
    assert MatchesWithin(sorted, |value|);
    BlendBounds(sorted, |value|);
    BoundedWithin(BlendState(sorted), |value|);
    BlendState(sorted).0
  }

  lemma BoundedWithin(state: (real, real), bound: nat)
    requires Bounded(state, bound)
    ensures 0.0 <= state.0 <= bound as real
  {
    var b := bound as real;
    MulMonotone(b, state.1, 1.0);
    assert b * state.1 <= b * 1.0;
    assert b * 1.0 == b;
    assert state.1 * b == b * state.1;
    assert state.0 <= state.1 * b;
  }

  lemma MatchesWithinLength(value: string, result: seq<seq<Partial>>, index: nat, pow15: nat -> real)
    requires ValidPow(pow15)
    ensures MatchesWithin(Matches(value, result, index, pow15), |value|)
  {
    var rest := MatchesUpTo(value, result, index, |result|, pow15);
    MatchesUpToBounds(value, result, index, |result|, pow15);
    assert Matches(value, result, index, pow15) == [Match(|value|, 1.0)] + rest;
  }

  /** The no-overlap entry `{ size: value.length, chance: 1 }` is the
      largest, so it sorts last and the blend's weights total exactly 1: the
      estimate is a weighted average of the match sizes. */
  lemma EstimateWeightsTotalOne(value: string, result: seq<seq<Partial>>, index: nat, pow15: nat -> real)
    requires ValidPow(pow15)
    ensures BlendState(SortBy(Matches(value, result, index, pow15), SizeKey)).1 == 1.0
  {
    var full := Match(|value|, 1.0);
    var rest := MatchesUpTo(value, result, index, |result|, pow15);
    var ms := Matches(value, result, index, pow15);
    var sorted := SortBy(ms, SizeKey);
    MatchesUpToBounds(value, result, index, |result|, pow15);
    SortBySpec(ms, SizeKey);
    SortByMembers(ms, SizeKey);
    assert full in ms;
    var at :| 0 <= at < |sorted| && sorted[at] == full;
    var last := sorted[|sorted| - 1];
    assert SizeKey(sorted[at]) <= SizeKey(last);
    assert last in ms;
    assert last == full;
    BlendWeightsTotalOne(sorted);
  }

  /** One candidate's score, as `EstimateSize` computes it with the loops above. */
  method EstimateSize(value: string, result: seq<seq<Partial>>, index: nat, pow15: nat -> real)
    returns (estimatedSize: real)
    requires ValidPow(pow15)
    ensures estimatedSize == Estimate(value, result, index, pow15)
    ensures 0.0 <= estimatedSize <= |value| as real
  {
    var matches := CollectMatches(value, result, index, pow15);
    estimatedSize := Blend(SortBy(matches, SizeKey));
  }
}
