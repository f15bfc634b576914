/** The greedy selector, `findBestPartials` (index.js:272-336). */
module Selector {
  import opened Wrappers
  import opened Sorting
  import opened Scoring

  /** `result` as first built (index.js:273): every candidate unlocked,
      scored by its own length. */
  function Initial(allPartials: seq<seq<string>>): (r: seq<seq<Partial>>)
    ensures Within(r, allPartials)
    ensures forall i :: 0 <= i < |r| ==>
      |r[i]| == |allPartials[i]| && forall j :: 0 <= j < |r[i]| ==> !r[i][j].locked
  {
    seq(|allPartials|, i requires 0 <= i < |allPartials| =>
      seq(|allPartials[i]|, j requires 0 <= j < |allPartials[i]| =>
        Partial(allPartials[i][j], |allPartials[i][j]| as real, Unset, false)))
  }

  /** A locked candidate keeps its object; any other one gets a fresh
      `{ value, estimatedSize }` (index.js:277-304). */
  function Rescore(p: Partial, result: seq<seq<Partial>>, index: nat, pow15: nat -> real): Partial
    requires ValidPow(pow15)
  {
    if p.locked then p else Partial(p.value, Estimate(p.value, result, index, pow15), Unset, false)
  }

  function EstimateKey(p: Partial): real
  {
    p.estimatedSize
  }

  /** List `index` rescored against the previous round's `result`, then
      sorted by estimated size (index.js:276-305). */
  function RescoredList(result: seq<seq<Partial>>, index: nat, pow15: nat -> real): seq<Partial>
    requires ValidPow(pow15) && index < |result|
  {
    var ps := result[index];
    SortBy(seq(|ps|, j requires 0 <= j < |ps| => Rescore(ps[j], result, index, pow15)), EstimateKey)
  }

  function Rescored(result: seq<seq<Partial>>, pow15: nat -> real): seq<seq<Partial>>
    requires ValidPow(pow15)
  {
    seq(|result|, i requires 0 <= i < |result| => RescoredList(result, i, pow15))
  }

  /** The `result.map(...)` of index.js:276-305, written with loops. */
  method RescoreAll(result: seq<seq<Partial>>, pow15: nat -> real) returns (next: seq<seq<Partial>>)
    requires ValidPow(pow15)
    ensures next == Rescored(result, pow15)
  {
    next := [];
    for i := 0 to |result|
      invariant |next| == i
      invariant forall k :: 0 <= k < i ==> next[k] == RescoredList(result, k, pow15)
    {
      var partials := result[i];
      var scored: seq<Partial> := [];
      for j := 0 to |partials|
        invariant |scored| == j
        invariant forall jj :: 0 <= jj < j ==> scored[jj] == Rescore(partials[jj], result, i, pow15)
      {
        var partial := partials[j];
        if partial.locked {
          scored := scored + [partial];
        } else {
          var estimatedSize := EstimateSize(partial.value, result, i, pow15);
          scored := scored + [Partial(partial.value, estimatedSize, Unset, false)];
        }
      }
      assert scored == seq(|partials|, j requires 0 <= j < |partials| => Rescore(partials[j], result, i, pow15));
      next := next + [SortBy(scored, EstimateKey)];
    }
  }

  /** The savings of a list's head (index.js:308-312): `Infinity` exactly
      for a list's only candidate, otherwise the gap to the runner-up, which
      is never negative on a list sorted by estimate. */
  function HeadSavings(ps: seq<Partial>): (r: Savings)
    requires |ps| > 0
    ensures r == Infinite <==> |ps| == 1
    ensures r.Finite? && SortedBy(ps, EstimateKey) ==> r.gap >= 0.0
  {
    if |ps| > 1 then Finite(ps[1].estimatedSize - ps[0].estimatedSize) else Infinite
  }

  /** Every list with its head's savings written; nothing else changes. */
  function WithSavings(result: seq<seq<Partial>>): seq<seq<Partial>>
  {
    seq(|result|, i requires 0 <= i < |result| =>
      if |result[i]| > 0 then result[i][0 := result[i][0].(savings := HeadSavings(result[i]))] else result[i])
  }

  /** The loop of index.js:307-313, which writes `savings` into each head. */
  method SetSavings(result: seq<seq<Partial>>) returns (next: seq<seq<Partial>>)
    requires forall i :: 0 <= i < |result| ==> |result[i]| > 0
    ensures next == WithSavings(result)
  {
    next := result;
    for i := 0 to |result|
      invariant |next| == |result|
      invariant forall k :: 0 <= k < i ==> next[k] == result[k][0 := result[k][0].(savings := HeadSavings(result[k]))]
      invariant forall k :: i <= k < |result| ==> next[k] == result[k]
    {
      var partials := next[i];
      next := next[i := partials[0 := partials[0].(savings := HeadSavings(partials))]];
    }
    assert next == WithSavings(result);
  }

  /** JavaScript's `a > b` on savings: `Infinity` beats every finite gap,
      nothing beats `Infinity`, and `undefined` compares false both ways. */
  predicate Greater(a: Savings, b: Savings)
  {
    match (a, b)
    case (Infinite, Finite(_)) => true
    case (Finite(x), Finite(y)) => x > y
    case _ => false
  }

  predicate Open(result: seq<seq<Partial>>, i: nat)
    requires i < |result| && |result[i]| > 0
  {
    !result[i][0].locked
  }

  predicate HeadsScored(result: seq<seq<Partial>>)
  {
    forall i :: 0 <= i < |result| ==> |result[i]| > 0 && result[i][0].savings != Unset
  }

  /** `!(x > b)` and `a > b` give `a > x` once all savings are set. */
  lemma GreaterStep(x: Savings, b: Savings, a: Savings)
    requires x != Unset && b != Unset && a != Unset
    requires !Greater(x, b) && Greater(a, b)
    ensures Greater(a, x) && !Greater(x, a)
  {
  }

  /** List `k` is the pick of the scan of index.js:315-322: an open list
      whose head's savings no open head beats, and which beats every open
      head before it, so that it is the first open list with the greatest
      savings. */
  predicate IsBest(result: seq<seq<Partial>>, k: nat)
  {
    && HeadsScored(result)
    && k < |result|
    && Open(result, k)
    && (forall i :: 0 <= i < |result| && Open(result, i) ==>
          !Greater(result[i][0].savings, result[k][0].savings))
    && (forall i :: 0 <= i < k && Open(result, i) ==>
          Greater(result[k][0].savings, result[i][0].savings))
  }

  /** The scan of index.js:315-322: the first open list, in include order,
      whose head's savings is strictly greatest; none when every list is locked. */
  method SelectBest(result: seq<seq<Partial>>) returns (best: Option<nat>)
    requires HeadsScored(result)
    ensures best.None? <==> forall i :: 0 <= i < |result| ==> !Open(result, i)
    ensures best.Some? ==> IsBest(result, best.value)
  {
    best := None;
    for i := 0 to |result|
      invariant best.None? ==> forall k :: 0 <= k < i ==> !Open(result, k)
      invariant best.Some? ==> best.value < i && Open(result, best.value)
      invariant best.Some? ==> forall k :: 0 <= k < i && Open(result, k) ==>
        !Greater(result[k][0].savings, result[best.value][0].savings)
      invariant best.Some? ==> forall k :: 0 <= k < best.value && Open(result, k) ==>
        Greater(result[best.value][0].savings, result[k][0].savings)
    {
      var head := result[i][0];
      if !head.locked && (best.None? || Greater(head.savings, result[best.value][0].savings)) {
        if best.Some? {
          var b := best.value;
          forall k | 0 <= k < i && Open(result, k)
            ensures Greater(head.savings, result[k][0].savings)
            ensures !Greater(result[k][0].savings, head.savings)
          {
            GreaterStep(result[k][0].savings, result[b][0].savings, head.savings);
          }
        }
        best := Some(i);
      }
    }
  }

  /** `partials.some(p => p.value === value)`. */
  predicate HasValue(ps: seq<Partial>, value: string)
  {
    exists j :: 0 <= j < |ps| && ps[j].value == value
  }

  /** The `result.map(...)` of index.js:324-329: a list becomes the single
      locked copy of the chosen candidate exactly when it holds the chosen
      value; a locked list stays locked. */
  function Collapse(result: seq<seq<Partial>>, chosen: Partial): (r: seq<seq<Partial>>)
    ensures |r| == |result|
    ensures forall i :: 0 <= i < |result| ==>
      (HasValue(result[i], chosen.value) <==> r[i] == [chosen.(locked := true)])
    ensures forall i :: 0 <= i < |result| && LockedList(result[i]) ==> LockedList(r[i])
  {
    LockedHasValue(chosen);
    seq(|result|, i requires 0 <= i < |result| =>
      if HasValue(result[i], chosen.value) then [chosen.(locked := true)] else result[i])
  }

  /** The locked copy of a candidate holds that candidate's value. */
  lemma LockedHasValue(chosen: Partial)
    ensures HasValue([chosen.(locked := true)], chosen.value)
  {
    assert [chosen.(locked := true)][0].value == chosen.value;
  }

  /** A list already decided: its single, locked candidate. */
  predicate LockedList(ps: seq<Partial>)
  {
    |ps| == 1 && ps[0].locked
  }

  /** A list still open: non-empty, nothing locked. */
  predicate OpenList(ps: seq<Partial>)
  {
    |ps| > 0 && forall j :: 0 <= j < |ps| ==> !ps[j].locked
  }

  predicate WellShaped(result: seq<seq<Partial>>)
  {
    forall i :: 0 <= i < |result| ==> LockedList(result[i]) || OpenList(result[i])
  }

  /** Every candidate still in list `i` came from list `i` of `allPartials`. */
  predicate Within(result: seq<seq<Partial>>, allPartials: seq<seq<string>>)
  {
    && |result| == |allPartials|
    && forall i, j :: 0 <= i < |result| && 0 <= j < |result[i]| ==> result[i][j].value in allPartials[i]
  }

  /** The loop condition of index.js:331 fails: every list has length 1. */
  predicate AllSingle(result: seq<seq<Partial>>)
  {
    forall i :: 0 <= i < |result| ==> |result[i]| == 1
  }

  /** The number of open lists, the loop's termination measure. */
  function OpenCount(result: seq<seq<Partial>>): nat
    requires WellShaped(result)
  {
    if result == [] then 0
    else OpenCount(result[..|result| - 1]) + (if OpenList(result[|result| - 1]) then 1 else 0)
  }

  lemma {:induction false} OpenCountDecreases(before: seq<seq<Partial>>, after: seq<seq<Partial>>, k: nat)
    requires WellShaped(before) && WellShaped(after) && |before| == |after|
    requires forall i :: 0 <= i < |before| && LockedList(before[i]) ==> LockedList(after[i])
    requires k < |before| && OpenList(before[k]) && LockedList(after[k])
    ensures OpenCount(after) < OpenCount(before)
  {
    var n := |before| - 1;
    OpenCountMonotone(before[..n], after[..n]);
    if k < n {
      OpenCountDecreases(before[..n], after[..n], k);
    }
  }

  lemma {:induction false} OpenCountMonotone(before: seq<seq<Partial>>, after: seq<seq<Partial>>)
    requires WellShaped(before) && WellShaped(after) && |before| == |after|
    requires forall i :: 0 <= i < |before| && LockedList(before[i]) ==> LockedList(after[i])
    ensures OpenCount(after) <= OpenCount(before)
  {
    if before != [] {
      var n := |before| - 1;
      OpenCountMonotone(before[..n], after[..n]);
    }
  }

  /** Rescoring one list: a locked list is unchanged, an open list stays
      open, and every value stays inside the word's original list. */
  lemma RescoredListShape(result: seq<seq<Partial>>, allPartials: seq<seq<string>>, pow15: nat -> real, i: nat)
    requires ValidPow(pow15) && WellShaped(result) && Within(result, allPartials)
    requires i < |result|
    ensures LockedList(result[i]) ==> Rescored(result, pow15)[i] == result[i]
    ensures OpenList(result[i]) ==> OpenList(Rescored(result, pow15)[i])
    ensures forall j :: 0 <= j < |Rescored(result, pow15)[i]| ==> Rescored(result, pow15)[i][j].value in allPartials[i]
  {
    var next := Rescored(result, pow15);
    var ps := result[i];
    var mapped := seq(|ps|, j requires 0 <= j < |ps| => Rescore(ps[j], result, i, pow15));
    SortBySpec(mapped, EstimateKey);
    SortByMembers(mapped, EstimateKey);
    assert next[i] == SortBy(mapped, EstimateKey);
    forall q: Partial | q in next[i] ensures q.value in allPartials[i] && (OpenList(ps) ==> !q.locked) {
      var j :| 0 <= j < |mapped| && mapped[j] == q;
      assert ps[j].value in allPartials[i];
    }
    if LockedList(ps) {
      assert mapped == [ps[0]];
      assert SortBy(mapped, EstimateKey) == Insert(ps[0], [], EstimateKey);
    }
    forall j | 0 <= j < |next[i]| ensures next[i][j].value in allPartials[i] {
      assert next[i][j] in next[i];
    }
  }

  /** Rescoring keeps every list's shape and candidates: a locked list is
      unchanged, an open list stays open with the same values. */
  lemma RescoredKeepsShape(result: seq<seq<Partial>>, allPartials: seq<seq<string>>, pow15: nat -> real)
    requires ValidPow(pow15) && WellShaped(result) && Within(result, allPartials)
    ensures WellShaped(Rescored(result, pow15)) && Within(Rescored(result, pow15), allPartials)
    ensures forall i :: 0 <= i < |result| ==>
      (LockedList(result[i]) ==> Rescored(result, pow15)[i] == result[i])
      && (OpenList(result[i]) ==> OpenList(Rescored(result, pow15)[i]))
  {
    var next := Rescored(result, pow15);
    forall i | 0 <= i < |result|
      ensures LockedList(result[i]) ==> next[i] == result[i]
      ensures OpenList(result[i]) ==> OpenList(next[i])
      ensures forall j :: 0 <= j < |next[i]| ==> next[i][j].value in allPartials[i]
    {
      RescoredListShape(result, allPartials, pow15, i);
    }
  }

  /** Collapsing onto the head of an open list locks that list, leaves
      locked lists locked, leaves every list without the chosen value as it
      was, and keeps every candidate inside its word's original list. */
  lemma CollapseProgress(result: seq<seq<Partial>>, allPartials: seq<seq<string>>, k: nat)
    requires WellShaped(result) && Within(result, allPartials)
    requires k < |result| && OpenList(result[k])
    ensures var next := Collapse(result, result[k][0]);
      && WellShaped(next) && Within(next, allPartials)
      && LockedList(next[k])
      && (forall i :: 0 <= i < |result| && LockedList(result[i]) ==> LockedList(next[i]))
      && (forall i :: 0 <= i < |result| && !HasValue(result[i], result[k][0].value) ==> next[i] == result[i])
      && OpenCount(next) < OpenCount(result)
  {
    var chosen := result[k][0];
    var next := Collapse(result, chosen);
    assert HasValue(result[k], chosen.value);
    forall i | 0 <= i < |result| ensures LockedList(next[i]) || OpenList(next[i])
      ensures forall j :: 0 <= j < |next[i]| ==> next[i][j].value in allPartials[i]
      ensures LockedList(result[i]) ==> LockedList(next[i])
    {
      if HasValue(result[i], chosen.value) {
        var j :| 0 <= j < |result[i]| && result[i][j].value == chosen.value;
        assert next[i] == [chosen.(locked := true)];
      }
    }
    OpenCountDecreases(result, next, k);
  }

  /** When some open list has a single candidate, the list chosen is the
      first such list: its savings `Infinity` beats every finite gap. */
  lemma SingleCandidateChosenFirst(result: seq<seq<Partial>>, k: nat, best: nat)
    requires HeadsScored(result)
    requires forall i :: 0 <= i < |result| ==> result[i][0].savings == HeadSavings(result[i])
    requires k < |result| && Open(result, k) && |result[k]| == 1
    requires IsBest(result, best)
    ensures |result[best]| == 1 && best <= k
  {
    assert !Greater(Infinite, result[best][0].savings);
  }

  lemma InitialShape(allPartials: seq<seq<string>>)
    requires forall i :: 0 <= i < |allPartials| ==> |allPartials[i]| > 0
    ensures WellShaped(Initial(allPartials)) && Within(Initial(allPartials), allPartials)
    ensures forall i :: 0 <= i < |allPartials| ==> OpenList(Initial(allPartials)[i])
  {
  }

  /** Writing the savings changes no value, no lock and no length. */
  lemma SavingsKeepShape(before: seq<seq<Partial>>, after: seq<seq<Partial>>, allPartials: seq<seq<string>>)
    requires WellShaped(before) && Within(before, allPartials)
    requires |after| == |before|
    requires after == WithSavings(before)
    ensures WellShaped(after) && Within(after, allPartials) && HeadsScored(after)
    ensures forall i :: 0 <= i < |before| ==> LockedList(before[i]) == LockedList(after[i])
  {
    forall i | 0 <= i < |after|
      ensures LockedList(after[i]) || OpenList(after[i])
      ensures forall j :: 0 <= j < |after[i]| ==> after[i][j].value in allPartials[i]
      ensures LockedList(before[i]) == LockedList(after[i])
    {
      assert forall j :: 0 <= j < |after[i]| ==>
        after[i][j].value == before[i][j].value && after[i][j].locked == before[i][j].locked;
    }
  }

  /** A list whose head is not locked is open; otherwise it is locked. */
  lemma NoneOpenAllLocked(result: seq<seq<Partial>>)
    requires WellShaped(result) && HeadsScored(result)
    requires forall i :: 0 <= i < |result| ==> !Open(result, i)
    ensures forall i :: 0 <= i < |result| ==> LockedList(result[i])
    ensures AllSingle(result) && OpenCount(result) == 0
  {
    forall i | 0 <= i < |result| ensures LockedList(result[i]) {
      var ps := result[i];
      assert !Open(result, i);
      assert ps[0].locked;
      assert !OpenList(ps);
    }
    OpenCountZero(result);
  }

  lemma {:induction false} OpenCountZero(result: seq<seq<Partial>>)
    requires WellShaped(result)
    requires forall i :: 0 <= i < |result| ==> LockedList(result[i])
    ensures OpenCount(result) == 0
  {
    if result != [] {
      OpenCountZero(result[..|result| - 1]);
    }
  }

  lemma {:induction false} OpenCountPositive(result: seq<seq<Partial>>, i: nat)
    requires WellShaped(result) && i < |result| && OpenList(result[i])
    ensures OpenCount(result) > 0
  {
    var n := |result| - 1;
    if i < n {
      OpenCountPositive(result[..n], i);
    }
  }

  /** One pass of the loop body of index.js:276-329: rescore, set the
      savings, pick the best open list and collapse every list sharing its
      head. Whenever some list is open, one is picked (so `bestMatch` is
      defined at index.js:325) and a further list is locked. */
  method Round(result: seq<seq<Partial>>, allPartials: seq<seq<string>>, pow15: nat -> real)
    returns (next: seq<seq<Partial>>)
    requires ValidPow(pow15) && WellShaped(result) && Within(result, allPartials)
    requires result == [] || OpenCount(result) > 0
    ensures WellShaped(next) && Within(next, allPartials)
    ensures result == [] ==> next == []
    ensures result != [] ==>
      var scored := WithSavings(Rescored(result, pow15));
      exists k: nat :: IsBest(scored, k) && next == Collapse(scored, scored[k][0])
    ensures result != [] ==> OpenCount(next) < OpenCount(result)
  {
    RescoredKeepsShape(result, allPartials, pow15);
    var rescored := RescoreAll(result, pow15);
    OpenCountMonotone(result, rescored);
    var scored := SetSavings(rescored);
    SavingsKeepShape(rescored, scored, allPartials);
    OpenCountMonotone(rescored, scored);
    var chosen := SelectBest(scored);
    if chosen.Some? {
      var k := chosen.value;
      CollapseProgress(scored, allPartials, k);
      next := Collapse(scored, scored[k][0]);
      assert IsBest(scored, k) && next == Collapse(scored, scored[k][0]);
    } else {
      next := scored;
      NoneOpenAllLocked(scored);
      forall i | 0 <= i < |result| ensures LockedList(result[i]) {
        assert LockedList(rescored[i]);
      }
      OpenCountZero(result);
    }
  }

  /** `findBestPartials`: rounds of rescoring, savings, selection and
      collapse until every list has one candidate; the value left in each
      list is one of that word's original candidates. Every list must be
      non-empty: an empty list reaches `partials[0].savings = Infinity` at
      index.js:311, which throws. */
  method FindBestPartials(allPartials: seq<seq<string>>, pow15: nat -> real) returns (best: seq<string>)
    requires ValidPow(pow15)
    requires forall i :: 0 <= i < |allPartials| ==> |allPartials[i]| > 0
    ensures |best| == |allPartials|
    ensures forall i :: 0 <= i < |allPartials| ==> best[i] in allPartials[i]
  {
    var result := Initial(allPartials);
    InitialShape(allPartials);
    var first := true;
    while first || !AllSingle(result)
      invariant WellShaped(result) && Within(result, allPartials)
      invariant first ==> forall i :: 0 <= i < |result| ==> OpenList(result[i])
      decreases (if first then 1 else 0) + OpenCount(result)
    {
      if result != [] {
        var i :| 0 <= i < |result| && (first || |result[i]| != 1);
        OpenCountPositive(result, i);
      }
      result := Round(result, allPartials, pow15);
      first := false;
    }
    best := seq(|result|, i requires 0 <= i < |result| => result[i][0].value);
  }
}
