/** The length cap, `filterPartialsByLength` (index.js:253-262). */
module LengthCap {
  import opened Partials

  /** `partials.filter(p => p.length <= maxLength)` (index.js:261). */
  function CapList(ps: seq<string>, maxLength: nat): seq<string>
  {
    if ps == [] then []
    else (if |ps[0]| <= maxLength then [ps[0]] else []) + CapList(ps[1..], maxLength)
  }

  /** The filter keeps exactly the candidates no longer than the cap. */
  lemma {:induction false} CapListMembers(ps: seq<string>, maxLength: nat)
    ensures forall p :: p in CapList(ps, maxLength) <==> p in ps && |p| <= maxLength
  {
    if ps != [] {
      CapListMembers(ps[1..], maxLength);
      assert ps == [ps[0]] + ps[1..];
    }
  }

  lemma {:induction false} CapListAllTooLong(ps: seq<string>, maxLength: nat)
    requires forall j :: 0 <= j < |ps| ==> |ps[j]| > maxLength
    ensures CapList(ps, maxLength) == []
  {
    if ps != [] {
      CapListAllTooLong(ps[1..], maxLength);
    }
  }

  /** How many leading candidates fit under the cap. */
  function Fitting(ps: seq<string>, maxLength: nat): (n: nat)
    ensures n <= |ps|
  {
    if ps == [] || |ps[0]| > maxLength then 0 else 1 + Fitting(ps[1..], maxLength)
  }

  lemma {:induction false} FittingFits(ps: seq<string>, maxLength: nat)
    ensures forall j :: 0 <= j < Fitting(ps, maxLength) ==> |ps[j]| <= maxLength
    ensures Fitting(ps, maxLength) < |ps| ==> |ps[Fitting(ps, maxLength)]| > maxLength
  {
    if ps != [] && |ps[0]| <= maxLength {
      FittingFits(ps[1..], maxLength);
      forall j | 1 <= j < Fitting(ps, maxLength) ensures |ps[j]| <= maxLength {
        assert ps[j] == ps[1..][j - 1];
      }
    }
  }

  lemma FittingRestTooLong(ps: seq<string>, maxLength: nat)
    requires Ordered(ps)
    ensures forall j :: Fitting(ps, maxLength) <= j < |ps| ==> |ps[j]| > maxLength
  {
    var n := Fitting(ps, maxLength);
    FittingFits(ps, maxLength);
    forall j | n <= j < |ps| ensures |ps[j]| > maxLength {
      assert |ps[n]| <= |ps[j]|;
    }
  }

  lemma TailOrdered(ps: seq<string>)
    requires ps != [] && Ordered(ps)
    ensures Ordered(ps[1..])
  {
    var tail := ps[1..];
    forall a, b | 0 <= a < b < |tail| ensures |tail[a]| <= |tail[b]| {
      assert tail[a] == ps[a + 1] && tail[b] == ps[b + 1];
    }
  }

  lemma {:induction false} CapListIsFitting(ps: seq<string>, maxLength: nat)
    requires Ordered(ps)
    ensures CapList(ps, maxLength) == ps[..Fitting(ps, maxLength)]
  {
    if ps == [] {
    } else if |ps[0]| > maxLength {
      FittingRestTooLong(ps, maxLength);
      CapListAllTooLong(ps, maxLength);
    } else {
      var tail := ps[1..];
      var n := Fitting(ps, maxLength);
      TailOrdered(ps);
      CapListIsFitting(tail, maxLength);
      assert CapList(ps, maxLength) == [ps[0]] + tail[..n - 1];
      assert ps[..n] == [ps[0]] + tail[..n - 1];
    }
  }

  /** On a list ordered by length, as every candidate list is, the cap keeps
      a prefix of the list: the order is unchanged and nothing is skipped.
      Everything before the cut fits and everything after it is too long. */
  lemma CapListIsPrefix(ps: seq<string>, maxLength: nat)
    requires Ordered(ps)
    ensures CapList(ps, maxLength) == ps[..Fitting(ps, maxLength)]
    ensures forall j :: 0 <= j < Fitting(ps, maxLength) ==> |ps[j]| <= maxLength
    ensures forall j :: Fitting(ps, maxLength) <= j < |ps| ==> |ps[j]| > maxLength
  {
    FittingFits(ps, maxLength);
    FittingRestTooLong(ps, maxLength);
    CapListIsFitting(ps, maxLength);
  }

  /** `filterPartialsByLength`: the loop finds the longest of the per-word
      shortest candidates, then every list is cut to that length. Every list
      must be non-empty: `partials[0].length` fails on an empty one. */
  method FilterPartialsByLength(allPartials: seq<seq<string>>)
    returns (maxLength: nat, capped: seq<seq<string>>)
    requires forall k :: 0 <= k < |allPartials| ==> |allPartials[k]| > 0
    ensures forall k :: 0 <= k < |allPartials| ==> |allPartials[k][0]| <= maxLength
    ensures (|allPartials| == 0 && maxLength == 0)
         || exists k :: 0 <= k < |allPartials| && maxLength == |allPartials[k][0]|
    ensures |capped| == |allPartials|
    ensures forall k :: 0 <= k < |allPartials| ==> capped[k] == CapList(allPartials[k], maxLength)
    ensures forall k :: 0 <= k < |allPartials| ==> |capped[k]| > 0 && capped[k][0] == allPartials[k][0]
  {
    maxLength := 0;
    for k := 0 to |allPartials|
      invariant forall j :: 0 <= j < k ==> |allPartials[j][0]| <= maxLength
      invariant (k == 0 && maxLength == 0)
             || exists j :: 0 <= j < k && maxLength == |allPartials[j][0]|
    {
      var length := |allPartials[k][0]|;
      if length > maxLength {
        maxLength := length;
      }
    }
    capped := seq(|allPartials|, k requires 0 <= k < |allPartials| => CapList(allPartials[k], maxLength));
  }
}
