/** Candidate enumeration, `getAllPartials` (index.js:226-245). */
module Partials {
  import opened Strings
  import opened Guard

  /** A word with its start and end sentinels, `^${prop}$` (index.js:227-228). */
  function Wrap(w: string): string
  {
    "^" + w + "$"
  }

  function WrapAll(words: seq<string>): seq<string>
  {
    seq(|words|, k requires 0 <= k < |words| => Wrap(words[k]))
  }

  /** `excludeList.some(excludeWord => excludeWord.includes(substring))` (index.js:237). */
  predicate Excluded(sub: string, wrappedExclude: seq<string>)
  {
    exists e :: e in wrappedExclude && Includes(e, sub)
  }

  /** The substrings of `t` of length `size` starting at positions `0 .. n-1`
      that no exclude word contains, in position order. */
  function KeptOfSize(t: string, ex: seq<string>, size: nat, n: nat): seq<string>
    requires 1 <= size && n + size <= |t| + 1
  {
    if n == 0 then []
    else
      var sub := t[n - 1..n - 1 + size];
      KeptOfSize(t, ex, size, n - 1) + (if Excluded(sub, ex) then [] else [sub])
  }

  /** The kept substrings of `t` of every length from `size` up, shorter first. */
  function CandidatesFrom(t: string, ex: seq<string>, size: nat): seq<string>
    requires 1 <= size
    decreases |t| + 1 - size
  {
    if size > |t| then []
    else KeptOfSize(t, ex, size, |t| - size + 1) + CandidatesFrom(t, ex, size + 1)
  }

  /** The start positions of the substrings `KeptOfSize` keeps, in order. */
  function KeptAt(t: string, ex: seq<string>, size: nat, n: nat): seq<nat>
    requires 1 <= size && n + size <= |t| + 1
  {
    if n == 0 then []
    else KeptAt(t, ex, size, n - 1) + (if Excluded(t[n - 1..n - 1 + size], ex) then [] else [n - 1])
  }

  /** The start positions of the substrings `CandidatesFrom` lists, in order. */
  function PositionsFrom(t: string, ex: seq<string>, size: nat): seq<nat>
    requires 1 <= size
    decreases |t| + 1 - size
  {
    if size > |t| then []
    else KeptAt(t, ex, size, |t| - size + 1) + PositionsFrom(t, ex, size + 1)
  }

  /** The candidate list of one include word. */
  function Candidates(w: string, wrappedExclude: seq<string>): seq<string>
  {
    CandidatesFrom(Wrap(w), wrappedExclude, 1)
  }

  /** What `getAllPartials` returns: one candidate list per include word. */
  function AllPartials(includeList: seq<string>, excludeList: seq<string>): seq<seq<string>>
  {
    var ex := WrapAll(excludeList);
    seq(|includeList|, k requires 0 <= k < |includeList| => Candidates(includeList[k], ex))
  }

  /** The `pos` loop of index.js:235-240 for one size: the substrings of
      that size, left to right, that no exclude word contains. */
  method KeepOfSize(word: string, exc: seq<string>, size: nat) returns (kept: seq<string>)
    requires 1 <= size <= |word|
    ensures kept == KeptOfSize(word, exc, size, |word| - size + 1)
  {
    kept := [];
    var pos := 0;
    while pos <= |word| - size
      invariant 0 <= pos <= |word| - size + 1
      invariant kept == KeptOfSize(word, exc, size, pos)
    {
      var sub := word[pos..size + pos];
      if !Excluded(sub, exc) {
        kept := kept + [sub];
      }
      pos := pos + 1;
    }
  }

  /** The `size` loop of index.js:234-241 for one wrapped word. */
  method WordPartials(word: string, exc: seq<string>) returns (wordPartials: seq<string>)
    ensures wordPartials == CandidatesFrom(word, exc, 1)
  {
    wordPartials := [];
    var size := 1;
    while size <= |word|
      invariant 1 <= size <= |word| + 1
      invariant wordPartials + CandidatesFrom(word, exc, size) == CandidatesFrom(word, exc, 1)
    {
      var kept := KeepOfSize(word, exc, size);
      assert CandidatesFrom(word, exc, size) == kept + CandidatesFrom(word, exc, size + 1);
      wordPartials := wordPartials + kept;
      size := size + 1;
    }
  }

  /** `getAllPartials`: the nested loops over words, sizes and positions. */
  method GetAllPartials(includeList: seq<string>, excludeList: seq<string>)
    returns (includePartials: seq<seq<string>>)
    ensures includePartials == AllPartials(includeList, excludeList)
  {
    var inc := WrapAll(includeList);
    var exc := WrapAll(excludeList);
    includePartials := [];
    for k := 0 to |inc|
      invariant includePartials == AllPartials(includeList, excludeList)[..k]
    {
      var wordPartials := WordPartials(inc[k], exc);
      assert wordPartials == Candidates(includeList[k], exc);
      includePartials := includePartials + [wordPartials];
    }
    assert includePartials == AllPartials(includeList, excludeList)[..|inc|];
  }

  /** Element `j` of `ps` is the substring of `t` starting at `at[j]`. */
  predicate Located(ps: seq<string>, at: seq<nat>, t: string)
  {
    |at| == |ps| && forall j :: 0 <= j < |ps| ==> OccursAt(ps[j], t, at[j])
  }

  /** The pairs (length, position) strictly increase along the list: shorter
      first, then left to right, and no occurrence twice. */
  predicate LexIncreasing(ps: seq<string>, at: seq<nat>)
    requires |at| == |ps|
  {
    forall a, b :: 0 <= a < b < |ps| ==> |ps[a]| < |ps[b]| || (|ps[a]| == |ps[b]| && at[a] < at[b])
  }

  /** Every element occurs in `t` and in no exclude word. */
  ghost predicate AllSound(ps: seq<string>, t: string, ex: seq<string>)
  {
    forall c :: c in ps ==> Occurs(c, t) && !Excluded(c, ex)
  }

  predicate LengthsExactly(ps: seq<string>, n: nat)
  {
    forall j :: 0 <= j < |ps| ==> |ps[j]| == n
  }

  predicate LengthsAtLeast(ps: seq<string>, n: nat)
  {
    forall j :: 0 <= j < |ps| ==> n <= |ps[j]|
  }

  /** Lengths never decrease along the list. */
  predicate Ordered(ps: seq<string>)
  {
    forall a, b :: 0 <= a < b < |ps| ==> |ps[a]| <= |ps[b]|
  }

  lemma SoundConcat(a: seq<string>, b: seq<string>, t: string, ex: seq<string>)
    requires AllSound(a, t, ex) && AllSound(b, t, ex)
    ensures AllSound(a + b, t, ex)
  {
    forall c | c in a + b ensures Occurs(c, t) && !Excluded(c, ex) {
      if c in a {
        assert Occurs(c, t) && !Excluded(c, ex);
      } else {
        assert c in b;
      }
    }
  }

  /** Substrings of one size followed by strictly longer ones, already ordered. */
  lemma OrderedConcat(a: seq<string>, b: seq<string>, n: nat)
    requires LengthsExactly(a, n) && LengthsAtLeast(b, n + 1) && Ordered(b)
    ensures Ordered(a + b) && LengthsAtLeast(a + b, n)
  {
    var all := a + b;
    forall x, y | 0 <= x < y < |all| ensures |all[x]| <= |all[y]| {
      if y < |a| {
        assert |all[x]| == n && |all[y]| == n;
      } else if x < |a| {
        assert |all[x]| == n && all[y] == b[y - |a|];
      } else {
        assert all[x] == b[x - |a|] && all[y] == b[y - |a|];
      }
    }
    forall j | 0 <= j < |all| ensures n <= |all[j]| {
      if j >= |a| {
        assert all[j] == b[j - |a|];
      }
    }
  }

  /** Every kept substring of one size occurs in `t` and is in no exclude word. */
  lemma {:induction false} KeptOfSizeSound(t: string, ex: seq<string>, size: nat, n: nat)
    requires 1 <= size && n + size <= |t| + 1
    ensures AllSound(KeptOfSize(t, ex, size, n), t, ex)
  {
    if n > 0 {
      KeptOfSizeSound(t, ex, size, n - 1);
      var sub := t[n - 1..n - 1 + size];
      assert OccursAt(sub, t, n - 1);
      var last := if Excluded(sub, ex) then [] else [sub];
      assert AllSound(last, t, ex);
      SoundConcat(KeptOfSize(t, ex, size, n - 1), last, t, ex);
    }
  }

  /** Every position below `n` whose substring is in no exclude word is kept. */
  lemma {:induction false} KeptOfSizeComplete(t: string, ex: seq<string>, size: nat, n: nat, pos: nat)
    requires 1 <= size && n + size <= |t| + 1
    requires pos < n && !Excluded(t[pos..pos + size], ex)
    ensures t[pos..pos + size] in KeptOfSize(t, ex, size, n)
  {
    if pos < n - 1 {
      KeptOfSizeComplete(t, ex, size, n - 1, pos);
    }
  }

  lemma {:induction false} KeptOfSizeLength(t: string, ex: seq<string>, size: nat, n: nat)
    requires 1 <= size && n + size <= |t| + 1
    ensures LengthsExactly(KeptOfSize(t, ex, size, n), size)
  {
    if n > 0 {
      KeptOfSizeLength(t, ex, size, n - 1);
    }
  }

  lemma {:induction false} CandidatesFromSound(t: string, ex: seq<string>, size: nat)
    requires 1 <= size
    ensures AllSound(CandidatesFrom(t, ex, size), t, ex)
    decreases |t| + 1 - size
  {
    if size <= |t| {
      KeptOfSizeSound(t, ex, size, |t| - size + 1);
      CandidatesFromSound(t, ex, size + 1);
      SoundConcat(KeptOfSize(t, ex, size, |t| - size + 1), CandidatesFrom(t, ex, size + 1), t, ex);
    }
  }

  lemma {:induction false} CandidatesFromComplete(t: string, ex: seq<string>, size: nat, pos: nat, len: nat)
    requires 1 <= size <= len && pos + len <= |t|
    requires !Excluded(t[pos..pos + len], ex)
    ensures t[pos..pos + len] in CandidatesFrom(t, ex, size)
    decreases |t| + 1 - size
  {
    if size == len {
      KeptOfSizeComplete(t, ex, size, |t| - size + 1, pos);
    } else {
      CandidatesFromComplete(t, ex, size + 1, pos, len);
    }
  }

  lemma {:induction false} CandidatesFromOrdered(t: string, ex: seq<string>, size: nat)
    requires 1 <= size
    ensures Ordered(CandidatesFrom(t, ex, size)) && LengthsAtLeast(CandidatesFrom(t, ex, size), size)
    decreases |t| + 1 - size
  {
    if size <= |t| {
      KeptOfSizeLength(t, ex, size, |t| - size + 1);
      CandidatesFromOrdered(t, ex, size + 1);
      OrderedConcat(KeptOfSize(t, ex, size, |t| - size + 1), CandidatesFrom(t, ex, size + 1), size);
    }
  }

  /** The kept substrings of one size sit at their recorded positions, which
      increase strictly and stay below `n`. */
  lemma {:induction false} KeptAtSpec(t: string, ex: seq<string>, size: nat, n: nat)
    requires 1 <= size && n + size <= |t| + 1
    ensures Located(KeptOfSize(t, ex, size, n), KeptAt(t, ex, size, n), t)
    ensures forall j :: 0 <= j < |KeptAt(t, ex, size, n)| ==> KeptAt(t, ex, size, n)[j] < n
    ensures forall a, b :: 0 <= a < b < |KeptAt(t, ex, size, n)| ==>
      KeptAt(t, ex, size, n)[a] < KeptAt(t, ex, size, n)[b]
  {
    if n > 0 {
      KeptAtSpec(t, ex, size, n - 1);
      var sub := t[n - 1..n - 1 + size];
      if !Excluded(sub, ex) {
        var ps := KeptOfSize(t, ex, size, n);
        var at := KeptAt(t, ex, size, n);
        assert ps == KeptOfSize(t, ex, size, n - 1) + [sub];
        assert at == KeptAt(t, ex, size, n - 1) + [n - 1];
        assert OccursAt(ps[|ps| - 1], t, at[|at| - 1]);
      }
    }
  }

  /** Every position below `n` whose substring is in no exclude word is
      recorded. */
  lemma {:induction false} KeptAtComplete(t: string, ex: seq<string>, size: nat, n: nat, pos: nat)
    requires 1 <= size && n + size <= |t| + 1
    requires pos < n && !Excluded(t[pos..pos + size], ex)
    ensures pos in KeptAt(t, ex, size, n)
  {
    if pos < n - 1 {
      KeptAtComplete(t, ex, size, n - 1, pos);
    }
  }

  /** Substrings of one size, left to right, followed by strictly longer ones
      already in (length, position) order, are in (length, position) order. */
  lemma LexConcat(a: seq<string>, atA: seq<nat>, b: seq<string>, atB: seq<nat>, n: nat)
    requires |atA| == |a| && |atB| == |b|
    requires LengthsExactly(a, n) && forall x, y :: 0 <= x < y < |atA| ==> atA[x] < atA[y]
    requires LengthsAtLeast(b, n + 1) && LexIncreasing(b, atB)
    ensures LexIncreasing(a + b, atA + atB)
  {
    var all, at := a + b, atA + atB;
    forall x, y | 0 <= x < y < |all| ensures |all[x]| < |all[y]| || (|all[x]| == |all[y]| && at[x] < at[y]) {
      if y < |a| {
        assert all[x] == a[x] && all[y] == a[y] && at[x] == atA[x] && at[y] == atA[y];
      } else if x < |a| {
        assert |all[x]| == n && all[y] == b[y - |a|];
      } else {
        assert all[x] == b[x - |a|] && all[y] == b[y - |a|];
        assert at[x] == atB[x - |a|] && at[y] == atB[y - |a|];
      }
    }
  }

  lemma LocatedConcat(a: seq<string>, atA: seq<nat>, b: seq<string>, atB: seq<nat>, t: string)
    requires Located(a, atA, t) && Located(b, atB, t)
    ensures Located(a + b, atA + atB, t)
  {
    var all, at := a + b, atA + atB;
    forall j | 0 <= j < |all| ensures OccursAt(all[j], t, at[j]) {
      if j < |a| {
        assert all[j] == a[j] && at[j] == atA[j];
      } else {
        assert all[j] == b[j - |a|] && at[j] == atB[j - |a|];
      }
    }
  }

  /** The candidates from `size` up sit at their recorded positions, in
      strictly increasing (length, position) order. */
  lemma {:induction false} PositionsFromSpec(t: string, ex: seq<string>, size: nat)
    requires 1 <= size
    ensures Located(CandidatesFrom(t, ex, size), PositionsFrom(t, ex, size), t)
    ensures LexIncreasing(CandidatesFrom(t, ex, size), PositionsFrom(t, ex, size))
    decreases |t| + 1 - size
  {
    if size <= |t| {
      var n := |t| - size + 1;
      KeptAtSpec(t, ex, size, n);
      KeptOfSizeLength(t, ex, size, n);
      PositionsFromSpec(t, ex, size + 1);
      CandidatesFromOrdered(t, ex, size + 1);
      LocatedConcat(KeptOfSize(t, ex, size, n), KeptAt(t, ex, size, n),
                    CandidatesFrom(t, ex, size + 1), PositionsFrom(t, ex, size + 1), t);
      LexConcat(KeptOfSize(t, ex, size, n), KeptAt(t, ex, size, n),
                CandidatesFrom(t, ex, size + 1), PositionsFrom(t, ex, size + 1), size);
    }
  }

  lemma {:induction false} KeptAtLength(t: string, ex: seq<string>, size: nat, n: nat)
    requires 1 <= size && n + size <= |t| + 1
    ensures |KeptAt(t, ex, size, n)| == |KeptOfSize(t, ex, size, n)|
  {
    if n > 0 {
      KeptAtLength(t, ex, size, n - 1);
    }
  }

  /** A qualifying position of one size is entry `j` of that size's list. */
  lemma KeptIndex(t: string, ex: seq<string>, size: nat, n: nat, pos: nat) returns (j: nat)
    requires 1 <= size && n + size <= |t| + 1
    requires pos < n && !Excluded(t[pos..pos + size], ex)
    ensures j < |KeptOfSize(t, ex, size, n)| && j < |KeptAt(t, ex, size, n)|
    ensures KeptAt(t, ex, size, n)[j] == pos && |KeptOfSize(t, ex, size, n)[j]| == size
  {
    KeptAtSpec(t, ex, size, n);
    KeptOfSizeLength(t, ex, size, n);
    KeptAtComplete(t, ex, size, n, pos);
    j :| 0 <= j < |KeptAt(t, ex, size, n)| && KeptAt(t, ex, size, n)[j] == pos;
  }

  /** One step of the size loop: this size's list, then the longer ones. */
  lemma FromSplit(t: string, ex: seq<string>, size: nat)
    requires 1 <= size <= |t|
    ensures CandidatesFrom(t, ex, size) == KeptOfSize(t, ex, size, |t| - size + 1) + CandidatesFrom(t, ex, size + 1)
    ensures PositionsFrom(t, ex, size) == KeptAt(t, ex, size, |t| - size + 1) + PositionsFrom(t, ex, size + 1)
    ensures |KeptAt(t, ex, size, |t| - size + 1)| == |KeptOfSize(t, ex, size, |t| - size + 1)|
  {
    KeptAtLength(t, ex, size, |t| - size + 1);
  }

  /** Entry `r` of the longer candidates is entry `j` of the list from `size`. */
  lemma FromShift(t: string, ex: seq<string>, size: nat, r: nat) returns (j: nat)
    requires 1 <= size
    requires r < |CandidatesFrom(t, ex, size + 1)| && r < |PositionsFrom(t, ex, size + 1)|
    ensures j < |CandidatesFrom(t, ex, size)| && j < |PositionsFrom(t, ex, size)|
    ensures PositionsFrom(t, ex, size)[j] == PositionsFrom(t, ex, size + 1)[r]
    ensures CandidatesFrom(t, ex, size)[j] == CandidatesFrom(t, ex, size + 1)[r]
  {
    var n := |t| - size + 1;
    FromSplit(t, ex, size);
    var kept, keptAt := KeptOfSize(t, ex, size, n), KeptAt(t, ex, size, n);
    var rest, restAt := CandidatesFrom(t, ex, size + 1), PositionsFrom(t, ex, size + 1);
    j := |kept| + r;
    assert (kept + rest)[j] == rest[r] && (keptAt + restAt)[j] == restAt[r];
  }

  /** A qualifying occurrence of length `size` is in this size's part of the list. */
  lemma CompleteAtSize(t: string, ex: seq<string>, size: nat, pos: nat) returns (j: nat)
    requires 1 <= size && pos + size <= |t|
    requires !Excluded(t[pos..pos + size], ex)
    ensures j < |CandidatesFrom(t, ex, size)| && j < |PositionsFrom(t, ex, size)|
    ensures PositionsFrom(t, ex, size)[j] == pos && |CandidatesFrom(t, ex, size)[j]| == size
  {
    var n := |t| - size + 1;
    FromSplit(t, ex, size);
    var kept, keptAt := KeptOfSize(t, ex, size, n), KeptAt(t, ex, size, n);
    var rest, restAt := CandidatesFrom(t, ex, size + 1), PositionsFrom(t, ex, size + 1);
    j := KeptIndex(t, ex, size, n, pos);
    assert (kept + rest)[j] == kept[j] && (keptAt + restAt)[j] == keptAt[j];
  }

  /** Every qualifying occurrence of length at least `size` is recorded, as
      the pair (position, length) of entry `j`. */
  lemma {:induction false} PositionsFromComplete(t: string, ex: seq<string>, size: nat, pos: nat, len: nat)
    returns (j: nat)
    requires 1 <= size <= len && pos + len <= |t|
    requires !Excluded(t[pos..pos + len], ex)
    ensures j < |CandidatesFrom(t, ex, size)| && j < |PositionsFrom(t, ex, size)|
    ensures PositionsFrom(t, ex, size)[j] == pos && |CandidatesFrom(t, ex, size)[j]| == len
    decreases |t| + 1 - size
  {
    if size == len {
      j := CompleteAtSize(t, ex, size, pos);
    } else {
      var r := PositionsFromComplete(t, ex, size + 1, pos, len);
      j := FromShift(t, ex, size, r);
    }
  }

  /** Soundness: every candidate of include word `k` is a substring of its
      wrapped form and of no wrapped exclude word. */
  lemma CandidateSound(includeList: seq<string>, excludeList: seq<string>, k: nat, c: string)
    requires k < |includeList| && c in AllPartials(includeList, excludeList)[k]
    ensures 1 <= |c| && Occurs(c, Wrap(includeList[k]))
    ensures forall e :: e in excludeList ==> !Occurs(c, Wrap(e))
  {
    var ex := WrapAll(excludeList);
    var ps := CandidatesFrom(Wrap(includeList[k]), ex, 1);
    CandidatesFromSound(Wrap(includeList[k]), ex, 1);
    CandidatesFromOrdered(Wrap(includeList[k]), ex, 1);
    var at :| 0 <= at < |ps| && ps[at] == c;
    forall e | e in excludeList ensures !Occurs(c, Wrap(e)) {
      var j :| 0 <= j < |excludeList| && excludeList[j] == e;
      assert ex[j] in ex;
      IncludesIffOccurs(Wrap(e), c);
    }
  }

  /** Completeness: every substring occurrence of a wrapped include word that
      no wrapped exclude word contains is a candidate of that word. */
  lemma CandidateComplete(includeList: seq<string>, excludeList: seq<string>, k: nat, pos: nat, len: nat)
    requires k < |includeList| && 1 <= len && pos + len <= |Wrap(includeList[k])|
    requires forall e :: e in excludeList ==> !Occurs(Wrap(includeList[k])[pos..pos + len], Wrap(e))
    ensures Wrap(includeList[k])[pos..pos + len] in AllPartials(includeList, excludeList)[k]
  {
    var ex := WrapAll(excludeList);
    var sub := Wrap(includeList[k])[pos..pos + len];
    assert !Excluded(sub, ex) by {
      forall e | e in ex ensures !Includes(e, sub) {
        var j :| 0 <= j < |ex| && ex[j] == e;
        assert excludeList[j] in excludeList;
        IncludesIffOccurs(e, sub);
      }
    }
    CandidatesFromComplete(Wrap(includeList[k]), ex, 1, pos, len);
  }

  /** The start position of every candidate of include word `k`, in list
      order. */
  function CandidatePositions(includeList: seq<string>, excludeList: seq<string>, k: nat): seq<nat>
    requires k < |includeList|
  {
    PositionsFrom(Wrap(includeList[k]), WrapAll(excludeList), 1)
  }

  /** Enumeration order: candidate `j` of word `k` is the substring of `^w$`
      starting at `CandidatePositions(...)[j]`, and the pairs (length,
      position) strictly increase along the list. So the list is ordered by
      length and then position, and holds each occurrence at most once,
      though the same text at two positions appears twice. */
  lemma CandidatesEnumerated(includeList: seq<string>, excludeList: seq<string>, k: nat)
    requires k < |includeList|
    ensures var ps := AllPartials(includeList, excludeList)[k];
      var at := CandidatePositions(includeList, excludeList, k);
      && |at| == |ps|
      && (forall j :: 0 <= j < |ps| ==> OccursAt(ps[j], Wrap(includeList[k]), at[j]))
      && (forall a, b :: 0 <= a < b < |ps| ==> |ps[a]| < |ps[b]| || (|ps[a]| == |ps[b]| && at[a] < at[b]))
  {
    PositionsFromSpec(Wrap(includeList[k]), WrapAll(excludeList), 1);
  }

  /** Every qualifying occurrence (position `pos`, length `len`) of `^w$` is
      an entry of word `k`'s list: its recorded position is `pos` and its
      length is `len`. */
  lemma CandidateOccurrenceListed(includeList: seq<string>, excludeList: seq<string>, k: nat, pos: nat, len: nat)
    requires k < |includeList| && 1 <= len && pos + len <= |Wrap(includeList[k])|
    requires forall e :: e in excludeList ==> !Occurs(Wrap(includeList[k])[pos..pos + len], Wrap(e))
    ensures var ps := AllPartials(includeList, excludeList)[k];
      var at := CandidatePositions(includeList, excludeList, k);
      exists j :: 0 <= j < |ps| && j < |at| && at[j] == pos && |ps[j]| == len
  {
    var ex := WrapAll(excludeList);
    var t := Wrap(includeList[k]);
    var sub := t[pos..pos + len];
    assert !Excluded(sub, ex) by {
      forall e | e in ex ensures !Includes(e, sub) {
        var j :| 0 <= j < |ex| && ex[j] == e;
        assert excludeList[j] in excludeList;
        IncludesIffOccurs(e, sub);
      }
    }
    var j := PositionsFromComplete(t, ex, 1, pos, len);
    assert CandidatePositions(includeList, excludeList, k)[j] == pos;
  }

  /** Ordering: within each list, candidate lengths never decrease. */
  lemma CandidatesOrdered(includeList: seq<string>, excludeList: seq<string>, k: nat)
    requires k < |includeList|
    ensures var ps := AllPartials(includeList, excludeList)[k];
      forall a, b :: 0 <= a < b < |ps| ==> |ps[a]| <= |ps[b]|
  {
    CandidatesFromOrdered(Wrap(includeList[k]), WrapAll(excludeList), 1);
  }

  /** A wrapped word sits inside another wrapped word only when the two words
      are equal, provided neither holds an anchor character. */
  lemma WrappedInsideWrapped(w: string, e: string)
    requires !HasAnchor(w) && !HasAnchor(e) && Occurs(Wrap(w), Wrap(e))
    ensures w == e
  {
    var i :| OccursAt(Wrap(w), Wrap(e), i);
    var we := Wrap(e);
    assert we[i] == '^';
    assert i == 0;
    assert we[|w| + 1] == '$';
    assert |w| == |e|;
    assert w == Wrap(w)[1..|w| + 1] == we[1..|e| + 1] == e;
  }

  /** When the input is accepted, the whole wrapped word is one of its own
      candidates, so no candidate list is empty and `partials[0]` at
      index.js:256 always exists. */
  lemma CandidatesNonEmpty(includeList: seq<string>, excludeList: seq<string>, k: nat)
    requires k < |includeList| && Accepted(includeList, excludeList)
    ensures Wrap(includeList[k]) in AllPartials(includeList, excludeList)[k]
    ensures |AllPartials(includeList, excludeList)[k]| > 0
  {
    var w := includeList[k];
    assert w in includeList + excludeList;
    forall e | e in excludeList ensures !Occurs(Wrap(w)[0..|Wrap(w)|], Wrap(e)) {
      assert e in includeList + excludeList;
      assert Wrap(w)[0..|Wrap(w)|] == Wrap(w);
      if Occurs(Wrap(w), Wrap(e)) {
        WrappedInsideWrapped(w, e);
      }
    }
    CandidateComplete(includeList, excludeList, k, 0, |Wrap(w)|);
    assert Wrap(w)[0..|Wrap(w)|] == Wrap(w);
  }
}
