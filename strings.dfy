/** String relations used throughout the model: JavaScript's `includes`,
    `indexOf(p) === 0` and membership of a character. */
module Strings {

  /** `s` occurs somewhere inside `t` (the mathematical definition). */
  ghost predicate Occurs(s: string, t: string)
  {
    exists i :: OccursAt(s, t, i)
  }

  /** `s` sits in `t` starting at position `i`. */
  predicate OccursAt(s: string, t: string, i: int)
  {
    0 <= i <= |t| - |s| && t[i..i + |s|] == s
  }

  /** `t.includes(s)`: a left-to-right search for `s` in `t`. */
  function Includes(t: string, s: string): (b: bool)
    decreases |t|
  {
    if |s| > |t| then false
    else if t[..|s|] == s then true
    else Includes(t[1..], s)
  }

  /** The search answers exactly the question "does `s` occur in `t`". */
  lemma {:induction false} IncludesIffOccurs(t: string, s: string)
    ensures Includes(t, s) <==> Occurs(s, t)
    decreases |t|
  {
    if |s| > |t| {
    } else if t[..|s|] == s {
      assert OccursAt(s, t, 0);
    } else {
      IncludesIffOccurs(t[1..], s);
      if Includes(t[1..], s) {
        var i :| OccursAt(s, t[1..], i);
        assert t[i + 1..i + 1 + |s|] == t[1..][i..i + |s|];
        assert OccursAt(s, t, i + 1);
      }
      forall i | OccursAt(s, t, i)
        ensures OccursAt(s, t[1..], i - 1)
      {
        assert t[1..][i - 1..i - 1 + |s|] == t[i..i + |s|];
      }
    }
  }

  /** `s.indexOf(p) === 0`: `p` is a prefix of `s`. */
  predicate IsPrefix(p: string, s: string)
  {
    |p| <= |s| && s[..|p|] == p
  }

  predicate HasChar(s: string, c: char)
  {
    exists i :: 0 <= i < |s| && s[i] == c
  }

  /** The test `/\^|\$/.test(w)` of index.js:159 and 183. */
  predicate HasAnchor(w: string)
  {
    HasChar(w, '^') || HasChar(w, '$')
  }
}
