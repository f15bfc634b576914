/** The textual rewrites applied to the pattern text after `regexgen`:
    `unescapeStartEnd` (index.js:203-205) and `optimizeRegex`
    (index.js:207-218). Each `String.prototype.replace` call is a rule; a
    rule's matcher says whether its regular expression matches at a given
    position, where that match ends and what replaces it, following the
    backtracking order of ECMAScript regular expressions. A `g` replace is a
    left-to-right scan over the whole string; a replace without `g` rewrites
    only the leftmost match. */
module Rewriter {
  import opened Wrappers

  datatype Rule =
    | UnescapeAnchor   // /\\(\^|\$)/g          -> "$1"
    | AnchorClass      // /\[([^\]]*)(\^|\$)([^\]]*)\]/g -> "(?:$2|[$1$3])"
    | NonCapturing     // /\(\?\:/g             -> "("
    | UnescapeDash     // /\\-/g                -> "-"
    | SingleClass      // /\[(.)\]/g            -> "$1"
    | AltClassAfter    // /\|\[(.)(.)\](\)|\||$)/ -> "|$1|$2$3"
    | AltClassBefore   // /(\)|\||^)\[(.)(.)\]\|/ -> "$1$2|$3|"
    | AltGroupAfter    // /\|(.)\((.)\|(.)\)(\)|\||$)/ -> "|$1$2|$1$3$4"
    | AltGroupBefore   // /(\)|\||^)(.)\((.)\|(.)\)\|/ -> "$1$2$3|$2$4|"

  /** `.` without the `s` flag: any character but a line terminator. */
  predicate Dot(c: char)
  {
    c != '\n' && c != '\r' && c != '\U{2028}' && c != '\U{2029}'
  }

  predicate IsAnchor(c: char)
  {
    c == '^' || c == '$'
  }

  /** How many characters one match of the rule removes (negative: adds). */
  function Shrink(r: Rule): int
  {
    match r
    case UnescapeAnchor => 1
    case AnchorClass => -5
    case NonCapturing => 2
    case UnescapeDash => 1
    case SingleClass => 2
    case _ => 1
  }

  // ---------------------------------------------------------------------
  // Matchers of the single rules

  /** `\` followed by a character of `cs`: the backslash is dropped. */
  function EscapedAt(s: string, i: nat, cs: set<char>): Option<(nat, string)>
  {
    if i + 1 < |s| && s[i] == '\\' && s[i + 1] in cs then Some((i + 2, [s[i + 1]])) else None
  }

  function NonCapturingAt(s: string, i: nat): Option<(nat, string)>
  {
    if i + 3 <= |s| && s[i..i + 3] == "(?:" then Some((i + 3, "(")) else None
  }

  function SingleClassAt(s: string, i: nat): Option<(nat, string)>
  {
    if i + 3 <= |s| && s[i] == '[' && Dot(s[i + 1]) && s[i + 2] == ']' then Some((i + 3, [s[i + 1]]))
    else None
  }

  /** The first `]` at or after position `k`. */
  function CloseFrom(s: string, k: nat): (r: Option<nat>)
    decreases |s| - k
    ensures r.None? ==> forall j :: k <= j < |s| ==> s[j] != ']'
    ensures r.Some? ==> (k <= r.value < |s| && s[r.value] == ']'
      && forall j :: k <= j < r.value ==> s[j] != ']')
  {
    if k >= |s| then None
    else if s[k] == ']' then Some(k)
    else CloseFrom(s, k + 1)
  }

  /** The last anchor character in `s[lo..hi]`. */
  function LastAnchor(s: string, lo: nat, hi: nat): (r: Option<nat>)
    requires hi <= |s|
    decreases hi
    ensures r.None? ==> forall a :: lo <= a < hi ==> !IsAnchor(s[a])
    ensures r.Some? ==> (lo <= r.value < hi && IsAnchor(s[r.value])
      && forall a :: r.value < a < hi ==> !IsAnchor(s[a]))
  {
    if hi <= lo then None
    else if IsAnchor(s[hi - 1]) then Some(hi - 1)
    else LastAnchor(s, lo, hi - 1)
  }

  /** `[([^\]]*)(\^|\$)([^\]]*)\]` at `i`: no group can cross a `]`, so the
      class ends at the first `]`; the greedy first group then backtracks to
      the last anchor before it. */
  function AnchorClassAt(s: string, i: nat): Option<(nat, string)>
  {
    if i < |s| && s[i] == '[' then
      match CloseFrom(s, i + 1)
      case None => None
      case Some(j) =>
        match LastAnchor(s, i + 1, j)
        case None => None
        case Some(a) => Some((j + 1, "(?:" + [s[a]] + "|[" + s[i + 1..a] + s[a + 1..j] + "])"))
    else None
  }

  /** `(\)|\||$)` after position `k`: a `)`, a `|`, or the end of the text. */
  function Tail(s: string, k: nat): Option<string>
    requires k <= |s|
  {
    if k == |s| then Some("")
    else if s[k] == ')' || s[k] == '|' then Some([s[k]])
    else None
  }

  /** `\[(.)(.)\]` at `k`. */
  predicate PairClass(s: string, k: nat)
  {
    k + 4 <= |s| && s[k] == '[' && Dot(s[k + 1]) && Dot(s[k + 2]) && s[k + 3] == ']'
  }

  /** `(.)\((.)\|(.)\)` at `k`. */
  predicate PairGroup(s: string, k: nat)
  {
    k + 6 <= |s| && Dot(s[k]) && s[k + 1] == '(' && Dot(s[k + 2]) && s[k + 3] == '|'
      && Dot(s[k + 4]) && s[k + 5] == ')'
  }

  function AltClassAfterAt(s: string, i: nat): Option<(nat, string)>
  {
    if i < |s| && s[i] == '|' && PairClass(s, i + 1) then
      match Tail(s, i + 5)
      case None => None
      case Some(t) => Some((i + 5 + |t|, "|" + [s[i + 2]] + "|" + [s[i + 3]] + t))
    else None
  }

  /** The prefix group `(\)|\||^)`: `)` is tried, then `|`, then the empty
      match at the start of the text. */
  function AltClassBeforeAt(s: string, i: nat): Option<(nat, string)>
  {
    if i < |s| && (s[i] == ')' || s[i] == '|') && PairClass(s, i + 1) && i + 5 < |s| && s[i + 5] == '|' then
      Some((i + 6, [s[i]] + [s[i + 2]] + "|" + [s[i + 3]] + "|"))
    else if i == 0 && PairClass(s, 0) && 4 < |s| && s[4] == '|' then
      Some((5, [s[1]] + "|" + [s[2]] + "|"))
    else None
  }

  function AltGroupAfterAt(s: string, i: nat): Option<(nat, string)>
  {
    if i < |s| && s[i] == '|' && PairGroup(s, i + 1) then
      match Tail(s, i + 7)
      case None => None
      case Some(t) =>
        Some((i + 7 + |t|, "|" + [s[i + 1]] + [s[i + 3]] + "|" + [s[i + 1]] + [s[i + 5]] + t))
    else None
  }

  function AltGroupBeforeAt(s: string, i: nat): Option<(nat, string)>
  {
    if i < |s| && (s[i] == ')' || s[i] == '|') && PairGroup(s, i + 1) && i + 7 < |s| && s[i + 7] == '|' then
      Some((i + 8, [s[i]] + [s[i + 1]] + [s[i + 3]] + "|" + [s[i + 1]] + [s[i + 5]] + "|"))
    else if i == 0 && PairGroup(s, 0) && 6 < |s| && s[6] == '|' then
      Some((7, [s[0]] + [s[2]] + "|" + [s[0]] + [s[4]] + "|"))
    else None
  }

  /** Whether rule `r` matches at `i`: the end of the match and its
      replacement. Every match is non-empty and changes the length by
      exactly `Shrink(r)`. */
  function MatchAt(r: Rule, s: string, i: nat): (m: Option<(nat, string)>)
    ensures m.Some? ==> i < m.value.0 <= |s| && |m.value.1| + Shrink(r) == m.value.0 - i
  {
    match r
    case UnescapeAnchor => EscapedAt(s, i, {'^', '$'})
    case AnchorClass => AnchorClassAt(s, i)
    case NonCapturing => NonCapturingAt(s, i)
    case UnescapeDash => EscapedAt(s, i, {'-'})
    case SingleClass => SingleClassAt(s, i)
    case AltClassAfter => AltClassAfterAt(s, i)
    case AltClassBefore => AltClassBeforeAt(s, i)
    case AltGroupAfter => AltGroupAfterAt(s, i)
    case AltGroupBefore => AltGroupBeforeAt(s, i)
  }

  // ---------------------------------------------------------------------
  // Global and first-occurrence replacement

  /** `s.replace(re_g, ...)` from position `i` on: at each position either
      the rule matches (emit the replacement, resume after the match) or the
      character is copied. */
  function ReplaceAllFrom(r: Rule, s: string, i: nat): string
    decreases |s| - i
  {
    if i >= |s| then []
    else match MatchAt(r, s, i)
      case Some((e, t)) => t + ReplaceAllFrom(r, s, e)
      case None => [s[i]] + ReplaceAllFrom(r, s, i + 1)
  }

  function ReplaceAll(r: Rule, s: string): string
  {
    ReplaceAllFrom(r, s, 0)
  }

  /** How many replacements the scan from `i` makes. */
  function MatchCount(r: Rule, s: string, i: nat): nat
    decreases |s| - i
  {
    if i >= |s| then 0
    else match MatchAt(r, s, i)
      case Some((e, _)) => 1 + MatchCount(r, s, e)
      case None => MatchCount(r, s, i + 1)
  }

  /** The leftmost position at or after `i` where the rule matches. */
  function FirstMatch(r: Rule, s: string, i: nat): (p: Option<nat>)
    decreases |s| - i
    ensures p.None? ==> forall k :: i <= k < |s| ==> MatchAt(r, s, k).None?
    ensures p.Some? ==> (i <= p.value < |s| && MatchAt(r, s, p.value).Some?
      && forall k :: i <= k < p.value ==> MatchAt(r, s, k).None?)
  {
    if i >= |s| then None
    else if MatchAt(r, s, i).Some? then Some(i)
    else FirstMatch(r, s, i + 1)
  }

  /** `s.replace(re, ...)` without `g`: only the leftmost match is rewritten. */
  function ReplaceFirst(r: Rule, s: string): string
  {
    match FirstMatch(r, s, 0)
    case None => s
    case Some(p) =>
      var m := MatchAt(r, s, p).value;
      s[..p] + m.1 + s[m.0..]
  }

  /** `unescapeStartEnd`: drop the backslash before escaped anchors, then
      turn each anchor inside a character class into an alternative. */
  function UnescapeStartEnd(source: string): (r: string)
    ensures |r| == |source| - MatchCount(UnescapeAnchor, source, 0)
                + 5 * MatchCount(AnchorClass, ReplaceAll(UnescapeAnchor, source), 0)
  {
    var a := ReplaceAll(UnescapeAnchor, source);
    ReplaceAllLength(UnescapeAnchor, source, 0);
    ReplaceAllLength(AnchorClass, a, 0);
    ReplaceAll(AnchorClass, a)
  }

  /** `optimizeRegex`: three global simplifications, then four
      first-occurrence alternation rewrites, in source order. */
  function OptimizeRegex(source: string): (r: string)
    ensures |r| <= |source|
  {
    var a1 := ReplaceAll(NonCapturing, source);
    var a2 := ReplaceAll(UnescapeDash, a1);
    var a := ReplaceAll(SingleClass, a2);
    var b1 := ReplaceFirst(AltClassAfter, a);
    var b2 := ReplaceFirst(AltClassBefore, b1);
    var b3 := ReplaceFirst(AltGroupAfter, b2);
    ReplaceAllNotLonger(NonCapturing, source);
    ReplaceAllNotLonger(UnescapeDash, a1);
    ReplaceAllNotLonger(SingleClass, a2);
    ReplaceFirstNotLonger(AltClassAfter, a);
    ReplaceFirstNotLonger(AltClassBefore, b1);
    ReplaceFirstNotLonger(AltGroupAfter, b2);
    ReplaceFirstNotLonger(AltGroupBefore, b3);
    ReplaceFirst(AltGroupBefore, b3)
  }

  // ---------------------------------------------------------------------
  // Properties

  /** A global scan changes the length by `Shrink(r)` per replacement. */
  lemma {:induction false} ReplaceAllLength(r: Rule, s: string, i: nat)
    requires i <= |s|
    ensures |ReplaceAllFrom(r, s, i)| == |s| - i - Shrink(r) * MatchCount(r, s, i)
    decreases |s| - i
  {
    if i < |s| {
      match MatchAt(r, s, i)
      case Some((e, t)) => ReplaceAllLength(r, s, e);
      case None => ReplaceAllLength(r, s, i + 1);
    }
  }

  /** Where the rule matches nowhere, a global scan copies the text. */
  lemma {:induction false} ReplaceAllNoMatch(r: Rule, s: string, i: nat)
    requires i <= |s|
    requires forall k :: i <= k < |s| ==> MatchAt(r, s, k).None?
    ensures ReplaceAllFrom(r, s, i) == s[i..]
    decreases |s| - i
  {
    if i < |s| {
      ReplaceAllNoMatch(r, s, i + 1);
      assert s[i..] == [s[i]] + s[i + 1..];
    }
  }

  /** A first-occurrence replace leaves the text alone when nothing
      matches; otherwise it keeps everything before the leftmost match and
      everything after it, and changes the length by exactly `Shrink(r)`. */
  lemma ReplaceFirstSpec(r: Rule, s: string)
    ensures (forall k :: 0 <= k < |s| ==> MatchAt(r, s, k).None?) ==> ReplaceFirst(r, s) == s
    ensures (exists k :: 0 <= k < |s| && MatchAt(r, s, k).Some?) ==>
      exists p, e ::
        && 0 <= p < e <= |s|
        && MatchAt(r, s, p).Some? && MatchAt(r, s, p).value.0 == e
        && (forall k :: 0 <= k < p ==> MatchAt(r, s, k).None?)
        && |ReplaceFirst(r, s)| == |s| - Shrink(r)
        && ReplaceFirst(r, s) == s[..p] + MatchAt(r, s, p).value.1 + s[e..]
  {
    var f := FirstMatch(r, s, 0);
    if f.Some? {
      var p := f.value;
      var e := MatchAt(r, s, p).value.0;
      assert ReplaceFirst(r, s) == s[..p] + MatchAt(r, s, p).value.1 + s[e..];
    }
  }

  // Escaping and unescaping

  /** The characters a backslash rule unescapes. */
  function Escaped(r: Rule): set<char>
  {
    if r == UnescapeAnchor then {'^', '$'} else {'-'}
  }

  /** Escaping as a regex generator does for the characters of `cs`: a
      backslash before each of them. */
  function Escape(w: string, cs: set<char>): (e: string)
    ensures |e| >= |w|
    ensures |w| > 0 ==> e[0] == (if w[0] in cs then '\\' else w[0])
  {
    if w == [] then []
    else (if w[0] in cs then ['\\', w[0]] else [w[0]]) + Escape(w[1..], cs)
  }

  lemma {:induction false} UnescapeAfter(r: Rule, pre: string, w: string)
    requires r == UnescapeAnchor || r == UnescapeDash
    ensures ReplaceAllFrom(r, pre + Escape(w, Escaped(r)), |pre|) == w
    decreases |w|
  {
    var cs := Escaped(r);
    var s := pre + Escape(w, cs);
    if w == [] {
      assert s == pre;
    } else {
      var chunk := if w[0] in cs then ['\\', w[0]] else [w[0]];
      assert s == (pre + chunk) + Escape(w[1..], cs);
      UnescapeAfter(r, pre + chunk, w[1..]);
      if w[0] in cs {
        assert MatchAt(r, s, |pre|) == Some((|pre| + 2, [w[0]]));
      } else {
        assert MatchAt(r, s, |pre|).None?;
      }
      assert w == [w[0]] + w[1..];
    }
  }

  /** Removing the backslashes undoes the escaping exactly, so the
      `\^`/`\$` and `\-` rules restore every word the generator escaped. */
  lemma UnescapeRoundTrip(r: Rule, w: string)
    requires r == UnescapeAnchor || r == UnescapeDash
    ensures ReplaceAll(r, Escape(w, Escaped(r))) == w
  {
    UnescapeAfter(r, [], w);
    assert [] + Escape(w, Escaped(r)) == Escape(w, Escaped(r));
  }

  // Single-character classes

  /** Every character written as a one-character class `[c]`. */
  function BracketAll(w: string): (b: string)
    ensures |b| == 3 * |w|
  {
    if w == [] then [] else ['[', w[0], ']'] + BracketAll(w[1..])
  }

  lemma {:induction false} UnbracketAfter(pre: string, w: string)
    requires forall k :: 0 <= k < |w| ==> Dot(w[k])
    ensures ReplaceAllFrom(SingleClass, pre + BracketAll(w), |pre|) == w
    decreases |w|
  {
    var s := pre + BracketAll(w);
    if w == [] {
      assert s == pre;
    } else {
      assert s == (pre + ['[', w[0], ']']) + BracketAll(w[1..]);
      UnbracketAfter(pre + ['[', w[0], ']'], w[1..]);
      assert MatchAt(SingleClass, s, |pre|) == Some((|pre| + 3, [w[0]]));
      assert w == [w[0]] + w[1..];
    }
  }

  /** `[c]` -> `c` undoes bracketing of any text without line terminators. */
  lemma UnbracketRoundTrip(w: string)
    requires forall k :: 0 <= k < |w| ==> Dot(w[k])
    ensures ReplaceAll(SingleClass, BracketAll(w)) == w
  {
    UnbracketAfter([], w);
    assert [] + BracketAll(w) == BracketAll(w);
  }

  // Non-capturing groups

  /** Every `(` written as the non-capturing opener `(?:`. */
  function MarkGroups(w: string): (m: string)
    ensures |m| >= |w|
    ensures |w| > 0 ==> m[0] == w[0]
  {
    if w == [] then []
    else (if w[0] == '(' then "(?:" else [w[0]]) + MarkGroups(w[1..])
  }

  lemma {:induction false} UnmarkAfter(pre: string, w: string)
    ensures ReplaceAllFrom(NonCapturing, pre + MarkGroups(w), |pre|) == w
    decreases |w|
  {
    var s := pre + MarkGroups(w);
    if w == [] {
      assert s == pre;
    } else {
      var chunk := if w[0] == '(' then "(?:" else [w[0]];
      assert s == (pre + chunk) + MarkGroups(w[1..]);
      UnmarkAfter(pre + chunk, w[1..]);
      if w[0] == '(' {
        assert s[|pre|..|pre| + 3] == "(?:";
        assert MatchAt(NonCapturing, s, |pre|) == Some((|pre| + 3, "("));
      } else {
        assert s[|pre|] == w[0];
        assert MatchAt(NonCapturing, s, |pre|).None?;
      }
      assert w == [w[0]] + w[1..];
    }
  }

  /** `(?:` -> `(` turns every non-capturing group back into a plain one. */
  lemma UnmarkRoundTrip(w: string)
    ensures ReplaceAll(NonCapturing, MarkGroups(w)) == w
  {
    UnmarkAfter([], w);
    assert [] + MarkGroups(w) == MarkGroups(w);
  }

  // Anchors inside a character class

  /** One way `\[([^\]]*)(\^|\$)([^\]]*)\]` can match at `i`: the class
      opens at `i`, closes at `j`, holds no other `]`, and group 2 is the
      anchor at `a`. */
  predicate ClassSplit(s: string, i: nat, a: nat, j: nat)
  {
    && i < a < j < |s|
    && s[i] == '[' && s[j] == ']' && IsAnchor(s[a])
    && forall k :: i < k < j ==> s[k] != ']'
  }

  /** The matcher agrees with the regular expression's semantics: it
      matches exactly when some split exists, and then it takes the split
      whose first group is longest (greedy with backtracking) and rewrites
      the class to `(?:anchor|[rest])`. */
  lemma AnchorClassSpec(s: string, i: nat)
    ensures AnchorClassAt(s, i).Some? <==> exists a: nat, j: nat :: ClassSplit(s, i, a, j)
    ensures AnchorClassAt(s, i).Some? ==>
      exists a: nat, j: nat ::
        && ClassSplit(s, i, a, j)
        && (forall a': nat, j': nat :: ClassSplit(s, i, a', j') ==> j' == j && a' <= a)
        && AnchorClassAt(s, i).value == (j + 1, "(?:" + [s[a]] + "|[" + s[i + 1..a] + s[a + 1..j] + "])")
  {
    if exists a: nat, j: nat :: ClassSplit(s, i, a, j) {
      var a: nat, j: nat :| ClassSplit(s, i, a, j);
      var c := CloseFrom(s, i + 1);
      assert c == Some(j);
      var la := LastAnchor(s, i + 1, j);
      assert la.Some?;
      forall a': nat, j': nat | ClassSplit(s, i, a', j') ensures j' == j && a' <= la.value {
      }
    }
    if AnchorClassAt(s, i).Some? {
      var j := CloseFrom(s, i + 1).value;
      var a := LastAnchor(s, i + 1, j).value;
      assert ClassSplit(s, i, a, j);
    }
  }

  // Whole rewrites

  lemma ReplaceAllNotLonger(r: Rule, s: string)
    requires Shrink(r) >= 0
    ensures |ReplaceAll(r, s)| <= |s|
  {
    ReplaceAllLength(r, s, 0);
  }

  lemma ReplaceFirstNotLonger(r: Rule, s: string)
    requires Shrink(r) >= 0
    ensures |ReplaceFirst(r, s)| <= |s|
  {
    ReplaceFirstSpec(r, s);
  }
}
