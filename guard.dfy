/** The input check at the top of `getRegex` (index.js:179-185). */
module Guard {
  import opened Wrappers
  import opened Strings

  datatype GuardError =
    | InBoth(word: string)       // "… is included in both the include and exclude lists"
    | AnchorChar(word: string)   // "… contains ^ or $ which is not supported"

  /** `words.find(p)`, as the index of the element found. */
  function FindFirst(words: seq<string>, p: string -> bool): (r: Option<nat>)
    ensures r.None? <==> forall k :: 0 <= k < |words| ==> !p(words[k])
    ensures r.Some? ==> r.value < |words| && p(words[r.value])
    ensures r.Some? ==> forall k :: 0 <= k < r.value ==> !p(words[k])
  {
    if |words| == 0 then None
    else if p(words[0]) then Some(0)
    else match FindFirst(words[1..], p)
      case None => None
      case Some(k) => Some(k + 1)
  }

  /** The check as written: `if (bad = find(...))` also tests the word for
      truthiness, and the empty string is falsy in JavaScript. */
  function CheckAsWritten(includeList: seq<string>, excludeList: seq<string>): (r: Option<GuardError>)
    ensures r.Some? ==> r.value.word != ""
    ensures r.Some? && r.value.InBoth? ==> r.value.word in includeList && r.value.word in excludeList
    ensures r.Some? && r.value.AnchorChar? ==> r.value.word in includeList + excludeList && HasAnchor(r.value.word)
  {
    var both := FindFirst(includeList, w => w in excludeList);
    var anchored := FindFirst(includeList + excludeList, HasAnchor);
    if both.Some? && includeList[both.value] != "" then Some(InBoth(includeList[both.value]))
    else if anchored.Some? && (includeList + excludeList)[anchored.value] != "" then
      Some(AnchorChar((includeList + excludeList)[anchored.value]))
    else None
  }

  /** The check as intended: any found word raises the error, and the
      error names a word that breaks the rule it reports. */
  function Check(includeList: seq<string>, excludeList: seq<string>): (r: Option<GuardError>)
    ensures r.Some? && r.value.InBoth? ==> r.value.word in includeList && r.value.word in excludeList
    ensures r.Some? && r.value.AnchorChar? ==> r.value.word in includeList + excludeList && HasAnchor(r.value.word)
  {
    var both := FindFirst(includeList, w => w in excludeList);
    var anchored := FindFirst(includeList + excludeList, HasAnchor);
    if both.Some? then Some(InBoth(includeList[both.value]))
    else if anchored.Some? then Some(AnchorChar((includeList + excludeList)[anchored.value]))
    else None
  }

  /** No includeList word is also an excludeList word. */
  predicate Disjoint(includeList: seq<string>, excludeList: seq<string>)
  {
    forall w :: w in includeList ==> w !in excludeList
  }

  /** The words an accepted input is made of: disjoint lists, no anchor characters. */
  predicate Accepted(includeList: seq<string>, excludeList: seq<string>)
  {
    && Disjoint(includeList, excludeList)
    && (forall w :: w in includeList + excludeList ==> !HasAnchor(w))
  }

  /** The check fails exactly on inputs that are not accepted; the overlap
      test is tried first and names the first includeList word in both lists;
      otherwise the first word (includeList words before excludeList words) holding an anchor. */
  lemma CheckSpec(includeList: seq<string>, excludeList: seq<string>)
    ensures Check(includeList, excludeList).None? <==> Accepted(includeList, excludeList)
    ensures (exists w :: w in includeList && w in excludeList) ==>
      exists k :: 0 <= k < |includeList| && Check(includeList, excludeList) == Some(InBoth(includeList[k]))
        && includeList[k] in excludeList && forall j :: 0 <= j < k ==> includeList[j] !in excludeList
    ensures Check(includeList, excludeList).Some? && Check(includeList, excludeList).value.AnchorChar? ==>
      Disjoint(includeList, excludeList) && HasAnchor(Check(includeList, excludeList).value.word)
    ensures Check(includeList, excludeList).Some? && Check(includeList, excludeList).value.AnchorChar? ==>
      exists k :: 0 <= k < |includeList + excludeList|
        && Check(includeList, excludeList).value.word == (includeList + excludeList)[k]
        && forall j :: 0 <= j < k ==> !HasAnchor((includeList + excludeList)[j])
  {
    var both := FindFirst(includeList, w => w in excludeList);
    var anchored := FindFirst(includeList + excludeList, HasAnchor);
    if both.None? {
      assert forall w :: w in includeList ==> w !in excludeList by {
        forall w | w in includeList ensures w !in excludeList {
          var k :| 0 <= k < |includeList| && includeList[k] == w;
          assert !(w in excludeList);
        }
      }
      if anchored.None? {
        forall w | w in includeList + excludeList ensures !HasAnchor(w) {
          var k :| 0 <= k < |includeList + excludeList| && (includeList + excludeList)[k] == w;
        }
      }
    }
  }

  /** The two checks differ only through the empty word. */
  lemma AsWrittenAgreesWithoutEmptyWord(includeList: seq<string>, excludeList: seq<string>)
    requires "" !in includeList
    ensures CheckAsWritten(includeList, excludeList) == Check(includeList, excludeList)
  {
    var both := FindFirst(includeList, w => w in excludeList);
    var anchored := FindFirst(includeList + excludeList, HasAnchor);
    if both.Some? {
      assert includeList[both.value] in includeList;
    } else if anchored.Some? {
      var w := (includeList + excludeList)[anchored.value];
      assert HasAnchor(w);
    }
  }

  /** The empty word in both lists passes the check as written although it
      is in both lists; the intended check rejects it. */
  lemma EmptyWordSlipsThrough()
    ensures CheckAsWritten([""], [""]) == None
    ensures !Accepted([""], [""])
    ensures Check([""], [""]) == Some(InBoth(""))
  {
    assert FindFirst([""], w => w in [""]) == Some(0);
    assert !HasAnchor("");
    assert FindFirst([""] + [""], HasAnchor) == None;
  }
}
