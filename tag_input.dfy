/** assets/main.js: the TagInput widget of the ask form (a bounded,
    duplicate-free list of selected tags with autocomplete) and the client
    copy of timeAgo. JavaScript strings are sequences of UTF-16 code units,
    modelled as `string`. */
module TagInput {
  import opened Common
  import Functions

  // ------------------------------------------------------ string helpers

  /** The code units String.prototype.trim removes: WhiteSpace and
      LineTerminator of ECMAScript. */
  predicate JsSpace(c: char) {
    || c == '\t' || c == '\n' || c == '\U{000B}' || c == '\U{000C}' || c == '\r' || c == ' '
    || c == '\U{00A0}' || c == '\U{1680}' || ('\U{2000}' <= c <= '\U{200A}')
    || c == '\U{2028}' || c == '\U{2029}' || c == '\U{202F}' || c == '\U{205F}'
    || c == '\U{3000}' || c == '\U{FEFF}'
  }

  function SkipJsSpaces(s: string, i: nat): (j: nat)
    requires i <= |s|
    ensures i <= j <= |s|
    ensures j < |s| ==> !JsSpace(s[j])
    decreases |s| - i
  {
    if i < |s| && JsSpace(s[i]) then SkipJsSpaces(s, i + 1) else i
  }

  function DropJsSpaces(s: string, lo: nat, j: nat): (e: nat)
    requires lo <= j <= |s|
    ensures lo <= e <= j
    ensures lo < e ==> !JsSpace(s[e - 1])
    decreases j - lo
  {
    if lo < j && JsSpace(s[j - 1]) then DropJsSpaces(s, lo, j - 1) else j
  }

  /** String.prototype.trim */
  function JsTrim(s: string): (r: string)
    ensures |r| <= |s|
    ensures r != [] ==> !JsSpace(r[0]) && !JsSpace(r[|r| - 1])
  {
    var start := SkipJsSpaces(s, 0);
    s[start..DropJsSpaces(s, start, |s|)]
  }

  /** trim leaves a string alone exactly when neither edge is white space. */
  lemma JsTrimUnchanged(s: string)
    ensures JsTrim(s) == s <==> s == [] || (!JsSpace(s[0]) && !JsSpace(s[|s| - 1]))
  {
    if s != [] && !JsSpace(s[0]) && !JsSpace(s[|s| - 1]) {
      assert SkipJsSpaces(s, 0) == 0;
      assert DropJsSpaces(s, 0, |s|) == |s|;
    }
  }

  lemma {:induction false} SkipJsSpacesSkipsSpaces(s: string, i: nat)
    requires i <= |s|
    ensures forall k :: i <= k < SkipJsSpaces(s, i) ==> JsSpace(s[k])
    decreases |s| - i
  {
    if i < |s| && JsSpace(s[i]) {
      SkipJsSpacesSkipsSpaces(s, i + 1);
    }
  }

  lemma {:induction false} DropJsSpacesDropsSpaces(s: string, lo: nat, j: nat)
    requires lo <= j <= |s|
    ensures forall k :: DropJsSpaces(s, lo, j) <= k < j ==> JsSpace(s[k])
    decreases j - lo
  {
    if lo < j && JsSpace(s[j - 1]) {
      DropJsSpacesDropsSpaces(s, lo, j - 1);
    }
  }

  /** trim removes white space only, and only from the two ends. */
  lemma JsTrimRemovesOnlySpaces(s: string)
    ensures var start := SkipJsSpaces(s, 0);
            var end := DropJsSpaces(s, start, |s|);
            && JsTrim(s) == s[start..end]
            && (forall k :: 0 <= k < start ==> JsSpace(s[k]))
            && (forall k :: end <= k < |s| ==> JsSpace(s[k]))
  {
    SkipJsSpacesSkipsSpaces(s, 0);
    DropJsSpacesDropsSpaces(s, SkipJsSpaces(s, 0), |s|);
  }

  /** toLowerCase on the ASCII letters. */
  function LowerChar(c: char): char {
    if 'A' <= c <= 'Z' then (c as int + 32) as char else c
  }

  function Lower(s: string): (r: string)
    ensures |r| == |s|
    ensures forall i :: 0 <= i < |s| ==> r[i] == LowerChar(s[i])
  {
    seq(|s|, i requires 0 <= i < |s| => LowerChar(s[i]))
  }

  /** Lower-casing neither creates nor removes white space, so the lower-cased
      trimmed input is still trimmed. */
  lemma LowerKeepsTrimmed(s: string)
    ensures JsTrim(Lower(JsTrim(s))) == Lower(JsTrim(s))
  {
    JsTrimUnchanged(Lower(JsTrim(s)));
  }

  // ---------------------------------------------------------- selection

  const MaxSelected := 5

  /** addTag on the list `sel`. */
  function AfterAdd(sel: seq<string>, tag: string): (r: seq<string>)
    ensures r == sel || r == sel + [JsTrim(tag)]
    ensures r != sel <==> JsTrim(tag) != "" && JsTrim(tag) !in sel && |sel| < MaxSelected
  {
    var t := JsTrim(tag);
    if t != "" && t !in sel && |sel| < MaxSelected then sel + [t] else sel
  }

  /** removeTag on the list `sel`: selectedTags.filter(t => t !== tag). */
  function AfterRemove(sel: seq<string>, tag: string): (r: seq<string>)
    ensures |r| <= |sel|
    ensures tag !in r
    ensures forall x :: x in r <==> x in sel && x != tag
    ensures forall x :: x != tag ==> multiset(r)[x] == multiset(sel)[x]
  {
    if sel == [] then []
    else
      assert sel == [sel[0]] + sel[1..];
      (if sel[0] == tag then [] else [sel[0]]) + AfterRemove(sel[1..], tag)
  }

  /** Removing a tag that occurs once, at i, closes the gap and keeps the
      order of the others. */
  lemma {:induction false} RemoveKeepsOrder(sel: seq<string>, i: int)
    requires 0 <= i < |sel|
    requires forall j :: 0 <= j < |sel| && j != i ==> sel[j] != sel[i]
    ensures AfterRemove(sel, sel[i]) == sel[..i] + sel[i + 1..]
  {
    if i == 0 {
      assert sel[1..] == sel[..0] + sel[1..];
      NotInRemoveIsIdentity(sel[1..], sel[0]);
    } else {
      var rest := sel[1..];
      RemoveKeepsOrder(rest, i - 1);
      assert rest[i - 1] == sel[i];
      assert rest[..i - 1] + rest[i..] == sel[1..i] + sel[i + 1..];
      assert sel[..i] == [sel[0]] + sel[1..i];
    }
  }

  /** Removing a tag that is not selected changes nothing. */
  lemma {:induction false} NotInRemoveIsIdentity(sel: seq<string>, tag: string)
    requires tag !in sel
    ensures AfterRemove(sel, tag) == sel
  {
    if sel != [] {
      NotInRemoveIsIdentity(sel[1..], tag);
      assert sel == [sel[0]] + sel[1..];
    }
  }

  /** What add and remove keep: trimmed non-empty entries, no duplicates, at most five. */
  ghost predicate WellFormed(sel: seq<string>) {
    && |sel| <= MaxSelected
    && Distinct(sel)
    && (forall i :: 0 <= i < |sel| ==> sel[i] != "" && JsTrim(sel[i]) == sel[i])
  }

  lemma AddKeepsWellFormed(sel: seq<string>, tag: string)
    requires WellFormed(sel)
    ensures WellFormed(AfterAdd(sel, tag))
  {
    var t := JsTrim(tag);
    if t != "" {
      JsTrimUnchanged(t);
    }
  }

  ghost predicate Distinct(s: seq<string>) {
    forall i, j :: 0 <= i < j < |s| ==> s[i] != s[j]
  }

  /** filter keeps a duplicate-free list duplicate-free. */
  lemma {:induction false} RemoveKeepsDistinct(sel: seq<string>, tag: string)
    requires Distinct(sel)
    ensures Distinct(AfterRemove(sel, tag))
  {
    if sel != [] {
      var rest := AfterRemove(sel[1..], tag);
      RemoveKeepsDistinct(sel[1..], tag);
      assert sel[0] !in sel[1..];
      assert sel[0] !in rest;
      var r := AfterRemove(sel, tag);
      if sel[0] != tag {
        assert r == [sel[0]] + rest;
        forall i, j | 0 <= i < j < |r| ensures r[i] != r[j] {
          if i == 0 {
            assert r[j] == rest[j - 1] && rest[j - 1] in rest;
          } else {
            assert r[i] == rest[i - 1] && r[j] == rest[j - 1];
            assert rest[i - 1] != rest[j - 1];
          }
        }
      } else {
        assert r == rest;
      }
    }
  }

  lemma RemoveKeepsWellFormed(sel: seq<string>, tag: string)
    requires WellFormed(sel)
    ensures WellFormed(AfterRemove(sel, tag))
  {
    var r := AfterRemove(sel, tag);
    RemoveKeepsDistinct(sel, tag);
    forall i | 0 <= i < |r| ensures r[i] != "" && JsTrim(r[i]) == r[i] {
      assert r[i] in sel;
    }
  }

  /** The user's edits of the widget. */
  datatype TagOp = Add(tag: string) | Remove(tag: string)

  function ApplyOps(sel: seq<string>, ops: seq<TagOp>): seq<string>
    decreases |ops|
  {
    if ops == [] then sel
    else
      var before := ApplyOps(sel, ops[..|ops| - 1]);
      match ops[|ops| - 1]
      case Add(t) => AfterAdd(before, t)
      case Remove(t) => AfterRemove(before, t)
  }

  /** From an empty widget, any sequence of adds and removes leaves a
      duplicate-free list of at most five trimmed tags. */
  lemma {:induction false} OpsKeepWellFormed(ops: seq<TagOp>)
    ensures WellFormed(ApplyOps([], ops))
  {
    if ops != [] {
      OpsKeepWellFormed(ops[..|ops| - 1]);
      var before := ApplyOps([], ops[..|ops| - 1]);
      match ops[|ops| - 1]
      case Add(t) => AddKeepsWellFormed(before, t);
      case Remove(t) => RemoveKeepsWellFormed(before, t);
    }
  }

  // -------------------------------------------------------- suggestions

  const MaxSuggestions := 5

  /** existingTags.filter(tag => tag.toLowerCase().includes(value) && !selected.includes(tag)) */
  function Matching(existing: seq<string>, selected: seq<string>, value: string): (m: seq<string>)
    ensures forall x :: x in m <==> x in existing && Contains(Lower(x), value) && x !in selected
  {
    if existing == [] then []
    else
      (if Contains(Lower(existing[0]), value) && existing[0] !in selected then [existing[0]] else [])
      + Matching(existing[1..], selected, value)
  }

  /** The suggestion list for the raw input, None when it is hidden because
      the trimmed input is empty. */
  function Suggest(existing: seq<string>, selected: seq<string>, input: string): (r: Option<seq<string>>)
    ensures r.None? <==> JsTrim(input) == ""
    ensures r.Some? ==> |r.value| <= MaxSuggestions
    ensures r.Some? ==> forall x :: x in r.value ==>
              x in existing && x !in selected && Contains(Lower(x), Lower(JsTrim(input)))
    ensures r.Some? ==> var m := Matching(existing, selected, Lower(JsTrim(input)));
              |r.value| <= |m| && r.value == m[..|r.value|]
    ensures r.Some? && |r.value| < MaxSuggestions ==>
              forall x :: x in existing && x !in selected && Contains(Lower(x), Lower(JsTrim(input))) ==> x in r.value
  {
    var value := Lower(JsTrim(input));
    if |value| == 0 then None
    else
      var m := Matching(existing, selected, value);
      Some(if |m| <= MaxSuggestions then m else m[..MaxSuggestions])
  }

  /** "Create new tag" is offered for the lower-cased trimmed input when it is
      non-empty, not an existing tag and not selected (both compared exactly). */
  predicate OfferCreate(existing: seq<string>, selected: seq<string>, input: string) {
    var value := Lower(JsTrim(input));
    value != "" && value !in existing && value !in selected
  }

  /** showSuggestions ends by displaying the list only when it has an entry,
      a matching tag or the "create new tag" line; otherwise it hides it. */
  predicate ListShown(existing: seq<string>, selected: seq<string>, input: string) {
    var r := Suggest(existing, selected, input);
    r.Some? && (r.value != [] || OfferCreate(existing, selected, input))
  }

  /** The list is displayed exactly when the trimmed input is non-empty and
      either some unselected tag matches it or a new tag is offered. */
  lemma ListShownExactly(existing: seq<string>, selected: seq<string>, input: string)
    ensures ListShown(existing, selected, input) <==>
              && JsTrim(input) != ""
              && ((exists x :: x in existing && x !in selected && Contains(Lower(x), Lower(JsTrim(input))))
                  || OfferCreate(existing, selected, input))
  {
    var r := Suggest(existing, selected, input);
    var value := Lower(JsTrim(input));
    if r.Some? && r.value != [] {
      assert r.value[0] in r.value;
    }
    if JsTrim(input) != "" && exists x :: x in existing && x !in selected && Contains(Lower(x), value) {
      var x :| x in existing && x !in selected && Contains(Lower(x), value);
      var m := Matching(existing, selected, value);
      assert x in m;
      assert r.value == if |m| <= MaxSuggestions then m else m[..MaxSuggestions];
    }
  }

  /** Choosing the offered new tag adds exactly that tag, unless five are selected. */
  lemma OfferedTagIsAdded(existing: seq<string>, selected: seq<string>, input: string)
    requires OfferCreate(existing, selected, input) && |selected| < MaxSelected
    ensures AfterAdd(selected, Lower(JsTrim(input))) == selected + [Lower(JsTrim(input))]
  {
    LowerKeepsTrimmed(input);
  }

  // -------------------------------------------------------------- widget

  class TagInput {
    var existingTags: seq<string>
    var selectedTags: seq<string>

    constructor (existing: seq<string>)
      ensures existingTags == existing && selectedTags == []
      ensures WellFormed(selectedTags)
    {
      existingTags := existing;
      selectedTags := [];
    }

    method AddTag(tag: string)
      modifies this`selectedTags
      ensures selectedTags == AfterAdd(old(selectedTags), tag)
      ensures old(WellFormed(selectedTags)) ==> WellFormed(selectedTags)
    {
      var t := JsTrim(tag);
      if t != "" && t !in selectedTags && |selectedTags| < MaxSelected {
        selectedTags := selectedTags + [t];
      }
      if old(WellFormed(selectedTags)) {
        AddKeepsWellFormed(old(selectedTags), tag);
      }
    }

    method RemoveTag(tag: string)
      modifies this`selectedTags
      ensures selectedTags == AfterRemove(old(selectedTags), tag)
      ensures old(WellFormed(selectedTags)) ==> WellFormed(selectedTags)
    {
      selectedTags := AfterRemove(selectedTags, tag);
      if old(WellFormed(selectedTags)) {
        RemoveKeepsWellFormed(old(selectedTags), tag);
      }
    }

    /** setTags: the list is replaced without the add checks. */
    method SetTags(tags: seq<string>)
      modifies this`selectedTags
      ensures selectedTags == tags
    {
      selectedTags := tags;
    }

    function Suggestions(input: string): (r: Option<seq<string>>)
      reads this
      ensures r.Some? ==> forall x :: x in r.value ==> x in existingTags && x !in selectedTags
    {
      Suggest(existingTags, selectedTags, input)
    }
  }

  // ------------------------------------------------------------- timeAgo

  /** StackItApp.timeAgo, given the elapsed milliseconds: Math.floor of the
      seconds, then the same chain of thresholds as the server. */
  function ClientTimeAgo(elapsedMs: int): (r: Functions.Ago)
    ensures r.JustNow? <==> elapsedMs < 60000
    ensures r.MinutesAgo? <==> 60000 <= elapsedMs < 3600000
    ensures r.YearsAgo? <==> 31536000000 <= elapsedMs
  {
    var seconds := elapsedMs / 1000;
    if seconds < 60 then Functions.JustNow
    else if seconds < 3600 then Functions.MinutesAgo(seconds / 60)
    else if seconds < 86400 then Functions.HoursAgo(seconds / 3600)
    else if seconds < 2592000 then Functions.DaysAgo(seconds / 86400)
    else if seconds < 31536000 then Functions.MonthsAgo(seconds / 2592000)
    else Functions.YearsAgo(seconds / 31536000)
  }

  /** The client renders the same bucket as the server for the same whole
      number of elapsed seconds. */
  lemma ClientMatchesServer(elapsedMs: int)
    ensures ClientTimeAgo(elapsedMs) == Functions.TimeAgo(elapsedMs / 1000)
  {
  }
}
