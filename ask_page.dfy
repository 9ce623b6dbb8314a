/** ask.php: a new question is validated field by field; when no field has an
    error the question is inserted and each of its tags is found or created
    and linked to it, all in one transaction. */
module AskPage {
  import opened Common
  import opened Store

  // ------------------------------------------------------------ validation

  datatype TitleError = TitleRequired | TitleTooShort
  datatype DescriptionError = DescriptionRequired | DescriptionTooShort
  datatype TagsError = TagsRequired | TooManyTags

  /** The errors map: one optional entry per field. */
  datatype AskErrors = AskErrors(title: Option<TitleError>, description: Option<DescriptionError>, tags: Option<TagsError>)

  const MinTitleLength := 10
  const MinDescriptionLength := 20
  const MaxTags := 5

  /** The three independent if/elseif checks. `description` is the sanitized
      description and `strippedLength` the byte length of its tag-stripped text. */
  function Validate(rawTitle: Bytes, description: Bytes, strippedLength: nat, tags: seq<Bytes>): (e: AskErrors)
    ensures e.title == Some(TitleRequired) <==> PhpEmpty(PhpTrim(rawTitle))
    ensures e.title.None? <==> |PhpTrim(rawTitle)| >= MinTitleLength
    ensures e.description == Some(DescriptionRequired) <==> PhpEmpty(description)
    ensures e.description.None? <==> !PhpEmpty(description) && strippedLength >= MinDescriptionLength
    ensures e.tags == Some(TagsRequired) <==> tags == []
    ensures e.tags == Some(TooManyTags) <==> |tags| > MaxTags
  {
    var title := PhpTrim(rawTitle);
    AskErrors(
      if PhpEmpty(title) then Some(TitleRequired)
      else if |title| < MinTitleLength then Some(TitleTooShort)
      else None,
      if PhpEmpty(description) then Some(DescriptionRequired)
      else if strippedLength < MinDescriptionLength then Some(DescriptionTooShort)
      else None,
      if tags == [] then Some(TagsRequired)
      else if |tags| > MaxTags then Some(TooManyTags)
      else None)
  }

  predicate NoErrors(e: AskErrors) {
    e.title.None? && e.description.None? && e.tags.None?
  }

  // ------------------------------------------------------------ tag linking

  /** The tables the tag loop touches. */
  datatype TagTables = TagTables(tags: map<Bytes, int>, nextTagId: int, links: seq<(int, int)>)

  /** One turn of the loop: trim, skip an empty name, find or create the tag, link it. */
  function LinkTag(t: TagTables, q: int, raw: Bytes): (r: TagTables)
    ensures t.tags.Keys <= r.tags.Keys && t.nextTagId <= r.nextTagId
    ensures |t.links| <= |r.links| <= |t.links| + 1 && r.links[..|t.links|] == t.links
  {
    var name := PhpTrim(raw);
    if PhpEmpty(name) then t
    else if name in t.tags then t.(links := t.links + [(q, t.tags[name])])
    else TagTables(t.tags[name := t.nextTagId], t.nextTagId + 1, t.links + [(q, t.nextTagId)])
  }

  /** The loop over the first |names| submitted tags. */
  function LinkTags(t: TagTables, q: int, names: seq<Bytes>): TagTables
    decreases |names|
  {
    if names == [] then t
    else LinkTag(LinkTags(t, q, names[..|names| - 1]), q, names[|names| - 1])
  }

  /** The submitted names that the loop does not skip. */
  function CountLinked(names: seq<Bytes>): (n: nat)
    ensures n <= |names|
  {
    if names == [] then 0
    else CountLinked(names[..|names| - 1]) + (if PhpEmpty(PhpTrim(names[|names| - 1])) then 0 else 1)
  }

  /** One turn keeps existing tags, gives a new tag a fresh id, and appends
      at most one link, to the question. */
  lemma LinkTagStep(t: TagTables, q: int, raw: Bytes)
    requires TagIdsBelow(t.tags, t.nextTagId)
    ensures var r := LinkTag(t, q, raw);
            && TagIdsBelow(r.tags, r.nextTagId) && t.nextTagId <= r.nextTagId
            && (forall name :: name in t.tags ==> name in r.tags && r.tags[name] == t.tags[name])
            && (forall name :: name in r.tags && name !in t.tags ==> t.nextTagId <= r.tags[name])
            && r.links == t.links + (if PhpEmpty(PhpTrim(raw)) then [] else [(q, r.tags[PhpTrim(raw)])])
  {
  }

  /** Existing tags keep their ids and new tags get fresh ids. */
  lemma {:induction false} LinkTagsKeepsTags(t: TagTables, q: int, names: seq<Bytes>)
    requires TagIdsBelow(t.tags, t.nextTagId)
    ensures var r := LinkTags(t, q, names);
            && TagIdsBelow(r.tags, r.nextTagId) && t.nextTagId <= r.nextTagId
            && (forall name :: name in t.tags ==> name in r.tags && r.tags[name] == t.tags[name])
            && (forall name :: name in r.tags && name !in t.tags ==> t.nextTagId <= r.tags[name])
  {
    if names != [] {
      var init := names[..|names| - 1];
      LinkTagsKeepsTags(t, q, init);
      LinkTagStep(LinkTags(t, q, init), q, names[|names| - 1]);
    }
  }

  /** One link to the new question is appended per name not skipped, after
      the links already there. */
  lemma {:induction false} LinkTagsAppends(t: TagTables, q: int, names: seq<Bytes>)
    requires TagIdsBelow(t.tags, t.nextTagId)
    ensures var r := LinkTags(t, q, names);
            && |r.links| == |t.links| + CountLinked(names)
            && r.links[..|t.links|] == t.links
            && (forall k :: |t.links| <= k < |r.links| ==> r.links[k].0 == q)
  {
    if names != [] {
      var init := names[..|names| - 1];
      LinkTagsAppends(t, q, init);
      LinkTagsKeepsTags(t, q, init);
      var mid := LinkTags(t, q, init);
      LinkTagStep(mid, q, names[|names| - 1]);
      var r := LinkTag(mid, q, names[|names| - 1]);
      assert r.links[..|mid.links|] == mid.links;
      assert r.links[..|t.links|] == mid.links[..|t.links|];
    }
  }

  /** Every name not skipped ends up as a tag linked to the question. */
  lemma {:induction false} LinkTagsLinksEach(t: TagTables, q: int, names: seq<Bytes>, i: int)
    requires TagIdsBelow(t.tags, t.nextTagId)
    requires 0 <= i < |names| && !PhpEmpty(PhpTrim(names[i]))
    ensures var r := LinkTags(t, q, names);
            PhpTrim(names[i]) in r.tags && (q, r.tags[PhpTrim(names[i])]) in r.links
  {
    var n := |names| - 1;
    var init := names[..n];
    var mid := LinkTags(t, q, init);
    LinkTagsKeepsTags(t, q, init);
    LinkTagStep(mid, q, names[n]);
    var r := LinkTag(mid, q, names[n]);
    if i < n {
      LinkTagsLinksEach(t, q, init, i);
      assert init[i] == names[i];
      assert (q, mid.tags[PhpTrim(names[i])]) in mid.links;
    } else {
      assert r.links[|r.links| - 1] == (q, r.tags[PhpTrim(names[i])]);
    }
  }

  // --------------------------------------------------------------- handler

  datatype AskOutcome = RedirectLogin | FormShown | Invalid(errors: AskErrors) | Created(id: int) | SubmitFailed

  /** No statement of a tag the loop does not skip throws; the k-th tag's
      statements are fault point firstStep + k. */
  predicate TagsLinkable(tags: seq<Bytes>, firstStep: nat, fault: Fault) {
    forall k :: 0 <= k < |tags| && !PhpEmpty(PhpTrim(tags[k])) ==> fault != FailAt(firstStep + k)
  }

  /** The tag loop of ask.php for question q. The statements for the k-th
      submitted tag (from 0) are fault point firstStep + k; a skipped name runs
      none. On a fault the loop stops and reports it, leaving the partial
      writes for the caller's rollback. */
  method LinkQuestionTags(db: Database, q: int, tags: seq<Bytes>, firstStep: nat, fault: Fault) returns (ok: bool)
    requires db.Valid()
    modifies db`tags, db`nextTagId, db`questionTags
    ensures db.Valid()
    ensures ok <==> TagsLinkable(tags, firstStep, fault)
    ensures ok ==> TagTables(db.tags, db.nextTagId, db.questionTags)
                   == LinkTags(TagTables(old(db.tags), old(db.nextTagId), old(db.questionTags)), q, tags)
  {
    ghost var start := TagTables(db.tags, db.nextTagId, db.questionTags);
    var i := 0;
    while i < |tags|
      invariant 0 <= i <= |tags|
      invariant TagTables(db.tags, db.nextTagId, db.questionTags) == LinkTags(start, q, tags[..i])
      invariant db.Valid()
      invariant forall k :: 0 <= k < i && !PhpEmpty(PhpTrim(tags[k])) ==> fault != FailAt(firstStep + k)
    {
      assert tags[..i + 1][..i] == tags[..i];
      var linked := LinkTagTurn(db, q, tags[i], firstStep + i, fault);
      if !linked {
        assert !PhpEmpty(PhpTrim(tags[i])) && fault == FailAt(firstStep + i);
        return false;
      }
      i := i + 1;
    }
    assert tags[..i] == tags;
    ok := true;
  }

  /** One turn of the tag loop: a name that trims to an empty string runs no
      statement; otherwise the tag is looked up, inserted when it is new, and
      linked to question q, and those statements are fault point `step`. */
  method LinkTagTurn(db: Database, q: int, raw: Bytes, step: nat, fault: Fault) returns (linked: bool)
    requires db.Valid()
    modifies db`tags, db`nextTagId, db`questionTags
    ensures db.Valid()
    ensures linked <==> PhpEmpty(PhpTrim(raw)) || fault != FailAt(step)
    ensures linked ==> TagTables(db.tags, db.nextTagId, db.questionTags)
                       == LinkTag(TagTables(old(db.tags), old(db.nextTagId), old(db.questionTags)), q, raw)
  {
    var name := PhpTrim(raw);
    if PhpEmpty(name) {
      return true;
    }
    if fault == FailAt(step) {
      return false;
    }
    LinkTagStep(TagTables(db.tags, db.nextTagId, db.questionTags), q, raw);
    var tagId: int;
    if name in db.tags {
      tagId := db.tags[name];
    } else {
      tagId := db.nextTagId;
      db.tags := db.tags[name := tagId];
      db.nextTagId := db.nextTagId + 1;
    }
    db.questionTags := db.questionTags + [(q, tagId)];
    linked := true;
  }

  /** ask.php up to the redirect. The transaction's statements are numbered for
      fault injection: 1 is the question INSERT, 2 + k the statements for the
      k-th submitted tag (none when its name is skipped), 2 + |tags| the commit. */
  method AskQuestion(db: Database, user: Option<UserId>, isSubmit: bool,
                     rawTitle: Bytes, description: Bytes, strippedLength: nat, tags: seq<Bytes>, fault: Fault)
    returns (outcome: AskOutcome)
    requires db.Valid()
    modifies db`questions, db`nextQuestionId, db`tags, db`nextTagId, db`questionTags
    ensures db.Valid()
    ensures !outcome.Created? ==>
              && db.questions == old(db.questions) && db.tags == old(db.tags)
              && db.questionTags == old(db.questionTags)
    ensures user.None? ==> outcome == RedirectLogin
    ensures user.Some? && !isSubmit ==> outcome == FormShown
    ensures user.Some? && isSubmit && !NoErrors(Validate(rawTitle, description, strippedLength, tags)) ==>
              outcome == Invalid(Validate(rawTitle, description, strippedLength, tags))
    ensures outcome.Created? ==>
              var q := old(db.nextQuestionId);
              var r := LinkTags(TagTables(old(db.tags), old(db.nextTagId), old(db.questionTags)), q, tags);
              && user.Some? && isSubmit && NoErrors(Validate(rawTitle, description, strippedLength, tags))
              && outcome.id == q && q !in old(db.questions)
              && db.questions == old(db.questions)[q := QuestionRow(user.value, PhpTrim(rawTitle), description, 0)]
              && db.tags == r.tags && db.nextTagId == r.nextTagId && db.questionTags == r.links
    ensures user.Some? && isSubmit && NoErrors(Validate(rawTitle, description, strippedLength, tags)) ==>
              (outcome.Created? <==>
                 && fault != FailAt(1) && fault != FailAt(|tags| + 2)
                 && TagsLinkable(tags, 2, fault))
  {
    if user.None? {
      return RedirectLogin;
    }
    if !isSubmit {
      return FormShown;
    }
    var errors := Validate(rawTitle, description, strippedLength, tags);
    if !NoErrors(errors) {
      return Invalid(errors);
    }

    outcome := SubmitQuestion(db, user.value, PhpTrim(rawTitle), description, tags, fault);
  }

  /** The transaction of ask.php: insert the question, link its tags, commit;
      any failing statement rolls every write back. */
  method SubmitQuestion(db: Database, author: UserId, title: Bytes, description: Bytes, tags: seq<Bytes>, fault: Fault)
    returns (outcome: AskOutcome)
    requires db.Valid()
    modifies db`questions, db`nextQuestionId, db`tags, db`nextTagId, db`questionTags
    ensures db.Valid()
    ensures outcome.Created? || outcome == SubmitFailed
    ensures outcome == SubmitFailed ==>
              && db.questions == old(db.questions) && db.tags == old(db.tags)
              && db.questionTags == old(db.questionTags)
    ensures outcome.Created? ==>
              var q := old(db.nextQuestionId);
              var r := LinkTags(TagTables(old(db.tags), old(db.nextTagId), old(db.questionTags)), q, tags);
              && outcome.id == q && q !in old(db.questions)
              && db.questions == old(db.questions)[q := QuestionRow(author, title, description, 0)]
              && db.tags == r.tags && db.nextTagId == r.nextTagId && db.questionTags == r.links
    ensures outcome.Created? <==>
              fault != FailAt(1) && fault != FailAt(|tags| + 2) && TagsLinkable(tags, 2, fault)
  {
    // beginTransaction: remember the state a rollback returns to
    var savedQuestions, savedNextQuestionId := db.questions, db.nextQuestionId;
    var savedTags, savedNextTagId, savedLinks := db.tags, db.nextTagId, db.questionTags;

    var ok := fault != FailAt(1);
    var q := db.nextQuestionId;
    if ok {
      db.questions := db.questions[q := QuestionRow(author, title, description, 0)];
      db.nextQuestionId := db.nextQuestionId + 1;
      ok := LinkQuestionTags(db, q, tags, 2, fault);
      ok := ok && fault != FailAt(|tags| + 2);
    }
    if ok {
      outcome := Created(q);
    } else {
      // the catch block: rollBack
      db.questions, db.nextQuestionId := savedQuestions, savedNextQuestionId;
      db.tags, db.nextTagId, db.questionTags := savedTags, savedNextTagId, savedLinks;
      outcome := SubmitFailed;
    }
  }
}
