/** question.php: viewing a question counts a view; a logged-in user may post
    an answer, which notifies the question's author; the answers are listed
    accepted first, then oldest first; the author sees an accept button on
    each answer not yet accepted. */
module QuestionPage {
  import opened Common
  import opened Store
  import opened Functions
  import AcceptApi

  // ------------------------------------------------------------- ordering

  /** ORDER BY a.is_accepted DESC, a.created_at ASC */
  predicate ListedBefore(a: AnswerRow, b: AnswerRow) {
    (a.accepted && !b.accepted) || (a.accepted == b.accepted && a.createdAt <= b.createdAt)
  }

  ghost predicate InListingOrder(s: seq<AnswerRow>) {
    forall i, j :: 0 <= i < j < |s| ==> ListedBefore(s[i], s[j])
  }

  function InsertAnswer(a: AnswerRow, s: seq<AnswerRow>): (r: seq<AnswerRow>)
    requires InListingOrder(s)
    ensures InListingOrder(r)
    ensures multiset(r) == multiset(s) + multiset{a}
    ensures forall x :: x in r ==> x in s || x == a
  {
    if s == [] then [a]
    else if ListedBefore(a, s[0]) then [a] + s
    else
      var rest := InsertAnswer(a, s[1..]);
      HeadListedFirst(s);
      ConsInListingOrder(s[0], rest);
      assert s == [s[0]] + s[1..];
      [s[0]] + rest
  }

  lemma HeadListedFirst(s: seq<AnswerRow>)
    requires s != [] && InListingOrder(s)
    ensures forall x :: x in s[1..] ==> ListedBefore(s[0], x)
  {
    forall x | x in s[1..] ensures ListedBefore(s[0], x) {
      var k :| 0 <= k < |s[1..]| && s[1..][k] == x;
      assert s[k + 1] == x;
    }
  }

  lemma ConsInListingOrder(h: AnswerRow, rest: seq<AnswerRow>)
    requires InListingOrder(rest)
    requires forall x :: x in rest ==> ListedBefore(h, x)
    ensures InListingOrder([h] + rest)
  {
    var r := [h] + rest;
    forall i, j | 0 <= i < j < |r| ensures ListedBefore(r[i], r[j]) {
      assert r[j] == rest[j - 1];
      if i == 0 {
        assert rest[j - 1] in rest;
      } else {
        assert r[i] == rest[i - 1];
      }
    }
  }

  /** The answers of a question, in the order the page lists them. `rows`
      are the question's answer rows in the order the table yields them. */
  function ListAnswers(rows: seq<AnswerRow>): (r: seq<AnswerRow>)
    ensures InListingOrder(r)
    ensures multiset(r) == multiset(rows)
  {
    if rows == [] then []
    else
      assert rows == [rows[0]] + rows[1..];
      InsertAnswer(rows[0], ListAnswers(rows[1..]))
  }

  /** With at most one accepted answer, it is listed first, if there is one. */
  lemma AcceptedListedFirst(rows: seq<AnswerRow>, i: int)
    requires forall j, k :: 0 <= j < k < |rows| ==> !(rows[j].accepted && rows[k].accepted)
    requires 0 <= i < |ListAnswers(rows)| && ListAnswers(rows)[i].accepted
    ensures i == 0
  {
    var r := ListAnswers(rows);
    if i > 0 {
      assert ListedBefore(r[0], r[i]);
      assert r[0].accepted;
      assert r[0] in multiset(rows) && r[i] in multiset(rows);
      var j :| 0 <= j < |rows| && rows[j] == r[0];
      var k :| 0 <= k < |rows| && rows[k] == r[i];
      if j == k {
        // the same row twice in the listing: its multiplicity in rows is at least 2
        assert multiset(r)[r[0]] >= 2 by {
          assert r[0] == r[i];
          assert r == r[..i] + r[i..];
          assert multiset(r) == multiset(r[..i]) + multiset(r[i..]);
        }
        AtMostOnceIfAccepted(rows, r[0]);
      }
    }
  }

  /** Without two accepted rows, an accepted row occurs once. */
  lemma {:induction false} AtMostOnceIfAccepted(rows: seq<AnswerRow>, x: AnswerRow)
    requires forall j, k :: 0 <= j < k < |rows| ==> !(rows[j].accepted && rows[k].accepted)
    requires x.accepted
    ensures multiset(rows)[x] <= 1
  {
    if rows != [] {
      assert rows == [rows[0]] + rows[1..];
      AtMostOnceIfAccepted(rows[1..], x);
      if rows[0] == x {
        assert x !in rows[1..];
      }
    }
  }

  /** The accept button: only for the question's author, only on an answer
      not already accepted. */
  predicate ShowAcceptButton(user: Option<UserId>, question: QuestionRow, answer: AnswerRow) {
    user.Some? && question.author == user.value && !answer.accepted
  }

  /** The button is offered only where the accept request passes the author check. */
  lemma AcceptButtonAuthorized(user: Option<UserId>, questions: map<int, QuestionRow>,
                               answers: map<int, AnswerRow>, aid: int)
    requires aid in answers && answers[aid].question in questions
    requires ShowAcceptButton(user, questions[answers[aid].question], answers[aid])
    ensures AcceptApi.CheckAccept(user, true, Some(aid), questions, answers) == Ok(aid)
  {
  }

  // -------------------------------------------------------------- the page

  datatype PageResult = RedirectHome | RedirectToQuestion(id: int) | Shown | Crashed

  /** The statements before the page is rendered, numbered for fault injection.
      question.php has no try/catch: a throw ends the request, and what was
      already written stays written (autocommit). */
  const ViewStep := 1
  const InsertStep := 2
  const AuthorStep := 3
  const NotifyStep := 4

  function AnswerMessage(questionTitle: Bytes): Bytes {
    Lit("Someone answered your question: ") + questionTitle
  }

  /** The answer form of question.php: insert the answer, then notify the
      question's author unless they answered themselves. Without a transaction
      each statement is committed as it runs. */
  method PostAnswer(db: Database, user: UserId, questionId: int, content: Bytes, now: int, fault: Fault)
    returns (result: PageResult)
    requires db.Valid()
    modifies db`answers, db`nextAnswerId, db`notifications
    ensures db.Valid()
    ensures result == Crashed || result == RedirectToQuestion(questionId)
    ensures fault == FailAt(InsertStep) ==>
              result == Crashed && db.answers == old(db.answers) && db.notifications == old(db.notifications)
    ensures fault != FailAt(InsertStep) ==>
              && old(db.nextAnswerId) !in old(db.answers)
              && db.answers == old(db.answers)[old(db.nextAnswerId) := AnswerRow(questionId, user, content, false, now)]
    ensures db.notifications != old(db.notifications) ==>
              && fault != FailAt(InsertStep)
              && questionId in db.questions && db.questions[questionId].author != user
              && result == RedirectToQuestion(questionId)
              && db.notifications == old(db.notifications)
                   + [NotificationRow(db.questions[questionId].author, AnswerPosted, Lit("New Answer"),
                                      AnswerMessage(db.questions[questionId].title), Some(old(db.nextAnswerId)), false, now)]
    ensures questionId in db.questions && db.questions[questionId].author != user
            && fault != FailAt(InsertStep) && fault != FailAt(AuthorStep) && fault != FailAt(NotifyStep) ==>
              db.notifications != old(db.notifications)
  {
    if fault == FailAt(InsertStep) {
      return Crashed;
    }
    var answerId := db.nextAnswerId;
    assert answerId !in db.answers;
    db.answers := db.answers[answerId := AnswerRow(questionId, user, content, false, now)];
    db.nextAnswerId := db.nextAnswerId + 1;

    if fault == FailAt(AuthorStep) {
      return Crashed;
    }
    if questionId in db.questions && db.questions[questionId].author != user {
      var question := db.questions[questionId];
      var _ := CreateNotification(db, question.author, AnswerPosted, Lit("New Answer"), AnswerMessage(question.title),
                                  Some(answerId), now, fault == FailAt(NotifyStep));
    }
    return RedirectToQuestion(questionId);
  }

  /** question.php up to the rendering. `questionId` is (int)$_GET['id'], 0 when
      absent; `post` is the sanitized content when the answer form was submitted. */
  method ViewQuestion(db: Database, user: Option<UserId>, questionId: int, post: Option<Bytes>, now: int, fault: Fault)
    returns (result: PageResult)
    requires db.Valid()
    modifies db`questions, db`answers, db`nextAnswerId, db`notifications
    ensures db.Valid()
    ensures questionId == 0 ==> result == RedirectHome && unchanged(db)
    ensures fault == FailAt(ViewStep) && questionId != 0 ==> result == Crashed && unchanged(db)
    ensures questionId != 0 && fault != FailAt(ViewStep) ==>
              db.questions == if questionId in old(db.questions)
                              then old(db.questions)[questionId := old(db.questions[questionId]).(viewCount := old(db.questions[questionId]).viewCount + 1)]
                              else old(db.questions)
    ensures db.answers != old(db.answers) ==>
              && questionId != 0 && user.Some? && post.Some? && !PhpEmpty(post.value)
              && old(db.nextAnswerId) !in old(db.answers)
              && db.answers == old(db.answers)[old(db.nextAnswerId) := AnswerRow(questionId, user.value, post.value, false, now)]
              && result != Shown
    ensures questionId != 0 && user.Some? && post.Some? && !PhpEmpty(post.value) && fault != FailAt(ViewStep) && fault != FailAt(InsertStep) ==>
              db.answers == old(db.answers)[old(db.nextAnswerId) := AnswerRow(questionId, user.value, post.value, false, now)]
    ensures db.notifications != old(db.notifications) ==>
              && db.answers != old(db.answers) && questionId in db.questions
              && db.questions[questionId].author != user.value
              && result == RedirectToQuestion(questionId)
              && db.notifications == old(db.notifications)
                   + [NotificationRow(db.questions[questionId].author, AnswerPosted, Lit("New Answer"),
                                      AnswerMessage(db.questions[questionId].title), Some(old(db.nextAnswerId)), false, now)]
    ensures db.answers != old(db.answers) && questionId in db.questions && db.questions[questionId].author != user.value
            && fault != FailAt(AuthorStep) && fault != FailAt(NotifyStep) ==>
              db.notifications != old(db.notifications)
    ensures result == Shown ==> questionId in db.questions
  {
    if questionId == 0 {
      return RedirectHome;
    }

    if fault == FailAt(ViewStep) {
      return Crashed;
    }
    if questionId in db.questions {
      var q := db.questions[questionId];
      db.questions := db.questions[questionId := q.(viewCount := q.viewCount + 1)];
    }

    if post.Some? && user.Some? && !PhpEmpty(post.value) {
      result := PostAnswer(db, user.value, questionId, post.value, now, fault);
      return;
    }

    if questionId !in db.questions {
      return RedirectHome;
    }
    result := Shown;
  }
}
